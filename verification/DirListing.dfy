/**
 WalkDir, ListDir, CountDir and IsFileExistsInDir of src/isdk_utils.c:438-582, over the entries of a
 directory in the order readdir gives them. Pattern matching (fnmatch) is a parameter.
 */
module DirListing {
  import opened Bytes

  type Name = seq<byte>

  // d_type or what lstat finds, and for a symbolic link what stat finds behind it. Unreadable is an
  // entry of unknown type for which lstat fails.
  datatype Kind = Directory | Regular | LinkToDirectory | LinkToFile | BrokenLink | Special | Unreadable

  datatype Entry = Entry(name: Name, kind: Kind)

  // The option bits.
  datatype Options = Options(dir: bool, file: bool, symbolic: bool, symbolicNone: bool, hidden: bool, normal: bool)

  predicate Shown(o: Options, name: Name) {
    var dotted := name != [] && name[0] == DOT;
    if o.hidden then (o.normal || dotted) && name != [DOT] && name != [DOT, DOT] else !dotted
  }

  predicate KindWanted(o: Options, k: Kind) {
    match k
    case Directory => o.dir
    case Regular => o.file
    case LinkToDirectory => o.symbolic && o.dir
    case LinkToFile => o.symbolic && o.file
    case BrokenLink => o.symbolicNone
    case Special => false
    case Unreadable => false
  }

  predicate Passes(o: Options, matches: Name -> bool, e: Entry) {
    Shown(o, e.name) && KindWanted(o, e.kind) && matches(e.name)
  }

  // The names of the entries that pass, in order.
  function Filtered(o: Options, matches: Name -> bool, entries: seq<Entry>): seq<Name>
    decreases |entries|
  {
    if entries == [] then [] else
      var e := entries[|entries| - 1];
      Filtered(o, matches, entries[..|entries| - 1]) + if Passes(o, matches, e) then [e.name] else []
  }

  // count names from skip on; a count of 0 is no limit.
  function Page(all: seq<Name>, skip: nat, count: nat): seq<Name> {
    if skip >= |all| then [] else if count == 0 || skip + count >= |all| then all[skip..] else all[skip..skip + count]
  }

  predicate Fails(o: Options, e: Entry) { Shown(o, e.name) && e.kind == Unreadable }

  // How far a walk can go: up to the first entry that fails.
  function Readable(o: Options, entries: seq<Entry>): (n: nat)
    ensures n <= |entries| && (n < |entries| ==> Fails(o, entries[n]))
    ensures forall i :: 0 <= i < n ==> !Fails(o, entries[i])
  {
    if entries == [] || Fails(o, entries[0]) then 0 else
      var rest := entries[1..];
      assert forall i :: 1 <= i < |entries| ==> entries[i] == rest[i - 1];
      1 + Readable(o, rest)
  }

  // What a walk over a directory lists; None when it cannot be opened (entries is None), or an
  // entry fails before the page is full.
  function Listed(o: Options, matches: Name -> bool, entries: Option<seq<Entry>>, skip: nat, count: nat): Option<seq<Name>> {
    match entries
    case None => None
    case Some(es) =>
      var n := Readable(o, es);
      var names := Filtered(o, matches, es[..n]);
      if n < |es| && (count == 0 || |names| < skip + count) then None else Some(Page(names, skip, count))
  }

  lemma {:induction false} FilteredPrefix(o: Options, matches: Name -> bool, entries: seq<Entry>, i: nat)
    requires i <= |entries|
    ensures Filtered(o, matches, entries[..i]) <= Filtered(o, matches, entries)
    decreases |entries| - i
  {
    if i == |entries| {
      assert entries[..i] == entries;
    } else {
      assert entries[..i + 1][..i] == entries[..i];
      FilteredPrefix(o, matches, entries, i + 1);
    }
  }

  // WalkDir with the processor of ListDir, which appends every name it is given.
  method ListDir(o: Options, matches: Name -> bool, entries: Option<seq<Entry>>, skip: nat, count: nat)
    returns (vTotal: int, list: Option<seq<Name>>)
    ensures list == Listed(o, matches, entries, skip, count)
    ensures vTotal == if list.None? then -1 else |list.value|
  {
    hide Passes, Fails, Filtered;
    if entries.None? { return -1, None; }
    var es := entries.value;
    ghost var n := Readable(o, es);
    var names: seq<Name> := [];
    FilteredNothing(o, matches, es);
    vTotal := 0;
    var skipCount := skip;
    var i := 0;
    while i < |es|
      invariant 0 <= i <= n <= |es| && 0 <= skipCount <= skip && vTotal == |names|
      invariant var seen := Filtered(o, matches, es[..i]);
                if skipCount > 0 then names == [] && |seen| == skip - skipCount
                else |seen| >= skip && names == seen[skip..]
      invariant count == 0 || vTotal < count
    {
      var e := es[i];
      if Fails(o, e) { return -1, None; }
      FilteredNext(o, matches, es, i);
      i := i + 1;
      if Passes(o, matches, e) {
        if skipCount != 0 {
          skipCount := skipCount - 1;
          continue;
        }
        names := names + [e.name];
        vTotal := vTotal + 1;
      }
      if count > 0 && vTotal >= count {
        ghost var seen := Filtered(o, matches, es[..i]);
        assert names == seen[skip..] && |seen| == skip + count;
        assert es[..n][..i] == es[..i];
        FilteredPrefix(o, matches, es[..n], i);
        PageFull(Filtered(o, matches, es[..n]), seen, skip, count);
        return vTotal, Some(names);
      }
    }
    assert es[..|es|] == es;
    list := Some(names);
  }

  lemma PageFull(all: seq<Name>, part: seq<Name>, skip: nat, count: nat)
    requires part <= all && |part| == skip + count && count > 0
    ensures Page(all, skip, count) == part[skip..]
  {}

  lemma FilteredNothing(o: Options, matches: Name -> bool, entries: seq<Entry>)
    ensures Filtered(o, matches, entries[..0]) == []
  {}

  lemma FilteredNext(o: Options, matches: Name -> bool, entries: seq<Entry>, i: nat)
    requires i < |entries|
    ensures Filtered(o, matches, entries[..i + 1])
            == Filtered(o, matches, entries[..i]) + if Passes(o, matches, entries[i]) then [entries[i].name] else []
  {
    assert entries[..i + 1][..i] == entries[..i];
  }

  // CountDir: no skip, no limit, no processor; -1 for a directory that cannot be read.
  method CountDir(o: Options, matches: Name -> bool, entries: Option<seq<Entry>>) returns (n: int)
    ensures n == if entries.None? || (exists i :: 0 <= i < |entries.value| && Fails(o, entries.value[i])) then -1
                 else |Filtered(o, matches, entries.value)|
  {
    var list;
    n, list := ListDir(o, matches, entries, 0, 0);
    if entries.Some? { assert entries.value[..|entries.value|] == entries.value; }
  }

  // IsFileExistsInDir: a walk limited to one entry.
  method IsFileExistsInDir(o: Options, matches: Name -> bool, entries: Option<seq<Entry>>) returns (found: bool)
    ensures found <==> && entries.Some?
                       && exists i :: 0 <= i < Readable(o, entries.value) && Passes(o, matches, entries.value[i])
  {
    var vCount, list := ListDir(o, matches, entries, 0, 1);
    found := vCount >= 1;
    if entries.Some? {
      var n := Readable(o, entries.value);
      NothingPasses(o, matches, entries.value[..n]);
      assert forall i :: 0 <= i < n ==> entries.value[..n][i] == entries.value[i];
    }
  }

  lemma {:induction false} NothingPasses(o: Options, matches: Name -> bool, entries: seq<Entry>)
    ensures Filtered(o, matches, entries) == [] <==> !exists i :: 0 <= i < |entries| && Passes(o, matches, entries[i])
    decreases |entries|
  {
    if entries != [] {
      var init := entries[..|entries| - 1];
      NothingPasses(o, matches, init);
      assert forall i :: 0 <= i < |init| ==> init[i] == entries[i];
    }
  }

  // The first n pages of `count` names, one behind the other.
  function Pages(all: seq<Name>, count: nat, n: nat): seq<Name>
    requires count > 0
  {
    if n == 0 then [] else Pages(all, count, n - 1) + Page(all, (n - 1) * count, count)
  }

  // Consecutive pages make up the listing, without gap or overlap.
  lemma {:induction false} PagesConcatenate(all: seq<Name>, count: nat, n: nat)
    requires count > 0
    ensures Pages(all, count, n) == if n * count >= |all| then all else all[..n * count]
    decreases n
  {
    if n > 0 {
      PagesConcatenate(all, count, n - 1);
      var skip := (n - 1) * count;
      assert n * count == skip + count;
      if skip < |all| {
        assert all == all[..skip] + all[skip..];
        if skip + count < |all| {
          assert all[..skip] + all[skip..skip + count] == all[..skip + count];
        }
      }
    }
  }

  // Reading page after page until the pages cover the count gives the whole listing.
  lemma PagesCover(o: Options, matches: Name -> bool, entries: seq<Entry>, count: nat, n: nat)
    requires count > 0 && n * count >= |Filtered(o, matches, entries)|
    ensures Pages(Filtered(o, matches, entries), count, n) == Filtered(o, matches, entries)
    ensures Page(Filtered(o, matches, entries), 0, 0) == Filtered(o, matches, entries)
  {
    PagesConcatenate(Filtered(o, matches, entries), count, n);
  }

  // ---------- which entries pass ----------

  // Names with a leading dot are listed if hidden ones are wanted, "." and ".." excepted; other
  // names unless only hidden ones are.
  predicate NameListed(o: Options, name: Name) {
    if name != [] && name[0] == 0x2E then o.hidden && name != [0x2E] && name != [0x2E, 0x2E]
    else !o.hidden || o.normal
  }

  // Directories and files as wanted, links to them if links are wanted too, dangling links by an
  // option of their own, and nothing else.
  lemma PassesExactly(o: Options, matches: Name -> bool, e: Entry)
    ensures Passes(o, matches, e)
            <==> && NameListed(o, e.name) && matches(e.name)
                 && (|| (o.dir && e.kind == Directory) || (o.file && e.kind == Regular)
                     || (o.symbolic && o.dir && e.kind == LinkToDirectory) || (o.symbolic && o.file && e.kind == LinkToFile)
                     || (o.symbolicNone && e.kind == BrokenLink))
  {}

  // A walk fails at an entry that it would look at and whose type it cannot find out.
  lemma FailsExactly(o: Options, e: Entry)
    ensures Fails(o, e) <==> NameListed(o, e.name) && e.kind == Unreadable
  {}

  // The list: the names of the entries that pass, in order.
  lemma {:induction false} FilteredConcat(o: Options, matches: Name -> bool, a: seq<Entry>, b: seq<Entry>)
    ensures Filtered(o, matches, a + b) == Filtered(o, matches, a) + Filtered(o, matches, b)
    decreases |b|
  {
    if b == [] {
      assert a + b == a;
    } else {
      assert (a + b)[..|a + b| - 1] == a + b[..|b| - 1];
      FilteredConcat(o, matches, a, b[..|b| - 1]);
    }
  }

  lemma FilteredOne(o: Options, matches: Name -> bool, e: Entry)
    ensures Filtered(o, matches, [e]) == if Passes(o, matches, e) then [e.name] else []
  {
    assert [e][..0] == [];
  }

  // A page is what stands from skip on, up to count names.
  lemma PageIs(all: seq<Name>, skip: nat, count: nat)
    ensures var page := Page(all, skip, count);
            && |page| == (var left := if skip < |all| then |all| - skip else 0; if 0 < count < left then count else left)
            && forall i :: 0 <= i < |page| ==> page[i] == all[skip + i]
  {}

  // LIST_NORMAL_DIRS and LIST_HIDDEN_DIRS, the two listings of the key store.
  const NORMAL_DIRS :=
    Options(dir := true, file := false, symbolic := true, symbolicNone := false, hidden := false, normal := true)
  const HIDDEN_DIRS :=
    Options(dir := true, file := false, symbolic := true, symbolicNone := false, hidden := true, normal := false)

  // Directories and links to directories, without a leading dot or with one.
  lemma StoreListings(e: Entry)
    ensures Passes(NORMAL_DIRS, _ => true, e)
            <==> e.kind in {Directory, LinkToDirectory} && (e.name == [] || e.name[0] != 0x2E)
    ensures Passes(HIDDEN_DIRS, _ => true, e)
            <==> && e.kind in {Directory, LinkToDirectory} && e.name != [] && e.name[0] == 0x2E
                 && e.name !in {[0x2E], [0x2E, 0x2E]}
  {}
}
