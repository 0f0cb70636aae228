/**
 Listing the keys of a partitioned directory: _iSubkeyWalk with its two walkers, iSubkeys and
 iSubkeyTotal of src/idb_helpers.c, for the unlimited walk (no pattern, skip 0, count 0).
 */
module Enumeration {
  import opened Bytes
  import opened PartitionTree
  import opened AnyTree
  import opened Refinement
  import opened KeyStore

  const SIZE_T := 0x1_0000_0000_0000_0000   // 2^64

  // The value of an arithmetic result stored in a size_t.
  function SizeT(n: int): nat { n % SIZE_T }

  lemma WrapsOn(leftCount: nat, used: nat, n: nat)
    requires leftCount == SizeT(0 - used)
    ensures SizeT(leftCount - n) == SizeT(0 - (used + n))
  {}

  // What the walk does with each key it meets: nothing (iSubkeyTotal), or _iSubkeysWalker, with
  // duplicates wanted by the argument, or else ignored or refused by the global variable.
  datatype Processor = CountOnly | Reserved | IgnoreDuplicates | StopOnDuplicate

  // The list with the key added where the policy wants it; None is WALK_ITEM_ERROR.
  function Process(p: Processor, keys: seq<Name>, key: Name): Option<seq<Name>> {
    match p
    case CountOnly => Some(keys)
    case Reserved => Some(keys + [key])
    case IgnoreDuplicates => Some(if key in keys then keys else keys + [key])
    case StopOnDuplicate => if key in keys then None else Some(keys + [key])
  }

  function ProcessAll(p: Processor, keys: seq<Name>, names: seq<Name>): Option<seq<Name>>
    decreases |names|
  {
    if names == [] then Some(keys) else
      match ProcessAll(p, keys, names[..|names| - 1])
      case None => None
      case Some(ks) => Process(p, ks, names[|names| - 1])
  }

  // dStringArray_indexOf: the first position of str, -1 when it is not in the list.
  method IndexOf(arr: seq<Name>, str: Name) returns (result: int)
    ensures -1 <= result < |arr|
    ensures result >= 0 ==> arr[result] == str && str !in arr[..result]
    ensures result == -1 <==> str !in arr
  {
    result := -1;
    var i := 0;
    while i < |arr|
      invariant 0 <= i <= |arr| && str !in arr[..i] && result == -1
    {
      if arr[i] == str {
        result := i;
        break;
      }
      i := i + 1;
    }
  }

  // _iSubkeysWalker
  method ListSubkey(p: Processor, keys: seq<Name>, key: Name) returns (list: Option<seq<Name>>)
    ensures list == Process(p, keys, key)
  {
    match p
    case CountOnly => list := Some(keys);
    case Reserved => list := Some(keys + [key]);
    case _ =>
      var i := IndexOf(keys, key);
      if i < 0 {
        list := Some(keys + [key]);
      } else if p == StopOnDuplicate {
        list := None;
      } else {
        list := Some(keys);
      }
  }

  // What a walk has done: the key directories it reported, the name it gave for each, and the
  // list its processor keeps.
  datatype Report = Report(visits: seq<Path>, names: seq<Name>, keys: seq<Name>)

  // A key reported twice, or reported although the list has it already.
  ghost predicate Clash(t: Tree, dir: Path, part: Name, keys: seq<Name>) {
    || (exists p :: p in t && Slot(dir, p) && part + Spell(p, |dir|) in keys)
    || (exists p, q :: p in t && q in t && Slot(dir, p) && Slot(dir, q) && p != q && Spell(p, |dir|) == Spell(q, |dir|))
  }

  // The slots visited so far, with the name reported for each.
  ghost predicate Reports(t: Tree, dir: Path, part: Name, visits: seq<Path>, names: seq<Name>) {
    && |names| == |visits|
    && (forall i :: 0 <= i < |visits| ==> visits[i] in t && Slot(dir, visits[i])
                                          && names[i] == part + Spell(visits[i], |dir|))
    && (forall i, j :: 0 <= i < j < |visits| ==> visits[i] != visits[j])
  }

  ghost predicate Complete(t: Tree, dir: Path, visits: seq<Path>) {
    forall p :: p in t && Slot(dir, p) ==> p in visits
  }

  // Everything at or below dir: what a walk below dir can still meet.
  function Below(t: Tree, dir: Path): set<Path> {
    set p | p in t && dir <= p
  }

  lemma BelowShrinks(t: Tree, dir: Path, h: Name)
    requires dir in t
    ensures |Below(t, dir + [h])| < |Below(t, dir)|
  {
    var rest := Below(t, dir) - {dir};
    assert dir in Below(t, dir);
    forall p | p in Below(t, dir + [h]) ensures p in rest {
      assert dir <= dir + [h] <= p;
    }
    SubsetSize(Below(t, dir + [h]), rest);
  }

  // ---------- bookkeeping of the walk ----------

  lemma {:induction false} ProcessAllAppend(p: Processor, keys: seq<Name>, names: seq<Name>, more: seq<Name>)
    requires ProcessAll(p, keys, names).Some?
    ensures ProcessAll(p, keys, names + more) == ProcessAll(p, ProcessAll(p, keys, names).value, more)
    decreases |more|
  {
    if more == [] {
      assert names + more == names;
    } else {
      var init := more[..|more| - 1];
      ProcessAllAppend(p, keys, names, init);
      assert (names + more)[..|names + more| - 1] == names + init;
    }
  }

  lemma {:induction false} ProcessAllMembers(p: Processor, keys: seq<Name>, names: seq<Name>, x: Name)
    requires ProcessAll(p, keys, names).Some? && x in ProcessAll(p, keys, names).value
    ensures x in keys || x in names
    decreases |names|
  {
    if names != [] {
      var init := names[..|names| - 1];
      if x in ProcessAll(p, keys, init).value {
        ProcessAllMembers(p, keys, init, x);
      }
    }
  }

  // A slot is a key directory of dir, or a slot of one of its partitions.
  lemma SlotCases(dir: Path, p: Path)
    requires dir < p
    ensures Slot(dir, p) <==> if Hidden(p[|dir|]) then Slot(dir + [p[|dir|]], p) else p == dir + [p[|dir|]]
  {}

  lemma ReportOne(t: Tree, dir: Path, part: Name, visits: seq<Path>, names: seq<Name>, n: Name)
    requires Reports(t, dir, part, visits, names) && dir + [n] in t && !Hidden(n) && dir + [n] !in visits
    ensures Reports(t, dir, part, visits + [dir + [n]], names + [part + n])
  {}

  lemma ReportPartition(t: Tree, dir: Path, part: Name, visits: seq<Path>, names: seq<Name>,
                        h: Name, vs: seq<Path>, ns: seq<Name>)
    requires Reports(t, dir, part, visits, names) && Hidden(h) && Reports(t, dir + [h], part + h[1..], vs, ns)
    requires forall v :: v in visits ==> |v| > |dir| && v[|dir|] != h
    ensures Reports(t, dir, part, visits + vs, names + ns)
    ensures forall v :: v in vs ==> |v| > |dir| && v[|dir|] == h
  {
    hide Slot, Spell, Hidden;
    forall i | 0 <= i < |vs|
      ensures Slot(dir, vs[i]) && |vs[i]| > |dir| && vs[i][|dir|] == h && ns[i] == part + Spell(vs[i], |dir|)
    {
      ReportBelow(dir, part, h, vs[i]);
    }
    forall i, j | 0 <= i < |visits| && 0 <= j < |vs| ensures visits[i] != vs[j] {
      assert visits[i] in visits && vs[j] in vs;
    }
  }

  lemma ReportBelow(dir: Path, part: Name, h: Name, v: Path)
    requires Hidden(h) && Slot(dir + [h], v)
    ensures Slot(dir, v) && |v| > |dir| && v[|dir|] == h
    ensures part + h[1..] + Spell(v, |dir + [h]|) == part + Spell(v, |dir|)
  {}

  lemma ReportsSize(t: Tree, dir: Path, part: Name, visits: seq<Path>, names: seq<Name>, s: set<Path>)
    requires Reports(t, dir, part, visits, names) && forall v :: v in visits ==> v in s
    ensures |visits| <= |s|
    decreases |visits|
  {
    if visits != [] {
      var last := visits[|visits| - 1];
      var init := visits[..|visits| - 1];
      assert last in visits;
      forall v | v in init ensures v in s - {last} {
        assert v in visits;
      }
      assert Reports(t, dir, part, init, names[..|names| - 1]);
      ReportsSize(t, dir, part, init, names[..|names| - 1], s - {last});
    }
  }

  // The keys of one level and the keys of one partition are different directories.
  lemma LevelAndPartition(t: Tree, dir: Path, part: Name, visits: seq<Path>, names: seq<Name>, h: Name)
    requires Reports(t, dir, part, visits, names) && Hidden(h)
    requires forall v :: v in visits ==> |v| > |dir| && !Hidden(v[|dir|])
    ensures |visits| + |Slots(t, dir + [h])| <= |Slots(t, dir)|
  {
    var deeper := Slots(t, dir + [h]);
    forall p | p in deeper ensures p in Slots(t, dir) && p[|dir|] == h { SlotBelow(dir, h, p); }
    var rest := Slots(t, dir) - deeper;
    forall v | v in visits ensures v in rest {
      assert v in Slots(t, dir);
    }
    ReportsSize(t, dir, part, visits, names, rest);
    assert Slots(t, dir) == rest + deeper;
  }

  lemma EntriesSize(t: Tree, dir: Path, entries: seq<Name>)
    requires Listing(t, dir, entries)
    ensures |entries| <= |t|
  {
    NamesSize(t.Keys, dir, entries);
  }

  lemma NamesSize(s: set<Path>, dir: Path, entries: seq<Name>)
    requires forall n :: n in entries ==> dir + [n] in s
    requires forall i, j :: 0 <= i < j < |entries| ==> entries[i] != entries[j]
    ensures |entries| <= |s|
    decreases |entries|
  {
    if entries != [] {
      var last := entries[|entries| - 1];
      var init := entries[..|entries| - 1];
      assert last in entries;
      forall n | n in init ensures dir + [n] in s - {dir + [last]} {
        assert n in entries;
        assert (dir + [n])[|dir|] == n && (dir + [last])[|dir|] == last;
      }
      NamesSize(s - {dir + [last]}, dir, init);
    }
  }

  // A name already in the list at a directory not visited yet is a clash.
  lemma ClashFrom(t: Tree, dir: Path, part: Name, p: Processor, keys0: seq<Name>, visits: seq<Path>, names: seq<Name>,
                  keys: seq<Name>, q: Path)
    requires Reports(t, dir, part, visits, names) && ProcessAll(p, keys0, names) == Some(keys)
    requires q in t && Slot(dir, q) && q !in visits && part + Spell(q, |dir|) in keys
    ensures Clash(t, dir, part, keys0)
  {
    var x := part + Spell(q, |dir|);
    ProcessAllMembers(p, keys0, names, x);
    if x in names {
      var k :| 0 <= k < |names| && names[k] == x;
      var v := visits[k];
      assert v in visits;
      assert Spell(v, |dir|) == (part + Spell(v, |dir|))[|part|..] == x[|part|..] == Spell(q, |dir|);
    }
  }

  lemma ClashBelow(t: Tree, dir: Path, part: Name, p: Processor, keys0: seq<Name>, visits: seq<Path>, names: seq<Name>,
                   keys: seq<Name>, h: Name)
    requires Reports(t, dir, part, visits, names) && ProcessAll(p, keys0, names) == Some(keys)
    requires Hidden(h) && Clash(t, dir + [h], part + h[1..], keys)
    requires forall v :: v in visits ==> |v| > |dir| && v[|dir|] != h
    ensures Clash(t, dir, part, keys0)
  {
    hide Reports, ProcessAll, Slot, Spell;
    var d := dir + [h];
    if q :| q in t && Slot(d, q) && part + h[1..] + Spell(q, |d|) in keys {
      SlotBelow(dir, h, q);
      assert part + h[1..] + Spell(q, |d|) == part + (h[1..] + Spell(q, |d|));
      ClashFrom(t, dir, part, p, keys0, visits, names, keys, q);
    } else {
      var q, r :| q in t && r in t && Slot(d, q) && Slot(d, r) && q != r && Spell(q, |d|) == Spell(r, |d|);
      SlotBelow(dir, h, q);
      SlotBelow(dir, h, r);
    }
  }

  // ---------- the state of the two loops ----------

  ghost predicate Faithful(t: Tree, dir: Path, part: Name, p: Processor, keys0: seq<Name>, r: Report) {
    Reports(t, dir, part, r.visits, r.names) && ProcessAll(p, keys0, r.names) == Some(r.keys)
  }

  // After the entries `seen` of the level: their normal directories are reported.
  ghost predicate LevelSoFar(t: Tree, dir: Path, part: Name, p: Processor, keys0: seq<Name>, r: Report, seen: seq<Name>) {
    && Faithful(t, dir, part, p, keys0, r)
    && (forall n :: n in seen && !Hidden(n) ==> dir + [n] in r.visits)
    && (forall v :: v in r.visits ==> |v| > |dir| && !Hidden(v[|dir|]) && v[|dir|] in seen)
  }

  lemma LevelStart(t: Tree, dir: Path, part: Name, p: Processor, keys0: seq<Name>, entries: seq<Name>)
    ensures LevelSoFar(t, dir, part, p, keys0, Report([], [], keys0), entries[..0])
  {}

  // _SubkeyWalker on one entry; None is WALK_ITEM_ERROR.
  function ReportEntry(p: Processor, dir: Path, part: Name, r: Report, n: Name): Option<Report> {
    match Process(p, r.keys, part + n)
    case None => None
    case Some(keys) => Some(Report(r.visits + [dir + [n]], r.names + [part + n], keys))
  }

  method SubkeyWalker(p: Processor, dir: Path, part: Name, r: Report, n: Name) returns (added: Option<Report>)
    ensures added == ReportEntry(p, dir, part, r, n)
  {
    var keys := ListSubkey(p, r.keys, part + n);
    match keys
    case None => added := None;
    case Some(ks) => added := Some(Report(r.visits + [dir + [n]], r.names + [part + n], ks));
  }

  lemma LevelAdd(t: Tree, dir: Path, part: Name, p: Processor, keys0: seq<Name>, r: Report, entries: seq<Name>, i: nat)
    requires Listing(t, dir, entries) && i < |entries|
    requires LevelSoFar(t, dir, part, p, keys0, r, entries[..i])
    ensures Hidden(entries[i]) ==> LevelSoFar(t, dir, part, p, keys0, r, entries[..i + 1])
    ensures !Hidden(entries[i]) ==>
              match ReportEntry(p, dir, part, r, entries[i])
              case None => p == StopOnDuplicate && Clash(t, dir, part, keys0)
              case Some(r') => |r'.visits| == |r.visits| + 1 && LevelSoFar(t, dir, part, p, keys0, r', entries[..i + 1])
  {
    hide Faithful, Clash, Process;
    var n := entries[i];
    ListingNext(t, dir, entries, i);
    if !Hidden(n) {
      assert (dir + [n])[|dir|] == n;
      if Process(p, r.keys, part + n).None? {
        ClashHere(t, dir, part, p, keys0, r, n);
      } else {
        FaithfulOne(t, dir, part, p, keys0, r, n);
      }
    }
  }

  lemma FaithfulOne(t: Tree, dir: Path, part: Name, p: Processor, keys0: seq<Name>, r: Report, n: Name)
    requires Faithful(t, dir, part, p, keys0, r) && dir + [n] in t && !Hidden(n) && dir + [n] !in r.visits
    requires Process(p, r.keys, part + n).Some?
    ensures Faithful(t, dir, part, p, keys0, ReportEntry(p, dir, part, r, n).value)
  {
    hide Reports, ProcessAll;
    ReportOne(t, dir, part, r.visits, r.names, n);
    ProcessOne(p, keys0, r.names, r.keys, part + n);
  }

  lemma ClashHere(t: Tree, dir: Path, part: Name, p: Processor, keys0: seq<Name>, r: Report, n: Name)
    requires Faithful(t, dir, part, p, keys0, r) && dir + [n] in t && !Hidden(n) && dir + [n] !in r.visits
    requires Process(p, r.keys, part + n).None?
    ensures p == StopOnDuplicate && Clash(t, dir, part, keys0)
  {
    SlotCases(dir, dir + [n]);
    ClashFrom(t, dir, part, p, keys0, r.visits, r.names, r.keys, dir + [n]);
  }

  lemma ProcessOne(p: Processor, keys0: seq<Name>, names: seq<Name>, keys: seq<Name>, name: Name)
    requires ProcessAll(p, keys0, names) == Some(keys)
    ensures ProcessAll(p, keys0, names + [name]) == Process(p, keys, name)
  {}

  // After the partitions among `seen`: the level and everything below them is reported.
  ghost predicate PartsSoFar(t: Tree, dir: Path, part: Name, p: Processor, keys0: seq<Name>, r: Report, seen: seq<Name>) {
    && Faithful(t, dir, part, p, keys0, r)
    && (forall n :: dir + [n] in t && !Hidden(n) ==> dir + [n] in r.visits)
    && (forall h :: h in seen && Hidden(h) ==> Complete(t, dir + [h], r.visits))
    && (forall v :: v in r.visits ==> |v| > |dir| && (!Hidden(v[|dir|]) || v[|dir|] in seen))
  }

  lemma LevelDone(t: Tree, dir: Path, part: Name, p: Processor, keys0: seq<Name>, r: Report, entries: seq<Name>, i: nat)
    requires i == |entries| && LevelSoFar(t, dir, part, p, keys0, r, entries[..i]) && Listing(t, dir, entries)
    ensures PartsSoFar(t, dir, part, p, keys0, r, [])
  {}

  lemma PartsSkip(t: Tree, dir: Path, part: Name, p: Processor, keys0: seq<Name>, r: Report, parts: seq<Name>, i: nat)
    requires i < |parts| && !Hidden(parts[i]) && PartsSoFar(t, dir, part, p, keys0, r, parts[..i])
    ensures PartsSoFar(t, dir, part, p, keys0, r, parts[..i + 1])
  {}

  // The report of a partition, added to what was reported before it.
  function Merge(r: Report, below: Report): Report {
    Report(r.visits + below.visits, r.names + below.names, below.keys)
  }

  lemma PartsAdd(t: Tree, dir: Path, part: Name, p: Processor, keys0: seq<Name>, r: Report, parts: seq<Name>, i: nat,
                 below: Report)
    requires i < |parts| && Listing(t, dir, parts) && PartsSoFar(t, dir, part, p, keys0, r, parts[..i])
    requires var h := parts[i];
             Hidden(h) && Faithful(t, dir + [h], part + h[1..], p, r.keys, below) && Complete(t, dir + [h], below.visits)
    ensures PartsSoFar(t, dir, part, p, keys0, Merge(r, below), parts[..i + 1])
  {
    hide Reports, ProcessAll, Slot, Hidden, Complete, Merge;
    var h := parts[i];
    ListingNext(t, dir, parts, i);
    ReportPartition(t, dir, part, r.visits, r.names, h, below.visits, below.names);
    ProcessAllAppend(p, keys0, r.names, below.names);
    assert Merge(r, below) == Report(r.visits + below.visits, r.names + below.names, below.keys) by { MergeIs(r, below); }
    forall k | k in parts[..i + 1] && Hidden(k) ensures Complete(t, dir + [k], r.visits + below.visits) {
      MoreComplete(t, dir + [k], r.visits, below.visits);
    }
  }

  lemma MergeIs(r: Report, below: Report)
    ensures Merge(r, below) == Report(r.visits + below.visits, r.names + below.names, below.keys)
  {}

  lemma MoreComplete(t: Tree, dir: Path, visits: seq<Path>, vs: seq<Path>)
    requires Complete(t, dir, visits) || Complete(t, dir, vs)
    ensures Complete(t, dir, visits + vs)
  {}

  lemma PartsClash(t: Tree, dir: Path, part: Name, p: Processor, keys0: seq<Name>, r: Report, parts: seq<Name>, i: nat)
    requires i < |parts| && Listing(t, dir, parts) && PartsSoFar(t, dir, part, p, keys0, r, parts[..i])
    requires Hidden(parts[i]) && Clash(t, dir + [parts[i]], part + parts[i][1..], r.keys)
    ensures Clash(t, dir, part, keys0)
  {
    ListingNext(t, dir, parts, i);
    ClashBelow(t, dir, part, p, keys0, r.visits, r.names, r.keys, parts[i]);
  }

  lemma PartsDone(t: Tree, dir: Path, part: Name, p: Processor, keys0: seq<Name>, r: Report, parts: seq<Name>, i: nat)
    requires Closed(t) && i == |parts| && PartsSoFar(t, dir, part, p, keys0, r, parts[..i]) && Listing(t, dir, parts)
    ensures Faithful(t, dir, part, p, keys0, r) && Complete(t, dir, r.visits)
  {
    assert parts[..i] == parts;
    forall q | q in t && Slot(dir, q) ensures q in r.visits {
      SlotCases(dir, q);
      var h := q[|dir|];
      assert q[..|dir| + 1] == dir + [h];
      assert h in parts;
    }
  }

  // ---------- the size_t bound ----------

  // `left` is what remains of 0 after `used` keys were subtracted from it.
  ghost predicate Unlimited(t: Tree, dir: Path, left: nat, used: nat) {
    |t| < SIZE_T / 2 && used + |Slots(t, dir)| <= |t| && left == SizeT(0 - used)
  }

  lemma SlotsBound(t: Tree, dir: Path, part: Name, visits: seq<Path>, names: seq<Name>)
    requires Reports(t, dir, part, visits, names)
    ensures |visits| <= |Slots(t, dir)| <= |t|
  {
    forall v | v in visits ensures v in Slots(t, dir) {}
    ReportsSize(t, dir, part, visits, names, Slots(t, dir));
    SubsetSize(Slots(t, dir), t.Keys);
  }

  // The same for each partition of dir.
  ghost predicate UnlimitedInside(t: Tree, dir: Path, left: nat, used: nat) {
    forall h :: Hidden(h) ==> Unlimited(t, dir + [h], left, used)
  }

  lemma UnlimitedBelow(t: Tree, dir: Path, leftCount: nat, used: nat, part: Name, p: Processor, keys0: seq<Name>,
                       r: Report, result: int, left: nat)
    requires Unlimited(t, dir, leftCount, used) && PartsSoFar(t, dir, part, p, keys0, r, [])
    requires result == |r.visits| && left == SizeT(leftCount - result)
    ensures UnlimitedInside(t, dir, left, used + result)
  {
    WrapsOn(leftCount, used, result);
    forall h | Hidden(h) ensures Unlimited(t, dir + [h], left, used + result) {
      LevelAndPartition(t, dir, part, r.visits, r.names, h);
    }
  }

  lemma UnlimitedPartition(t: Tree, dir: Path, left: nat, used: nat, h: Name)
    requires UnlimitedInside(t, dir, left, used)
    ensures Hidden(h) ==> Unlimited(t, dir + [h], left, used)
  {}

  // No count of directories reaches what is left.
  lemma NeverReached(t: Tree, dir: Path, left: nat, used: nat, n: nat)
    requires Unlimited(t, dir, left, used) && n <= |t|
    ensures left == 0 || n < left
  {}

  lemma LevelRoom(t: Tree, dir: Path, part: Name, p: Processor, keys0: seq<Name>, r: Report, seen: seq<Name>,
                  leftCount: nat, used: nat)
    requires LevelSoFar(t, dir, part, p, keys0, r, seen) && Unlimited(t, dir, leftCount, used)
    ensures leftCount == 0 || |r.visits| < leftCount
  {
    SlotsBound(t, dir, part, r.visits, r.names);
    NeverReached(t, dir, leftCount, used, |r.visits|);
  }

  lemma PartsRoom(t: Tree, dir: Path, h: Name, parts: seq<Name>, left: nat, used: nat, n: nat)
    requires Unlimited(t, dir + [h], left, used) && Listing(t, dir, parts) && n <= |parts|
    ensures left == 0 || n < left
  {
    EntriesSize(t, dir, parts);
    NeverReached(t, dir + [h], left, used, n);
  }

  // ---------- the walk ----------

  // WalkDir over the normal directories, with _SubkeyWalker: the first half of _iSubkeyWalk.
  method LevelWalk(t: Tree, dir: Path, part: Name, leftCount: nat, p: Processor, keys0: seq<Name>, ghost used: nat)
    returns (vTotal: int, r: Report)
    requires Unlimited(t, dir, leftCount, used)
    ensures vTotal >= 0 ==> vTotal == |r.visits| && PartsSoFar(t, dir, part, p, keys0, r, [])
                            && (leftCount <= 0 || vTotal < leftCount)
    ensures vTotal < 0 ==> vTotal == -1 && p == StopOnDuplicate && Clash(t, dir, part, keys0)
  {
    hide *;
    r := Report([], [], keys0);
    var entries := ReadDir(t, dir);
    vTotal := 0;
    LevelStart(t, dir, part, p, keys0, entries);
    LevelRoom(t, dir, part, p, keys0, r, entries[..0], leftCount, used);
    var i, enough := 0, false;
    while i < |entries| && !enough
      invariant 0 <= i <= |entries| && vTotal == |r.visits| && !enough
      invariant LevelSoFar(t, dir, part, p, keys0, r, entries[..i])
      invariant leftCount <= 0 || vTotal < leftCount
      decreases |entries| - i
    {
      LevelAdd(t, dir, part, p, keys0, r, entries, i);
      if !Hidden(entries[i]) {
        var added := SubkeyWalker(p, dir, part, r, entries[i]);
        if added.None? { return -1, r; }
        r := added.value;
        vTotal := vTotal + 1;
        LevelRoom(t, dir, part, p, keys0, r, entries[..i + 1], leftCount, used);
        enough := leftCount > 0 && vTotal >= leftCount;
      }
      i := i + 1;
    }
    LevelDone(t, dir, part, p, keys0, r, entries, i);
  }

  // WALK_ITEM_OK, WALK_ITEM_STOP, WALK_ITEM_ERROR
  datatype WalkStatus = Ok | Stop | Error

  // _SubkeyPartitionWalker: the walk of one partition of dir, added to the report. In the
  // unlimited walk it never stops the loop that calls it.
  method PartitionWalk(t: Tree, dir: Path, part: Name, left: nat, p: Processor, ghost keys0: seq<Name>,
                       r0: Report, parts: seq<Name>, i: nat, ghost used: nat)
    returns (status: WalkStatus, vCount: int, r: Report)
    requires Closed(t) && dir in t && Listing(t, dir, parts)
    requires i < |parts| && Hidden(parts[i]) && PartsSoFar(t, dir, part, p, keys0, r0, parts[..i])
    requires Unlimited(t, dir + [parts[i]], left, used)
    ensures status != Stop
    ensures status == Ok ==> vCount >= 0 && |r.visits| == |r0.visits| + vCount
                             && PartsSoFar(t, dir, part, p, keys0, r, parts[..i + 1])
    ensures status == Error ==> p == StopOnDuplicate && Clash(t, dir, part, keys0)
    decreases |Below(t, dir)|, 0
  {
    hide *;
    EntryExists(t, dir, parts, i);
    var h := parts[i];
    var subkeyPart := part + h[1..];
    BelowShrinks(t, dir, h);
    var below;
    vCount, below := SubkeyWalk(t, dir + [h], subkeyPart, left, p, r0.keys, used);
    if vCount < 0 {
      PartsClash(t, dir, part, p, keys0, r0, parts, i);
      return Error, vCount, r0;
    }
    PartsAdd(t, dir, part, p, keys0, r0, parts, i, below);
    r := Merge(r0, below);
    MergeSize(r0, below);
    FaithfulRoom(t, dir + [h], subkeyPart, p, r0.keys, below, left, used);
    status := if vCount > 0 && left > 0 && vCount >= left then Stop else Ok;
  }

  lemma EntryExists(t: Tree, dir: Path, parts: seq<Name>, i: nat)
    requires Listing(t, dir, parts) && i < |parts| && Hidden(parts[i])
    ensures dir + [parts[i]] in t && parts[i] != []
  {}

  lemma MergeSize(r: Report, below: Report)
    ensures |Merge(r, below).visits| == |r.visits| + |below.visits|
  {}

  lemma FaithfulRoom(t: Tree, dir: Path, part: Name, p: Processor, keys0: seq<Name>, r: Report, left: nat, used: nat)
    requires Faithful(t, dir, part, p, keys0, r) && Unlimited(t, dir, left, used)
    ensures left == 0 || |r.visits| < left
  {
    SlotsBound(t, dir, part, r.visits, r.names);
    NeverReached(t, dir, left, used, |r.visits|);
  }

  // _iSubkeyWalk. leftCount is a size_t: the unlimited walk starts with 0 and wraps below zero as
  // soon as keys are counted; `used` is the number counted on the way down. The walk needs the
  // file system to hold fewer than 2^63 directories, which is what its ssize_t result can count.
  method SubkeyWalk(t: Tree, dir: Path, part: Name, leftCount: nat, p: Processor, keys0: seq<Name>, ghost used: nat)
    returns (result: int, r: Report)
    requires Closed(t) && Unlimited(t, dir, leftCount, used)
    ensures result >= 0 ==> dir in t && result == |r.visits|
                            && Faithful(t, dir, part, p, keys0, r) && Complete(t, dir, r.visits)
    ensures result < 0 ==> result == -1
                           && (dir !in t || (p == StopOnDuplicate && Clash(t, dir, part, keys0)))
    decreases |Below(t, dir)|, 1
  {
    hide *;
    if dir !in t { return -1, Report([], [], keys0); }
    result, r := LevelWalk(t, dir, part, leftCount, p, keys0, used);
    if result >= 0 && (leftCount <= 0 || result < leftCount) {
      var left := SizeT(leftCount - result);
      ghost var usedNow := used + result;
      UnlimitedBelow(t, dir, leftCount, used, part, p, keys0, r, result, left);
      // WalkDir over the hidden directories, with _SubkeyPartitionWalker
      var parts := ReadDir(t, dir);
      TakeNone(parts);
      var vTotal := 0;
      var i, enough := 0, false;
      while i < |parts| && !enough
        invariant 0 <= vTotal <= i <= |parts| && result == |r.visits| && !enough
        invariant PartsSoFar(t, dir, part, p, keys0, r, parts[..i])
        decreases |parts| - i
      {
        UnlimitedPartition(t, dir, left, usedNow, parts[i]);
        if Hidden(parts[i]) {
          var status, vCount;
          status, vCount, r := PartitionWalk(t, dir, part, left, p, keys0, r, parts, i, usedNow);
          if status == Error { return -1, r; }
          result := result + vCount;
          vTotal := vTotal + 1;
          PartsRoom(t, dir, parts[i], parts, left, usedNow, vTotal);
          enough := (left > 0 && vTotal >= left) || status == Stop;
        } else {
          PartsSkip(t, dir, part, p, keys0, r, parts, i);
        }
        i := i + 1;
      }
      PartsDone(t, dir, part, p, keys0, r, parts, i);
    }
  }

  lemma TakeNone(s: seq<Name>)
    ensures s[..0] == []
  {}

  // ---------- iSubkeyTotal and iSubkeys ----------

  // The keys stored in a directory and its partitions.
  function KeySet(t: Tree, dir: Path): set<Name> { Spelled(Slots(t, dir), |dir|) }

  function Spelled(s: set<Path>, i: nat): set<Name> { set p | p in s :: Spell(p, i) }

  ghost predicate Distinct<T>(s: seq<T>) {
    forall i, j :: 0 <= i < j < |s| ==> s[i] != s[j]
  }

  lemma {:induction false} ProcessAllFromNothing(p: Processor, names: seq<Name>)
    ensures p == Reserved ==> ProcessAll(p, [], names) == Some(names)
    ensures p == IgnoreDuplicates ==>
              match ProcessAll(p, [], names)
              case None => false
              case Some(keys) => Distinct(keys) && forall k :: k in keys <==> k in names
    ensures p == StopOnDuplicate && ProcessAll(p, [], names).Some? ==>
              ProcessAll(p, [], names) == Some(names) && Distinct(names)
    decreases |names|
  {
    if names != [] {
      hide Distinct;
      var init, last := names[..|names| - 1], names[|names| - 1];
      ProcessAllFromNothing(p, init);
      assert names == init + [last];
      if ProcessAll(p, [], init).Some? {
        DistinctAppend(ProcessAll(p, [], init).value, last);
      }
    }
  }

  lemma DistinctAppend(keys: seq<Name>, key: Name)
    ensures Distinct(keys + [key]) <==> Distinct(keys) && key !in keys
    ensures forall k :: k in keys + [key] <==> k in keys || k == key
  {
    var more := keys + [key];
    assert forall i :: 0 <= i < |keys| ==> more[i] == keys[i];
    assert more[|keys|] == key;
  }

  lemma DistinctNames(t: Tree, dir: Path, r: Report)
    requires Reports(t, dir, [], r.visits, r.names) && Complete(t, dir, r.visits) && Distinct(r.names)
    ensures Unique(t, dir)
  {}

  lemma ReportedNames(t: Tree, dir: Path, r: Report, k: Name)
    requires Reports(t, dir, [], r.visits, r.names) && Complete(t, dir, r.visits)
    ensures k in r.names <==> k in KeySet(t, dir)
  {
    hide Slot, Spell;
    if i :| 0 <= i < |r.names| && r.names[i] == k {
      assert r.visits[i] in Slots(t, dir) && k == [] + Spell(r.visits[i], |dir|);
    }
    if p :| p in Slots(t, dir) && Spell(p, |dir|) == k {
      var i :| 0 <= i < |r.visits| && r.visits[i] == p;
      assert r.names[i] == [] + Spell(p, |dir|);
    }
  }

  lemma ReportedCount(t: Tree, dir: Path, r: Report)
    requires Reports(t, dir, [], r.visits, r.names) && Complete(t, dir, r.visits)
    ensures |r.visits| == |Slots(t, dir)|
  {
    SlotsBound(t, dir, [], r.visits, r.names);
    CoveringSize(Slots(t, dir), r.visits);
  }

  lemma CoveringSize(s: set<Path>, visits: seq<Path>)
    requires forall p :: p in s ==> p in visits
    ensures |s| <= |visits|
    decreases |visits|
  {
    if visits != [] {
      var init, last := visits[..|visits| - 1], visits[|visits| - 1];
      assert visits == init + [last];
      CoveringSize(s - {last}, init);
    }
  }

  // iSubkeyTotal: the number of key directories of dir and its partitions, -1 for a directory
  // that does not exist.
  method SubkeyTotal(store: Store, dir: Path) returns (result: int)
    requires Closed(store.dirs) && |store.dirs| < SIZE_T / 2
    ensures result == if dir in store.dirs then |Slots(store.dirs, dir)| else -1
  {
    var r;
    assert Unlimited(store.dirs, dir, 0, 0) by { SubsetSize(Slots(store.dirs, dir), store.dirs.Keys); }
    result, r := SubkeyWalk(store.dirs, dir, [], 0, CountOnly, [], 0);
    if result >= 0 {
      ReportedCount(store.dirs, dir, r);
    }
  }

  // iSubkeys: the list of keys; None stands for a failed walk.
  method Subkeys(store: Store, dir: Path, p: Processor) returns (list: Option<seq<Name>>)
    requires Closed(store.dirs) && |store.dirs| < SIZE_T / 2 && p != CountOnly
    ensures list.None? <==> dir !in store.dirs || (p == StopOnDuplicate && !Unique(store.dirs, dir))
    ensures list.Some? ==> forall k :: k in list.value <==> k in KeySet(store.dirs, dir)
    ensures list.Some? && p != Reserved ==> Distinct(list.value)
    ensures list.Some? && p == Reserved ==> |list.value| == |Slots(store.dirs, dir)|
  {
    ghost var t := store.dirs;
    assert Unlimited(t, dir, 0, 0) by { SubsetSize(Slots(t, dir), t.Keys); }
    var result, r := SubkeyWalk(store.dirs, dir, [], 0, p, [], 0);
    if result < 0 {
      return None;
    }
    ProcessAllFromNothing(p, r.names);
    if p == StopOnDuplicate { DistinctNames(t, dir, r); }
    forall k ensures k in r.names <==> k in KeySet(t, dir) { ReportedNames(t, dir, r, k); }
    ReportedCount(t, dir, r);
    return Some(r.keys);
  }

  // When every key lives in one directory, the number of directories is the number of keys.
  lemma UniqueCount(t: Tree, dir: Path)
    requires Unique(t, dir)
    ensures |KeySet(t, dir)| == |Slots(t, dir)|
  {
    SpelledSize(Slots(t, dir), |dir|);
  }

  lemma SpelledSize(s: set<Path>, i: nat)
    requires forall p, p' :: p in s && p' in s && Spell(p, i) == Spell(p', i) ==> p == p'
    ensures |Spelled(s, i)| == |s|
  {
    hide Spell;
    if s != {} {
      var p :| p in s;
      SpelledSize(s - {p}, i);
      assert Spelled(s, i) == Spelled(s - {p}, i) + {Spell(p, i)};
      assert Spell(p, i) !in Spelled(s - {p}, i);
    }
  }

  // ---------- the keys of a run ----------

  // The keys put and not refused in a run.
  function KeysPut(ops: seq<Op>, answers: seq<Answer>): set<Name> {
    set i | 0 <= i < |ops| && i < |answers| && ops[i].PutOp? && answers[i] == Status(0) :: ops[i].key
  }

  lemma StepKeys(t: Tree, dir: Path, max: int, policy: FullPolicy, op: Op)
    requires Inv(t, dir, max) && ValidOp(op)
    ensures var (t', answer) := Step(t, dir, max, policy, op);
            KeySet(t', dir) == KeySet(t, dir) + if op.PutOp? && answer == Status(0) then {op.key} else {}
  {
    match op
    case PutOp(k, a, v) =>
      if Place(t, dir, k, max, policy).Refused? {
        PlaceRefusal(t, dir, k, max, policy);
      } else {
        PlaceShape(t, dir, k, max, policy);
        PutSlots(t, dir, Place(t, dir, k, max, policy).path, a, v);
      }
    case GetOp(k, a) =>
    case DeleteOp(k, a) => SameSlots(t, Delete(t, dir, k, a, max).0, dir);
    case ExistsOp(k, a) =>
  }

  lemma SameSlots(t: Tree, t': Tree, dir: Path)
    requires t'.Keys == t.Keys
    ensures KeySet(t', dir) == KeySet(t, dir)
  {}

  lemma PutSlots(t: Tree, dir: Path, q: Path, attr: Name, value: Value)
    requires Slot(dir, q)
    ensures KeySet(PutAt(t, q, attr, value), dir) == KeySet(t, dir) + {Spell(q, |dir|)}
  {
    hide Slot, Spell, PutAt, Attr;
    var t' := PutAt(t, q, attr, value);
    PutAtEffect(t, q, attr, value);
    forall p ensures p in Slots(t', dir) <==> p in Slots(t, dir) + {q} {
      if p in t' && Slot(dir, p) { NewSlots(t, t', dir, q, p); }
    }
    assert Slots(t', dir) == Slots(t, dir) + {q};
  }

  // After a run that starts from an empty store, the stored keys are exactly the keys put: the
  // list of iSubkeys has each of them once and iSubkeyTotal is their number.
  lemma {:induction false} RunKeys(t: Tree, dir: Path, max: int, policy: FullPolicy, ops: seq<Op>)
    requires Inv(t, dir, max) && forall i :: 0 <= i < |ops| ==> ValidOp(ops[i])
    ensures var (t', answers) := Run(t, dir, max, policy, ops);
            KeySet(t', dir) == KeySet(t, dir) + KeysPut(ops, answers) && |KeySet(t', dir)| == |Slots(t', dir)|
    decreases |ops|
  {
    hide Inv, KeyName, Step, MapStep, Contents, KeySet, KeysPut, Slots, Run, ValidOp;
    InvUnique(t, dir, max);
    if ops == [] {
      UniqueCount(t, dir);
      NothingPut();
      RunNothing(t, dir, max, policy);
    } else {
      OpHasKey(ops[0]);
      RunFirst(t, dir, max, policy, ops);
      var (t1, answer) := Step(t, dir, max, policy, ops[0]);
      StepRefines(t, dir, max, policy, ops[0]);
      StepKeys(t, dir, max, policy, ops[0]);
      RunKeys(t1, dir, max, policy, ops[1..]);
      FirstPut(ops, answer, Run(t1, dir, max, policy, ops[1..]).1);
    }
  }

  lemma RunNothing(t: Tree, dir: Path, max: int, policy: FullPolicy)
    ensures Run(t, dir, max, policy, []) == (t, [])
  {}

  lemma RunFirst(t: Tree, dir: Path, max: int, policy: FullPolicy, ops: seq<Op>)
    requires ops != [] && ops[0].key != [] && forall i :: 0 <= i < |ops| ==> ValidOp(ops[i])
    ensures var (t1, answer) := Step(t, dir, max, policy, ops[0]);
            var (t', answers) := Run(t1, dir, max, policy, ops[1..]);
            Run(t, dir, max, policy, ops) == (t', [answer] + answers)
  {}

  lemma InvUnique(t: Tree, dir: Path, max: int)
    requires Inv(t, dir, max)
    ensures Unique(t, dir)
  {}

  lemma NothingPut()
    ensures KeysPut([], []) == {}
  {}

  lemma OpHasKey(op: Op)
    requires ValidOp(op)
    ensures op.key != []
  {}

  lemma FirstPut(ops: seq<Op>, answer: Answer, answers: seq<Answer>)
    requires ops != []
    ensures KeysPut(ops, [answer] + answers)
            == (if ops[0].PutOp? && answer == Status(0) then {ops[0].key} else {}) + KeysPut(ops[1..], answers)
  {}
}
