/**
 Concrete stores, reached by runs from an empty one, on which the store of src/idb_helpers.c does
 what the theorems of Runs.dfy and AnyTree.dfy except.
 */
module Samples {
  import opened Bytes
  import opened Utf8
  import opened PartitionTree
  import opened AnyTree
  import opened Refinement
  import opened Capacity
  import opened Runs

  // ---------- a run in which an attribute is lost ----------

  const ROOT: Path := []
  const X: Name := [120]
  const A: Name := [65]
  const B: Name := [66]
  const AQ: Name := [97, 113]
  const ABC: Name := [97, 98, 99]
  const DOT_A: Name := [46, 97]
  const DOT_B: Name := [46, 98]

  const EMPTY: Tree := map[[] := map[]]

  // With limit 1, "x" fills the top level, "aq" fills .a, and "abc" goes to .a/.b/c.
  const PUTS: seq<Op> := [PutOp(X, A, [1]), PutOp(AQ, A, [1]), PutOp(ABC, A, [1])]

  const FIRST: Tree := map[[] := map[], [X] := map[A := [1]]]

  const SECOND: Tree := map[
    [] := map[],
    [X] := map[A := [1]],
    [DOT_A] := map[],
    [DOT_A, [113]] := map[A := [1]]
  ]

  const SAMPLE: Tree := map[
    [] := map[],
    [X] := map[A := [1]],
    [DOT_A] := map[],
    [DOT_A, [113]] := map[A := [1]],
    [DOT_A, DOT_B] := map[],
    [DOT_A, DOT_B, [99]] := map[A := [1]]
  ]

  // The same without .a/q.
  const REDUCED: Tree := map[
    [] := map[],
    [X] := map[A := [1]],
    [DOT_A] := map[],
    [DOT_A, DOT_B] := map[],
    [DOT_A, DOT_B, [99]] := map[A := [1]]
  ]

  lemma SampleNames()
    ensures CharLen(ABC) == 1 && Part(ABC) == DOT_A && Tail(ABC) == [98, 99]
    ensures CharLen(AQ) == 1 && Part(AQ) == DOT_A && Tail(AQ) == [113]
    ensures CharLen([98, 99]) == 1 && Part([98, 99]) == DOT_B && Tail([98, 99]) == [99]
    ensures forall x: Name :: ROOT + [x] == [x]
    ensures forall x: Name, y: Name :: [x] + [y] == [x, y]
    ensures forall x: Name, y: Name, z: Name :: [x, y] + [z] == [x, y, z]
  {}

  // "abc" is read from .a/.b/c as long as neither "abc" nor .a/bc exists.
  lemma SampleFind(t: Tree)
    requires [DOT_A] in t && [DOT_A, [98, 99]] !in t && [DOT_A, DOT_B] in t && [DOT_A, DOT_B, [99]] in t
    ensures Find(t, [], ABC) == Some([DOT_A, DOT_B, [99]])
  {
    SampleNames();
    assert Find(t, [DOT_A], [98, 99]) == Some([DOT_A, DOT_B, [99]]);
  }

  lemma SampleDelete()
    ensures KeyDelete(SAMPLE, [], AQ, 1) == REDUCED
  {
    SampleNames();
    var gone: Path := [DOT_A, [113]];
    assert Locate(SAMPLE, [], AQ, 1) == Some(gone);
    SampleRemoved();
  }

  lemma RemoveIs(t: Tree, d: Path, t': Tree)
    requires forall p :: p in t' <==> p in t && !(d <= p)
    requires forall p :: p in t' ==> t'[p] == t[p]
    ensures RemoveDir(t, d) == t'
  {}

  lemma SampleRemoved()
    ensures RemoveDir(SAMPLE, [DOT_A, [113]]) == REDUCED
  {
    hide RemoveDir;
    var gone: Path := [DOT_A, [113]];
    SamplePaths();
    RemoveIs(SAMPLE, gone, REDUCED);
  }

  // Which directories of the sample lie below which.
  lemma SamplePaths()
    ensures var d: Path, gone: Path, x: Path := [DOT_A], [DOT_A, [113]], [X];
            && !(d <= []) && !(d <= x) && d <= d && d <= gone && d <= [DOT_A, DOT_B] && d <= [DOT_A, DOT_B, [99]]
            && !(gone <= []) && !(gone <= x) && !(gone <= d) && gone <= gone
            && !(gone <= [DOT_A, DOT_B]) && !(gone <= [DOT_A, DOT_B, [99]])
  {
    var d: Path, gone: Path, x: Path := [DOT_A], [DOT_A, [113]], [X];
    var q: Path, r: Path := [DOT_A, DOT_B], [DOT_A, DOT_B, [99]];
    assert d[0] != x[0] && gone[1] != q[1] && gone[1] != r[1];
    assert q[..1] == d && r[..1] == d && gone[..1] == d;
  }

  lemma OneChildIsFull(t: Tree, d: Path, n: Name)
    requires d in t && d + [n] in t && !Hidden(n)
    ensures Full(t, d, 1)
  {
    var p := d + [n];
    assert p[|d|] == n && d < p;
    assert n in Children(t, d);
  }

  lemma NoChildIsRoom(t: Tree, d: Path)
    requires forall p :: p in t && |p| == |d| + 1 && d < p ==> Hidden(p[|d|])
    ensures !Full(t, d, 1)
  {
    assert Children(t, d) == {};
  }

  lemma {:induction false} AsciiIsValid(s: seq<byte>)
    requires forall i :: 0 <= i < |s| ==> 0 < s[i] < 0x80
    ensures ValidUtf8(s)
  {
    if s != [] { AsciiIsValid(s[CharLen(s)..]); }
  }

  lemma SampleOps()
    ensures forall i :: 0 <= i < |PUTS| ==> ValidOp(PUTS[i])
  {
    hide ValidUtf8;
    AsciiIsValid(X);
    AsciiIsValid(AQ);
    AsciiIsValid(ABC);
  }

  // A put into a new directory, and what it makes of the tree.
  lemma PutAtIs(t: Tree, p: Path, attr: Name, value: Value, t': Tree)
    requires p !in t && t' == t + (map q | q in Prefixes(p) - t.Keys :: if q == p then map[attr := value] else map[])
    ensures PutAt(t, p, attr, value) == t'
  {
    PrefixesExactly(p, p);
    var m: Attrs := map[];
    assert m[attr := value] == map[attr := value];
  }

  lemma PathsAbove(x: Name, y: Name, z: Name)
    ensures Prefixes([x]) == {[], [x]}
    ensures Prefixes([x, y]) == {[], [x], [x, y]}
    ensures Prefixes([x, y, z]) == {[], [x], [x, y], [x, y, z]}
  {
    var p: Path, q: Path, r: Path := [x], [x, y], [x, y, z];
    assert p[..0] == [] && p[..1] == p;
    assert q[..0] == [] && q[..1] == [x] && q[..2] == q;
    assert r[..0] == [] && r[..1] == [x] && r[..2] == q && r[..3] == r;
  }

  lemma PutFirst()
    ensures Put(EMPTY, [], X, A, [1], 1, Stopped) == (FIRST, 0)
  {
    NoChildIsRoom(EMPTY, ROOT);
    hide Full, PutAt, Prefixes;
    assert ROOT + [X] == [X];
    PathsAbove(X, X, X);
    PutAtIs(EMPTY, [X], A, [1], FIRST);
  }

  lemma SecondPlace()
    ensures Place(FIRST, [], AQ, 1, Stopped) == At([DOT_A, [113]])
  {
    hide Full, CharLen;
    SampleNames();
    OneChildIsFull(FIRST, ROOT, X);
    NoChildIsRoom(FIRST, [DOT_A]);
    assert Place(FIRST, [DOT_A], [113], 1, Stopped) == At([DOT_A, [113]]);
  }

  lemma PutSecond()
    ensures Put(FIRST, [], AQ, A, [1], 1, Stopped) == (SECOND, 0)
  {
    hide Place, PutAt, Prefixes;
    SecondPlace();
    PathsAbove(DOT_A, [113], X);
    PutAtIs(FIRST, [DOT_A, [113]], A, [1], SECOND);
  }

  lemma ThirdPlace()
    ensures Place(SECOND, [], ABC, 1, Stopped) == At([DOT_A, DOT_B, [99]])
  {
    hide Full, CharLen;
    SampleNames();
    OneChildIsFull(SECOND, ROOT, X);
    OneChildIsFull(SECOND, [DOT_A], [113]);
    NoChildIsRoom(SECOND, [DOT_A, DOT_B]);
    assert Place(SECOND, [DOT_A, DOT_B], [99], 1, Stopped) == At([DOT_A, DOT_B, [99]]);
    assert Place(SECOND, [DOT_A], [98, 99], 1, Stopped) == At([DOT_A, DOT_B, [99]]);
  }

  lemma PutThird()
    ensures Put(SECOND, [], ABC, A, [1], 1, Stopped) == (SAMPLE, 0)
  {
    hide Place, PutAt, Prefixes;
    ThirdPlace();
    var q: Path, r: Path, s: Path := [DOT_A, DOT_B], [DOT_A, DOT_B, [99]], [DOT_A, [113]];
    assert q[1] != s[1] && q !in SECOND && r !in SECOND;
    PathsAbove(DOT_A, DOT_B, [99]);
    PutAtIs(SECOND, [DOT_A, DOT_B, [99]], A, [1], SAMPLE);
  }

  // The sample store comes about by three puts into an empty one.
  lemma SampleIsReached()
    ensures (forall i :: 0 <= i < |PUTS| ==> ValidOp(PUTS[i])) && Run(EMPTY, [], 1, Stopped, PUTS).0 == SAMPLE
    ensures Inv(SAMPLE, [], 1)
  {
    hide Put, Inv, ValidOp, Run, EMPTY, FIRST, SECOND, SAMPLE;
    SampleOps();
    PutFirst();
    PutSecond();
    PutThird();
    RunPut(EMPTY, FIRST, PUTS);
    RunPut(FIRST, SECOND, PUTS[1..]);
    RunPut(SECOND, SAMPLE, PUTS[1..][1..]);
    EmptyIsFresh();
    RunRefines(EMPTY, [], 1, Stopped, PUTS);
  }

  lemma RunPut(t: Tree, t1: Tree, ops: seq<Op>)
    requires ops != [] && ops[0].PutOp? && forall i :: 0 <= i < |ops| ==> ValidOp(ops[i])
    requires ops[0].key != [] && Put(t, [], ops[0].key, ops[0].attr, ops[0].value, 1, Stopped).0 == t1
    ensures Run(t, [], 1, Stopped, ops).0 == if |ops| == 1 then t1 else Run(t1, [], 1, Stopped, ops[1..]).0
  {
    hide Put, ValidOp;
  }

  lemma EmptyIsFresh()
    ensures Inv(EMPTY, [], 1)
  {
    hide Inv, Contents;
    assert WellFormed(EMPTY);
    FreshStoreInv(EMPTY, [], 1);
  }

  // Deleting "a", which is not stored, removes "aq" and "abc".
  lemma UnstoredKeyDelete()
    ensures ROOT + [[97]] !in SAMPLE && KeyDelete(SAMPLE, [], [97], 1) == FIRST
  {
    var key: Name := [97];
    var d: Path := [DOT_A];
    assert CharLen(key) == 1 && key[..1] == [97] && Tail(key) == [];
    assert Part(key) == DOT_A && ROOT + [DOT_A] == d && ROOT + [key] == [key];
    assert Locate(SAMPLE, [], key, 1) == Some(d);
    PartitionRemoved();
  }

  lemma PartitionRemoved()
    ensures RemoveDir(SAMPLE, [DOT_A]) == FIRST
  {
    hide RemoveDir;
    var d: Path := [DOT_A];
    SamplePaths();
    RemoveIs(SAMPLE, d, FIRST);
  }

  lemma SampleHasRoom()
    ensures !Full(REDUCED, [DOT_A], 1)
  {}

  lemma SamplePlace()
    ensures Place(REDUCED, [], ABC, 1, Stopped) == At([DOT_A, [98, 99]])
  {
    SampleNames();
    OneChildIsFull(REDUCED, ROOT, X);
    SampleHasRoom();
    hide Full;
    assert Place(REDUCED, [DOT_A], [98, 99], 1, Stopped) == At([DOT_A, [98, 99]]);
  }

  // Deleting "aq" makes room in .a; putting another attribute of "abc" then opens .a/bc, and
  // attribute "A" can no longer be read: SameKeyOtherAttribute's exception does occur.
  lemma AttributeLostAfterKeyDelete()
    ensures Get(SAMPLE, [], ABC, A, 1) == Some([1])
    ensures var t1 := KeyDelete(SAMPLE, [], AQ, 1);
            var (t2, status) := Put(t1, [], ABC, B, [2], 1, Stopped);
            status == 0 && Get(t1, [], ABC, A, 1) == Some([1]) && Get(t2, [], ABC, A, 1) == None
  {
    SampleNames();
    SampleFind(SAMPLE);
    SampleFind(REDUCED);
    SampleDelete();
    SamplePlace();
    SampleLost();
  }

  lemma SampleLost()
    ensures Get(PutAt(REDUCED, [DOT_A, [98, 99]], B, [2]), [], ABC, A, 1) == None
  {
    hide PutAt;
    SampleNames();
    var q: Path := [DOT_A, [98, 99]];
    var t2 := PutAt(REDUCED, q, B, [2]);
    PutAtEffect(REDUCED, q, B, [2]);
    assert q[..1] == [DOT_A] && q[..2] == q && q[..1] != [ABC];
    assert q in t2 && [DOT_A] in t2 && [ABC] !in t2;
    assert Find(t2, [], ABC) == Some(q);
    assert Attr(t2, q, A) == Attr(REDUCED, q, A);
  }

  // ---------- an attribute that cannot be deleted ----------

  const BC: Name := [98, 99]

  // "abc" goes to .a/bc; when "x" is deleted there is room for a directory "abc" at the top.
  const TWICE: seq<KeyOp> := [Basic(PutOp(X, A, [1])), Basic(PutOp(ABC, A, [1])), RemoveKey(X), Basic(PutOp(ABC, B, [2]))]

  const BELOW: Tree := map[[] := map[], [X] := map[A := [1]], [DOT_A] := map[], [DOT_A, BC] := map[A := [1]]]
  const ALONE: Tree := map[[] := map[], [DOT_A] := map[], [DOT_A, BC] := map[A := [1]]]
  const DOUBLE: Tree := map[[] := map[], [DOT_A] := map[], [DOT_A, BC] := map[A := [1]], [ABC] := map[B := [2]]]

  lemma BelowPlace()
    ensures Place(FIRST, [], ABC, 1, Stopped) == At([DOT_A, BC])
  {
    hide Full, CharLen;
    SampleNames();
    OneChildIsFull(FIRST, ROOT, X);
    NoChildIsRoom(FIRST, [DOT_A]);
    assert Place(FIRST, [DOT_A], BC, 1, Stopped) == At([DOT_A, BC]);
  }

  lemma PutBelow()
    ensures Put(FIRST, [], ABC, A, [1], 1, Stopped) == (BELOW, 0)
  {
    hide Place, PutAt, Prefixes;
    BelowPlace();
    PathsAbove(DOT_A, BC, X);
    PutAtIs(FIRST, [DOT_A, BC], A, [1], BELOW);
  }

  lemma RemoveX()
    ensures KeyDelete(BELOW, [], X, 1) == ALONE
  {
    hide RemoveDir;
    var x: Path, d: Path, q: Path := [X], [DOT_A], [DOT_A, BC];
    assert ROOT + [X] == x;
    assert x[0] != d[0] && x[0] != q[0];
    RemoveIs(BELOW, x, ALONE);
  }

  lemma PutAtTop()
    ensures Put(ALONE, [], ABC, B, [2], 1, Stopped) == (DOUBLE, 0)
  {
    NoChildIsRoom(ALONE, ROOT);
    hide Full, PutAt, Prefixes;
    assert ROOT + [ABC] == [ABC];
    PathsAbove(ABC, X, X);
    PutAtIs(ALONE, [ABC], B, [2], DOUBLE);
  }

  lemma DoubleIsReached()
    ensures (forall i :: 0 <= i < |TWICE| ==> ValidKeyOp(TWICE[i])) && KeyRun(EMPTY, [], 1, Stopped, TWICE) == DOUBLE
  {
    hide Put, KeyDelete, ValidOp, KeyName, EMPTY, FIRST, BELOW, ALONE, DOUBLE;
    TwiceIsValid();
    PutFirst();
    PutBelow();
    RemoveX();
    PutAtTop();
    KeyRunFirst(EMPTY, FIRST, TWICE);
    KeyRunFirst(FIRST, BELOW, TWICE[1..]);
    KeyRunFirst(BELOW, ALONE, TWICE[1..][1..]);
    KeyRunFirst(ALONE, DOUBLE, TWICE[1..][1..][1..]);
  }

  lemma TwiceIsValid()
    ensures forall i :: 0 <= i < |TWICE| ==> ValidKeyOp(TWICE[i]) && KeyOf(TWICE[i]) != []
  {
    hide ValidUtf8;
    AsciiIsValid(X);
    AsciiIsValid(ABC);
  }

  lemma KeyRunFirst(t: Tree, t1: Tree, ops: seq<KeyOp>)
    requires ops != [] && (forall i :: 0 <= i < |ops| ==> ValidKeyOp(ops[i])) && KeyStep(t, [], 1, Stopped, ops[0]) == t1
    ensures KeyRun(t, [], 1, Stopped, ops) == if |ops| == 1 then t1 else KeyRun(t1, [], 1, Stopped, ops[1..])
  {
    hide KeyStep, ValidKeyOp;
  }

  // Attribute "A" of "abc" is read from .a/bc, but iDelete looks into the new directory "abc": it
  // answers false and changes nothing.
  lemma AttributeNotDeleted()
    ensures Get(DOUBLE, [], ABC, A, 1) == Some([1]) && Delete(DOUBLE, [], ABC, A, 1) == (DOUBLE, false)
  {
    SampleNames();
    var q: Path := [DOT_A, BC];
    assert Find(DOUBLE, [], ABC) == Some(q);
    assert Locate(DOUBLE, [], ABC, 1) == Some([ABC]);
    assert DOUBLE[[ABC]] - {A} == DOUBLE[[ABC]];
    assert Unlink(DOUBLE, [ABC], A) == DOUBLE;
  }
}
