/**
 How full the levels of a partition tree can get. Nothing here assumes the invariant of
 Refinement.dfy: the bounds survive key deletes and the duplicates they lead to.
 */
module Capacity {
  import opened PartitionTree
  import opened AnyTree
  import opened Refinement

  // dir itself or one of its partition directories, however deep.
  predicate IsLevel(dir: Path, d: Path) {
    dir <= d && forall j :: |dir| <= j < |d| ==> Hidden(d[j])
  }

  // The names of two or more characters at a level.
  function LongChildren(t: Tree, d: Path): set<Name> {
    set n | n in Children(t, d) && !Single(n)
  }

  ghost predicate Capped(t: Tree, dir: Path, max: int) {
    forall d :: IsLevel(dir, d) ==> |Children(t, d)| <= max
  }

  ghost predicate LongCapped(t: Tree, dir: Path, max: int) {
    forall d :: IsLevel(dir, d) ==> |LongChildren(t, d)| <= max
  }

  // The strict policy never lets a level grow beyond the limit; the lenient one forces only
  // names of one character into a full level.
  ghost predicate Bounded(t: Tree, dir: Path, max: int, policy: FullPolicy) {
    match policy
    case Stopped => Capped(t, dir, max)
    case Ignored => LongCapped(t, dir, max)
  }

  // The only level to gain a key by a put is the one above the directory written to.
  lemma ChildrenAfterPut(t: Tree, t': Tree, dir: Path, q: Path, d: Path)
    requires Slot(dir, q) && Grown(t, t', q) && IsLevel(dir, d)
    ensures Children(t', d) == Children(t, d) + if d == q[..|q| - 1] then {q[|q| - 1]} else {}
  {}

  lemma NoChildren(t: Tree, d: Path)
    requires Closed(t) && d !in t
    ensures Children(t, d) == {}
  {
    forall p | p in t && |p| == |d| + 1 ensures !(d < p) {
      var h := p[..|d|];
      assert h in t;
      assert d < p ==> h == d;
    }
  }

  lemma PutKeepsBounds(t: Tree, dir: Path, key: Name, attr: Name, value: Value, max: int, policy: FullPolicy)
    requires Closed(t) && KeyName(key) && max > 0 && Bounded(t, dir, max, policy)
    ensures Bounded(Put(t, dir, key, attr, value, max, policy).0, dir, max, policy)
  {
    hide *;
    KeyNotEmpty(key);
    PutWhere(t, dir, key, attr, value, max, policy);
    if Place(t, dir, key, max, policy).At? {
      var q := Place(t, dir, key, max, policy).path;
      PlaceShape(t, dir, key, max, policy);
      PlaceLast(t, dir, key, max, policy);
      PutAtKeepsBounds(t, dir, q, attr, value, max, policy);
    }
  }

  lemma PutAtKeepsBounds(t: Tree, dir: Path, q: Path, attr: Name, value: Value, max: int, policy: FullPolicy)
    requires Closed(t) && max > 0 && Slot(dir, q) && Bounded(t, dir, max, policy)
    requires q in t || !Full(t, q[..|q| - 1], max) || (policy.Ignored? && Single(q[|q| - 1]))
    ensures Bounded(PutAt(t, q, attr, value), dir, max, policy)
  {
    assert Grown(t, PutAt(t, q, attr, value), q) by { PutAtEffect(t, q, attr, value); }
    AllLevelsKeepBounds(t, PutAt(t, q, attr, value), dir, q, max, policy);
  }

  lemma PutWhere(t: Tree, dir: Path, key: Name, attr: Name, value: Value, max: int, policy: FullPolicy)
    requires key != []
    ensures Put(t, dir, key, attr, value, max, policy).0
            == match Place(t, dir, key, max, policy) case At(q) => PutAt(t, q, attr, value) case Refused(_) => t
  {}

  lemma AllLevelsKeepBounds(t: Tree, t': Tree, dir: Path, q: Path, max: int, policy: FullPolicy)
    requires Closed(t) && max > 0 && Slot(dir, q) && Grown(t, t', q) && Bounded(t, dir, max, policy)
    requires q in t || !Full(t, q[..|q| - 1], max) || (policy.Ignored? && Single(q[|q| - 1]))
    ensures Bounded(t', dir, max, policy)
  {
    forall d | IsLevel(dir, d)
      ensures policy.Stopped? ==> |Children(t', d)| <= max
      ensures policy.Ignored? ==> |LongChildren(t', d)| <= max
    {
      LevelKeepsBounds(t, t', dir, q, d, max, policy);
    }
  }

  lemma LevelKeepsBounds(t: Tree, t': Tree, dir: Path, q: Path, d: Path, max: int, policy: FullPolicy)
    requires Closed(t) && max > 0 && Slot(dir, q) && Grown(t, t', q) && IsLevel(dir, d)
    requires q in t || !Full(t, q[..|q| - 1], max) || (policy.Ignored? && Single(q[|q| - 1]))
    ensures policy.Stopped? && |Children(t, d)| <= max ==> |Children(t', d)| <= max
    ensures policy.Ignored? && |LongChildren(t, d)| <= max ==> |LongChildren(t', d)| <= max
  {
    ChildrenAfterPut(t, t', dir, q, d);
    var last := q[|q| - 1];
    if d != q[..|q| - 1] {
      assert Children(t', d) == Children(t, d);
    } else {
      assert Children(t', d) == Children(t, d) + {last};
      if q in t {
        assert d < q && last in Children(t, d);
        assert Children(t', d) == Children(t, d);
      } else if !Full(t, d, max) {
        if d !in t { NoChildren(t, d); }
        assert |Children(t, d)| < max;
        SubsetSize(LongChildren(t', d), Children(t', d));
      } else {
        assert LongChildren(t', d) == LongChildren(t, d);
      }
    }
  }

  lemma FewerDirectoriesKeepBounds(t: Tree, t': Tree, dir: Path, max: int, policy: FullPolicy)
    requires Bounded(t, dir, max, policy) && forall p :: p in t' ==> p in t
    ensures Bounded(t', dir, max, policy)
  {
    forall d | IsLevel(dir, d)
      ensures |Children(t', d)| <= |Children(t, d)| && |LongChildren(t', d)| <= |LongChildren(t, d)|
    {
      SubsetSize(Children(t', d), Children(t, d));
      SubsetSize(LongChildren(t', d), LongChildren(t, d));
    }
  }

  // ---------- runs with key deletes ----------

  datatype KeyOp = Basic(op: Op) | RemoveKey(key: Name)

  predicate ValidKeyOp(k: KeyOp) {
    match k
    case Basic(op) => ValidOp(op)
    case RemoveKey(key) => KeyName(key)
  }

  function KeyStep(t: Tree, dir: Path, max: int, policy: FullPolicy, k: KeyOp): Tree
    requires ValidKeyOp(k)
  {
    match k
    case Basic(op) => Step(t, dir, max, policy, op).0
    case RemoveKey(key) => KeyDelete(t, dir, key, max)
  }

  function KeyRun(t: Tree, dir: Path, max: int, policy: FullPolicy, ops: seq<KeyOp>): Tree
    requires forall i :: 0 <= i < |ops| ==> ValidKeyOp(ops[i])
    decreases |ops|
  {
    if ops == [] then t else
      assert ValidKeyOp(ops[0]);
      KeyRun(KeyStep(t, dir, max, policy, ops[0]), dir, max, policy, ops[1..])
  }

  lemma DeleteSameDirectories(t: Tree, dir: Path, key: Name, attr: Name, max: int)
    requires WellFormed(t) && key != []
    ensures var t' := Delete(t, dir, key, attr, max).0; WellFormed(t') && forall p :: p in t' ==> p in t
  {}

  lemma RemoveDirFewer(t: Tree, dir: Path, key: Name, max: int)
    requires key != []
    ensures forall p :: p in KeyDelete(t, dir, key, max) ==> p in t
  {}

  lemma StepKeepsBounds(t: Tree, dir: Path, max: int, policy: FullPolicy, k: KeyOp)
    requires WellFormed(t) && max > 0 && Bounded(t, dir, max, policy) && ValidKeyOp(k)
    ensures var t' := KeyStep(t, dir, max, policy, k); WellFormed(t') && Bounded(t', dir, max, policy)
  {
    hide Bounded, Place, Find, Closed, HiddenBare, KeyName, PutAt, Put, Delete, RemoveDir;
    KeyNotEmpty(match k case Basic(op) => op.key case RemoveKey(key) => key);
    match k
    case Basic(PutOp(key, a, v)) =>
      PutKeepsBounds(t, dir, key, a, v, max, policy);
      PutWellFormed(t, dir, key, a, v, max, policy);
    case Basic(GetOp(key, a)) =>
    case Basic(DeleteOp(key, a)) =>
      DeleteSameDirectories(t, dir, key, a, max);
      FewerDirectoriesKeepBounds(t, Delete(t, dir, key, a, max).0, dir, max, policy);
    case Basic(ExistsOp(key, a)) =>
    case RemoveKey(key) =>
      if Locate(t, dir, key, max).Some? {
        RemoveDirWellFormed(t, Locate(t, dir, key, max).value);
      }
      RemoveDirFewer(t, dir, key, max);
      FewerDirectoriesKeepBounds(t, KeyDelete(t, dir, key, max), dir, max, policy);
  }

  // The bound holds after every run, key deletes included.
  lemma {:induction false} RunKeepsBounds(t: Tree, dir: Path, max: int, policy: FullPolicy, ops: seq<KeyOp>)
    requires WellFormed(t) && max > 0 && Bounded(t, dir, max, policy)
    requires forall i :: 0 <= i < |ops| ==> ValidKeyOp(ops[i])
    ensures var t' := KeyRun(t, dir, max, policy, ops); WellFormed(t') && Bounded(t', dir, max, policy)
    decreases |ops|
  {
    if ops != [] {
      assert ValidKeyOp(ops[0]);
      StepKeepsBounds(t, dir, max, policy, ops[0]);
      RunKeepsBounds(KeyStep(t, dir, max, policy, ops[0]), dir, max, policy, ops[1..]);
    }
  }
}
