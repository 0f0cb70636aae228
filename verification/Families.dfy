/**
 Runs over several parent directories of one store (src/idb_helpers.c): as long as none of them
 lies below another, they behave like one map each, side by side.
 */
module Families {
  import opened PartitionTree
  import opened AnyTree
  import opened Refinement

  type Contained = map<(Name, Name), Value>

  predicate Apart(dirs: set<Path>) { forall d, e :: d in dirs && e in dirs && d <= e ==> d == e }

  ghost predicate AllServed(t: Tree, dirs: set<Path>, max: int) { forall d :: d in dirs ==> Inv(t, d, max) }

  // The map of every parent.
  ghost function Family(t: Tree, dirs: set<Path>, max: int): map<Path, Contained>
    requires AllServed(t, dirs, max)
  {
    map d | d in dirs :: (assert Inv(t, d, max); Contents(t, d))
  }

  // An operation on a key of one of the parents.
  datatype DirOp = DirOp(dir: Path, op: Op)

  predicate ValidDirOp(dirs: set<Path>, c: DirOp) { c.dir in dirs && ValidOp(c.op) }

  function FamilyRun(t: Tree, dirs: set<Path>, max: int, policy: FullPolicy, ops: seq<DirOp>): (Tree, seq<Answer>)
    requires forall i :: 0 <= i < |ops| ==> ValidDirOp(dirs, ops[i])
    decreases |ops|
  {
    if ops == [] then (t, []) else
      assert ValidDirOp(dirs, ops[0]);
      var (t1, answer) := Step(t, ops[0].dir, max, policy, ops[0].op);
      var (t', answers) := FamilyRun(t1, dirs, max, policy, ops[1..]);
      (t', [answer] + answers)
  }

  // The parent's map serves the operation, the others stay.
  predicate FamilyStep(m: map<Path, Contained>, c: DirOp, answer: Answer, m': map<Path, Contained>, strict: bool) {
    && c.dir in m && c.dir in m'
    && MapStep(m[c.dir], c.op, answer, m'[c.dir], strict)
    && m' == m[c.dir := m'[c.dir]]
  }

  ghost predicate FamilyMapRun(m: map<Path, Contained>, ops: seq<DirOp>, answers: seq<Answer>,
                               m': map<Path, Contained>, strict: bool)
    decreases |ops|
  {
    if ops == [] then answers == [] && m' == m
    else answers != [] && exists m1 :: FamilyStep(m, ops[0], answers[0], m1, strict)
                                       && FamilyMapRun(m1, ops[1..], answers[1..], m', strict)
  }

  // ---------- what happens elsewhere ----------

  ghost predicate SameBelow(t: Tree, t': Tree, e: Path) {
    && (forall x :: e <= x ==> (x in t' <==> x in t))
    && (forall x :: e <= x && x in t && x in t' ==> t'[x] == t[x])
  }

  lemma Comparable(d: Path, e: Path, q: Path)
    ensures d <= q && e <= q ==> d <= e || e <= d
  {
    if d <= q && e <= q {
      if |d| <= |e| { assert e[..|d|] == q[..|d|] == d; } else { assert d[..|e|] == q[..|e|] == e; }
    }
  }

  lemma ServedElsewhere(t: Tree, t': Tree, e: Path, max: int)
    requires Inv(t, e, max) && WellFormed(t') && SameBelow(t, t', e)
    ensures Inv(t', e, max) && Contents(t', e) == Contents(t, e)
  {
    hide ShapeFrom, Spell, WellFormed, Full;
    forall p, j | p in t' && Slot(e, p) && |e| <= j < |p| - 1 ensures Full(t', p[..j], max) {
      assert Full(t, p[..j], max);
      FullElsewhere(t, t', e, p[..j], max);
    }
    assert Slots(t', e) == Slots(t, e);
  }

  lemma FullElsewhere(t: Tree, t': Tree, e: Path, d: Path, max: int)
    requires SameBelow(t, t', e) && e <= d && Full(t, d, max)
    ensures Full(t', d, max)
  {
    assert Children(t', d) == Children(t, d);
  }

  lemma StepElsewhere(t: Tree, dir: Path, max: int, policy: FullPolicy, op: Op, e: Path)
    requires WellFormed(t) && ValidOp(op) && !(e <= dir) && !(dir <= e)
    ensures SameBelow(t, Step(t, dir, max, policy, op).0, e)
  {
    hide Place, Find, KeyName, WellFormed, PutAt;
    KeyNotEmpty(op.key);
    match op
    case PutOp(k, a, v) =>
      if Place(t, dir, k, max, policy).At? {
        PlaceShape(t, dir, k, max, policy);
        PutElsewhere(t, dir, Place(t, dir, k, max, policy).path, a, v, e);
      }
    case DeleteOp(k, a) =>
      if Locate(t, dir, k, max).Some? {
        if dir + [k] !in t { FindShape(t, dir, k); }
        UnlinkElsewhere(t, dir, Locate(t, dir, k, max).value, a, e);
      }
    case _ =>
  }

  lemma PutElsewhere(t: Tree, dir: Path, q: Path, attr: Name, value: Value, e: Path)
    requires dir <= q && !(e <= dir) && !(dir <= e)
    ensures SameBelow(t, PutAt(t, q, attr, value), e)
  {
    Comparable(dir, e, q);
    var t' := PutAt(t, q, attr, value);
    forall x | x in t' && e <= x ensures x in t && t'[x] == t[x] { Through(e, x, q); }
  }

  lemma Through(e: Path, x: Path, q: Path)
    ensures e <= x && x <= q ==> e <= q
  {}

  lemma UnlinkElsewhere(t: Tree, dir: Path, p: Path, attr: Name, e: Path)
    requires dir <= p && !(e <= dir) && !(dir <= e)
    ensures SameBelow(t, Unlink(t, p, attr), e)
  {
    Comparable(dir, e, p);
  }

  // ---------- steps and runs ----------

  lemma FamilyStepRefines(t: Tree, dirs: set<Path>, max: int, policy: FullPolicy, c: DirOp)
    requires AllServed(t, dirs, max) && Apart(dirs) && ValidDirOp(dirs, c)
    ensures var (t', answer) := Step(t, c.dir, max, policy, c.op);
            && AllServed(t', dirs, max)
            && FamilyStep(Family(t, dirs, max), c, answer, Family(t', dirs, max), policy.Stopped?)
  {
    hide WellFormed, Shaped, Fullness, Unique, Step, MapStep, Contents, KeyName;
    KeyNotEmpty(c.op.key);
    var (t', answer) := Step(t, c.dir, max, policy, c.op);
    StepRefines(t, c.dir, max, policy, c.op);
    forall e | e in dirs && e != c.dir ensures Inv(t', e, max) && Contents(t', e) == Contents(t, e) {
      InvWellFormed(t, c.dir, max);
      InvWellFormed(t', c.dir, max);
      StepElsewhere(t, c.dir, max, policy, c.op, e);
      ServedElsewhere(t, t', e, max);
    }
    var m, m' := Family(t, dirs, max), Family(t', dirs, max);
    assert m' == m[c.dir := m'[c.dir]];
  }

  lemma InvWellFormed(t: Tree, dir: Path, max: int)
    requires Inv(t, dir, max)
    ensures WellFormed(t)
  {}

  // Every run over the parents answers as their maps do, side by side.
  lemma {:induction false} FamilyRunRefines(t: Tree, dirs: set<Path>, max: int, policy: FullPolicy, ops: seq<DirOp>)
    requires AllServed(t, dirs, max) && Apart(dirs) && forall i :: 0 <= i < |ops| ==> ValidDirOp(dirs, ops[i])
    ensures var (t', answers) := FamilyRun(t, dirs, max, policy, ops);
            && AllServed(t', dirs, max)
            && FamilyMapRun(Family(t, dirs, max), ops, answers, Family(t', dirs, max), policy.Stopped?)
    decreases |ops|
  {
    hide AllServed, Step, FamilyStep, Family;
    if ops != [] {
      assert ValidDirOp(dirs, ops[0]);
      var (t1, answer) := Step(t, ops[0].dir, max, policy, ops[0].op);
      FamilyStepRefines(t, dirs, max, policy, ops[0]);
      FamilyRunRefines(t1, dirs, max, policy, ops[1..]);
      var (t', answers) := FamilyRun(t1, dirs, max, policy, ops[1..]);
      assert ([answer] + answers)[1..] == answers;
    }
  }
}
