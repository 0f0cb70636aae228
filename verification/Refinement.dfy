/**
 Runs of puts, gets, attribute deletes and existence tests on the flat keys of one directory, with
 one page limit: the partition tree behaves as a map from (key, attribute) to value.
 */
module Refinement {
  import opened Bytes
  import opened Utf8
  import opened PartitionTree
  import opened AnyTree

  // ---------- the invariant ----------

  // A key below a partition was sent there by full levels.
  ghost predicate Fullness(t: Tree, dir: Path, max: int) {
    forall p, j :: p in t && Slot(dir, p) && |dir| <= j < |p| - 1 ==> Full(t, p[..j], max)
  }

  // A key lives in one directory.
  ghost predicate Unique(t: Tree, dir: Path) {
    forall p, p' | p in t && p' in t && Slot(dir, p) && Slot(dir, p') && Spell(p, |dir|) == Spell(p', |dir|) :: p == p'
  }

  ghost predicate Shaped(t: Tree, dir: Path) {
    forall p :: p in t && dir < p ==> ShapeFrom(p, |dir|)
  }

  ghost predicate Inv(t: Tree, dir: Path, max: int) {
    WellFormed(t) && Shaped(t, dir) && Fullness(t, dir, max) && Unique(t, dir)
  }

  lemma FreshStoreInv(t: Tree, dir: Path, max: int)
    requires WellFormed(t) && forall p :: p in t ==> !(dir < p)
    ensures Inv(t, dir, max) && Contents(t, dir) == map[]
  {
    if c :| c in Contents(t, dir) {
      var p := Origin(t, dir, c.0, c.1);
    }
  }

  lemma InvBelow(t: Tree, dir: Path, max: int, h: Name)
    requires Inv(t, dir, max) && PartName(h)
    ensures Inv(t, dir + [h], max)
  {
    hide WellFormed, Shaped, Fullness, Unique, PartName;
    PartIsHidden(h);
    ShapedBelow(t, dir, h);
    FullnessBelow(t, dir, max, h);
    UniqueBelow(t, dir, h);
  }

  lemma PartIsHidden(h: Name)
    requires PartName(h)
    ensures Hidden(h)
  {}

  lemma ShapedBelow(t: Tree, dir: Path, h: Name)
    requires Shaped(t, dir)
    ensures Shaped(t, dir + [h])
  {
    hide PartName, KeyName;
    var d := dir + [h];
    forall p | p in t && d < p ensures ShapeFrom(p, |d|) {
      ExtendedPrefix(dir, h, p);
    }
  }

  lemma FullnessBelow(t: Tree, dir: Path, max: int, h: Name)
    requires Fullness(t, dir, max) && Hidden(h)
    ensures Fullness(t, dir + [h], max)
  {
    hide Full, Hidden, Slot, Spell;
    var d := dir + [h];
    forall p, j | p in t && Slot(d, p) && |d| <= j < |p| - 1 ensures Full(t, p[..j], max) {
      SlotBelow(dir, h, p);
    }
  }

  lemma UniqueBelow(t: Tree, dir: Path, h: Name)
    requires Unique(t, dir) && Hidden(h)
    ensures Unique(t, dir + [h])
  {
    hide Hidden, Slot, Spell;
    var d := dir + [h];
    assert |d| == |dir| + 1;
    forall p, p' | p in t && p' in t && Slot(d, p) && Slot(d, p') && Spell(p, |d|) == Spell(p', |d|) ensures p == p' {
      SlotBelow(dir, h, p);
      SlotBelow(dir, h, p');
    }
  }

  // ---------- placing and looking up agree ----------

  // The first step towards a slot that is not directly in dir.
  lemma FirstStep(t: Tree, dir: Path, max: int, key: Name, p: Path)
    requires Inv(t, dir, max) && KeyName(key) && p in t && Slot(dir, p) && Spell(p, |dir|) == key
    requires p != dir + [key]
    ensures dir + [key] !in t && Full(t, dir, max) && CharLen(key) > 0 && !Single(key)
    ensures Slot(dir + [Part(key)], p) && Spell(p, |dir| + 1) == Tail(key) && KeyName(Tail(key))
    ensures PartName(Part(key)) && dir + [Part(key)] in t
  {
    hide KeyName, PartName, Full, CharLen, Spell;
    SpelledBelow(dir, key, p);
    SlotHere(dir, key);
    assert p[..|dir| + 1] == dir + [Part(key)];
    assert p[..|dir|] == dir;
  }

  // A stored key is placed where it is, and the look-up finds it there.
  lemma {:induction false} StoredKeyIsFound(t: Tree, dir: Path, max: int, policy: FullPolicy, key: Name, p: Path)
    requires Inv(t, dir, max) && KeyName(key) && p in t && Slot(dir, p) && Spell(p, |dir|) == key
    ensures Place(t, dir, key, max, policy) == At(p)
    ensures p != dir + [key] ==> dir + [key] !in t && max > 0 && Find(t, dir, key) == Some(p)
    decreases |key|
  {
    if p != dir + [key] {
      FirstStep(t, dir, max, key, p);
      var d := dir + [Part(key)];
      TailIsKey(key);
      InvBelow(t, dir, max, Part(key));
      hide Inv, KeyName, PartName, Slot, Spell, CharLen;
      StoredKeyIsFound(t, d, max, policy, Tail(key), p);
    }
  }

  // A key that is stored nowhere has no direct directory, and the look-up finds nothing or an
  // empty partition directory.
  lemma AbsentKeyIsNotFound(t: Tree, dir: Path, max: int, key: Name)
    requires KeyName(key) && Absent(t, dir, key)
    ensures dir + [key] !in t
    ensures Find(t, dir, key).None? || EndsHidden(Find(t, dir, key).value)
  {
    SlotHere(dir, key);
    if Find(t, dir, key).Some? {
      FindShape(t, dir, key);
    }
  }

  // ---------- the map a tree stands for ----------

  function Slots(t: Tree, dir: Path): set<Path> {
    set p | p in t && Slot(dir, p)
  }

  ghost function Contents(t: Tree, dir: Path): map<(Name, Name), Value>
    requires Unique(t, dir)
  {
    map p, a | p in Slots(t, dir) && a in t[p] :: (Spell(p, |dir|), a) := t[p][a]
  }

  function Lookup<K, V>(m: map<K, V>, k: K): Option<V> { if k in m then Some(m[k]) else None }

  // The value stored for a key is the value in the one directory spelling it.
  lemma ContentsOfSlot(t: Tree, dir: Path, p: Path, a: Name)
    requires Unique(t, dir) && p in t && Slot(dir, p)
    ensures Lookup(Contents(t, dir), (Spell(p, |dir|), a)) == Attr(t, p, a)
  {}

  lemma Origin(t: Tree, dir: Path, key: Name, a: Name) returns (p: Path)
    requires Unique(t, dir) && (key, a) in Contents(t, dir)
    ensures p in t && Slot(dir, p) && Spell(p, |dir|) == key && a in t[p]
  {
    var b;
    p, b :| p in Slots(t, dir) && b in t[p] && (Spell(p, |dir|), b) == (key, a);
  }

  // Changing one attribute of one slot, which may be new, changes one entry of the contents.
  lemma ContentsChanged(t: Tree, t': Tree, dir: Path, q: Path, attr: Name, v: Option<Value>, key: Name, a: Name)
    requires Unique(t, dir) && Unique(t', dir) && Slot(dir, q)
    requires forall x, b :: Attr(t', x, b) == if x == q && b == attr then v else Attr(t, x, b)
    requires forall p :: p in t' && Slot(dir, p) ==> p in t || p == q
    requires q in t' && forall p :: p in t ==> p in t'
    ensures Lookup(Contents(t', dir), (key, a))
            == if (key, a) == (Spell(q, |dir|), attr) then v else Lookup(Contents(t, dir), (key, a))
  {
    hide Contents, Slot, Spell, Attr;
    if p :| p in t' && Slot(dir, p) && Spell(p, |dir|) == key {
      ContentsOfSlot(t', dir, p, a);
      if p in t { ContentsOfSlot(t, dir, p, a); } else { NotAPath(t, p, a); ContentsOfAbsent(t, dir, key, a); }
    } else {
      ContentsOfAbsent(t', dir, key, a);
      ContentsOfAbsent(t, dir, key, a);
    }
  }

  lemma NotAPath(t: Tree, p: Path, a: Name)
    requires p !in t
    ensures Attr(t, p, a) == None
  {}

  ghost predicate Absent(t: Tree, dir: Path, key: Name) {
    forall p :: p in t && Slot(dir, p) ==> Spell(p, |dir|) != key
  }

  lemma ContentsOfAbsent(t: Tree, dir: Path, key: Name, a: Name)
    requires Unique(t, dir) && Absent(t, dir, key)
    ensures Lookup(Contents(t, dir), (key, a)) == None
  {
    if (key, a) in Contents(t, dir) {
      var p := Origin(t, dir, key, a);
    }
  }

  // ---------- one operation at a time ----------

  lemma GetRefines(t: Tree, dir: Path, max: int, key: Name, attr: Name)
    requires Inv(t, dir, max) && KeyName(key)
    ensures Get(t, dir, key, attr, max) == Lookup(Contents(t, dir), (key, attr))
  {
    hide Contents;
    if p :| p in t && Slot(dir, p) && Spell(p, |dir|) == key {
      StoredKeyIsFound(t, dir, max, Ignored, key, p);
      ContentsOfSlot(t, dir, p, attr);
      if p == dir + [key] && Find(t, dir, key).Some? {
        FindShape(t, dir, key);
        KeyNotHidden(key);
      }
    } else {
      AbsentKeyIsNotFound(t, dir, max, key);
      ContentsOfAbsent(t, dir, key, attr);
    }
  }

  lemma DeleteRefines(t: Tree, dir: Path, max: int, key: Name, attr: Name)
    requires Inv(t, dir, max) && KeyName(key)
    ensures var (t', ok) := Delete(t, dir, key, attr, max);
            && Inv(t', dir, max)
            && Contents(t', dir) == Contents(t, dir) - {(key, attr)}
            && ok == ((key, attr) in Contents(t, dir))
  {
    hide Contents;
    if p :| p in t && Slot(dir, p) && Spell(p, |dir|) == key {
      StoredKeyIsFound(t, dir, max, Ignored, key, p);
      ContentsOfSlot(t, dir, p, attr);
      SameDirectories(t, Unlink(t, p, attr), dir, max);
      ContentsUnlinked(t, dir, p, attr);
    } else {
      AbsentKeyIsNotFound(t, dir, max, key);
      ContentsOfAbsent(t, dir, key, attr);
      UnlinkNothing(t, dir, key, attr, max);
    }
  }

  lemma UnlinkNothing(t: Tree, dir: Path, key: Name, attr: Name, max: int)
    requires HiddenBare(t) && key != [] && dir + [key] !in t
    requires Find(t, dir, key).None? || EndsHidden(Find(t, dir, key).value)
    ensures Delete(t, dir, key, attr, max) == (t, false)
  {
    if Locate(t, dir, key, max).Some? {
      var p := Locate(t, dir, key, max).value;
      assert Unlink(t, p, attr) == t;
    }
  }

  lemma ContentsUnlinked(t: Tree, dir: Path, p: Path, attr: Name)
    requires Unique(t, dir) && Unique(Unlink(t, p, attr), dir) && p in t && Slot(dir, p)
    ensures Contents(Unlink(t, p, attr), dir) == Contents(t, dir) - {(Spell(p, |dir|), attr)}
  {
    hide Contents, Slot, Spell, Unlink, Attr, Unique;
    var t' := Unlink(t, p, attr);
    UnlinkEffect(t, p, attr);
    var m := Contents(t, dir) - {(Spell(p, |dir|), attr)};
    forall k, a ensures Lookup(Contents(t', dir), (k, a)) == Lookup(m, (k, a)) {
      ContentsChanged(t, t', dir, p, attr, None, k, a);
    }
    MapsEqual(Contents(t', dir), m);
  }

  lemma UnlinkEffect(t: Tree, p: Path, attr: Name)
    ensures Unlink(t, p, attr).Keys == t.Keys
    ensures forall x, b :: Attr(Unlink(t, p, attr), x, b) == if x == p && b == attr then None else Attr(t, x, b)
  {}

  lemma SameDirectories(t: Tree, t': Tree, dir: Path, max: int)
    requires Inv(t, dir, max) && t'.Keys == t.Keys && HiddenBare(t')
    ensures Inv(t', dir, max)
  {}

  lemma PutRefines(t: Tree, dir: Path, max: int, policy: FullPolicy, key: Name, attr: Name, value: Value)
    requires Inv(t, dir, max) && KeyName(key)
    ensures var (t', status) := Put(t, dir, key, attr, value, max, policy);
            && Inv(t', dir, max)
            && (status == 0 ==> Contents(t', dir) == Contents(t, dir)[(key, attr) := value])
            && (status != 0 ==> status == ERR_PART_FULL && policy.Stopped? && t' == t)
  {
    hide Contents, PutAt, Place;
    if Place(t, dir, key, max, policy).Refused? {
      PlaceRefusal(t, dir, key, max, policy);
    } else {
      PlaceShape(t, dir, key, max, policy);
      PutKeepsInv(t, dir, max, policy, key, attr, value);
      PutContents(t, dir, Place(t, dir, key, max, policy).path, attr, value);
    }
  }

  lemma FullGrows(t: Tree, t': Tree, d: Path, max: int)
    requires (forall p :: p in t ==> p in t') && Full(t, d, max)
    ensures Full(t', d, max)
  {
    SubsetSize(Children(t, d), Children(t', d));
  }

  lemma SubsetSize<T>(a: set<T>, b: set<T>)
    requires a <= b
    ensures |a| <= |b|
  {
    assert b == a + (b - a);
  }

  // Below dir, a put adds no slot but the one it writes to.
  lemma NewSlots(t: Tree, t': Tree, dir: Path, q: Path, p: Path)
    requires Slot(dir, q) && Grown(t, t', q) && p in t' && Slot(dir, p)
    ensures p in t || p == q
  {}

  lemma PutKeepsInv(t: Tree, dir: Path, max: int, policy: FullPolicy, key: Name, attr: Name, value: Value)
    requires Inv(t, dir, max) && KeyName(key) && Place(t, dir, key, max, policy).At?
    ensures Inv(PutAt(t, Place(t, dir, key, max, policy).path, attr, value), dir, max)
  {
    hide PutAt, Place, WellFormed, Fullness, Unique, Shaped, KeyName, Spell, ShapeFrom, Attr;
    KeyNotEmpty(key);
    var q := Place(t, dir, key, max, policy).path;
    var t' := PutAt(t, q, attr, value);
    PlaceShape(t, dir, key, max, policy);
    PutAtWellFormed(t, q, attr, value);
    assert Grown(t, t', q) by { PutAtEffect(t, q, attr, value); }
    PutKeepsShape(t, t', dir, q);
    PutKeepsFullness(t, t', dir, max, policy, key);
    PutKeepsUnique(t, t', dir, max, policy, key);
  }

  lemma PutKeepsShape(t: Tree, t': Tree, dir: Path, q: Path)
    requires Shaped(t, dir) && Slot(dir, q) && ShapeFrom(q, |dir|) && Grown(t, t', q)
    ensures Shaped(t', dir)
  {}

  lemma PutKeepsFullness(t: Tree, t': Tree, dir: Path, max: int, policy: FullPolicy, key: Name)
    requires Fullness(t, dir, max) && KeyName(key) && Place(t, dir, key, max, policy).At?
    requires Grown(t, t', Place(t, dir, key, max, policy).path)
    ensures Fullness(t', dir, max)
  {
    var q := Place(t, dir, key, max, policy).path;
    hide Place, KeyName, Full;
    PlaceShape(t, dir, key, max, policy);
    PlaceLevels(t, dir, key, max, policy);
    forall p, j | p in t' && Slot(dir, p) && |dir| <= j < |p| - 1 ensures Full(t', p[..j], max) {
      NewSlots(t, t', dir, q, p);
      FullGrows(t, t', p[..j], max);
    }
  }

  lemma PutKeepsUnique(t: Tree, t': Tree, dir: Path, max: int, policy: FullPolicy, key: Name)
    requires Inv(t, dir, max) && KeyName(key) && Place(t, dir, key, max, policy).At?
    requires Grown(t, t', Place(t, dir, key, max, policy).path)
    ensures Unique(t', dir)
  {
    var q := Place(t, dir, key, max, policy).path;
    PlaceShape(t, dir, key, max, policy);
    forall p, p' | p in t' && p' in t' && Slot(dir, p) && Slot(dir, p') && Spell(p, |dir|) == Spell(p', |dir|)
      ensures p == p'
    {
      hide Place, Slot, Spell, KeyName;
      NewSlots(t, t', dir, q, p);
      NewSlots(t, t', dir, q, p');
      if p in t && p' !in t {
        StoredKeyIsFound(t, dir, max, policy, key, p);
      } else if p' in t && p !in t {
        StoredKeyIsFound(t, dir, max, policy, key, p');
      }
    }
  }

  lemma PutContents(t: Tree, dir: Path, q: Path, attr: Name, value: Value)
    requires Unique(t, dir) && Slot(dir, q) && Unique(PutAt(t, q, attr, value), dir)
    ensures Contents(PutAt(t, q, attr, value), dir) == Contents(t, dir)[(Spell(q, |dir|), attr) := value]
  {
    var t' := PutAt(t, q, attr, value);
    PutAtEffect(t, q, attr, value);
    var m := Contents(t, dir)[(Spell(q, |dir|), attr) := value];
    hide Contents, Slot, Spell, PutAt, Attr;
    forall p | p in t' && Slot(dir, p) ensures p in t || p == q { NewSlots(t, t', dir, q, p); }
    forall k, a ensures Lookup(Contents(t', dir), (k, a)) == Lookup(m, (k, a)) {
      ContentsChanged(t, t', dir, q, attr, Some(value), k, a);
    }
    MapsEqual(Contents(t', dir), m);
  }

  lemma MapsEqual(m: map<(Name, Name), Value>, m': map<(Name, Name), Value>)
    requires forall k, a :: Lookup(m, (k, a)) == Lookup(m', (k, a))
    ensures m == m'
  {
    forall x: (Name, Name) ensures (x in m <==> x in m') && (x in m ==> m[x] == m'[x]) {
      var (k, a) := x;
      assert Lookup(m, (k, a)) == Lookup(m', (k, a));
    }
  }

  // ---------- when a put is refused ----------

  // The i-th level of a key's walk, and the directory that holds the key there.
  function Level(dir: Path, key: Name, i: nat): Path
    decreases i
  {
    if i == 0 then dir else Level(dir + [Part(key)], Tail(key), i - 1)
  }

  function SlotAt(dir: Path, key: Name, i: nat): Path
    decreases i
  {
    if i == 0 then dir + [key] else SlotAt(dir + [Part(key)], Tail(key), i - 1)
  }

  ghost predicate NoRoom(t: Tree, dir: Path, key: Name, max: int)
    requires ValidUtf8(key)
  {
    forall i :: 0 <= i < NumChars(key) ==> Full(t, Level(dir, key, i), max) && SlotAt(dir, key, i) !in t
  }

  lemma NoRoomBelow(t: Tree, dir: Path, key: Name, max: int)
    requires KeyName(key)
    ensures ValidUtf8(Tail(key))
    ensures NoRoom(t, dir, key, max)
            <==> Full(t, dir, max) && dir + [key] !in t && NoRoom(t, dir + [Part(key)], Tail(key), max)
  {
    TailIsKey(key);
    var d := dir + [Part(key)];
    var n := NumChars(key);
    hide Full, KeyName;
    assert n == 1 + NumChars(Tail(key));
    assert Level(dir, key, 0) == dir && SlotAt(dir, key, 0) == dir + [key];
    forall i | 1 <= i < n
      ensures Level(dir, key, i) == Level(d, Tail(key), i - 1) && SlotAt(dir, key, i) == SlotAt(d, Tail(key), i - 1) {}
    if NoRoom(t, dir, key, max) {
      forall i | 0 <= i < n - 1 ensures Full(t, Level(d, Tail(key), i), max) && SlotAt(d, Tail(key), i) !in t {
        assert Level(dir, key, i + 1) == Level(d, Tail(key), i);
        assert SlotAt(dir, key, i + 1) == SlotAt(d, Tail(key), i);
      }
    }
  }

  // A put is refused exactly by the strict policy, for a key that is at none of its levels, all
  // of which are full. This needs no invariant of the tree.
  lemma {:induction false} RefusedExactly(t: Tree, dir: Path, key: Name, max: int, policy: FullPolicy)
    requires KeyName(key)
    ensures Place(t, dir, key, max, policy).Refused? <==> policy.Stopped? && NoRoom(t, dir, key, max)
    decreases |key|
  {
    TailIsKey(key);
    NoRoomBelow(t, dir, key, max);
    hide Full, KeyName;
    if Single(key) {
      assert NoRoom(t, dir + [Part(key)], Tail(key), max);
    } else {
      hide NoRoom;
      RefusedExactly(t, dir + [Part(key)], Tail(key), max, policy);
    }
  }

  // ---------- whole runs ----------

  datatype Op =
    | PutOp(key: Name, attr: Name, value: Value)
    | GetOp(key: Name, attr: Name)
    | DeleteOp(key: Name, attr: Name)
    | ExistsOp(key: Name, attr: Name)

  datatype Answer = Status(status: int) | Content(content: Option<Value>) | Flag(flag: bool)

  predicate ValidOp(op: Op) { KeyName(op.key) }

  function Step(t: Tree, dir: Path, max: int, policy: FullPolicy, op: Op): (Tree, Answer)
    requires op.key != []
  {
    match op
    case PutOp(k, a, v) => var (t', s) := Put(t, dir, k, a, v, max, policy); (t', Status(s))
    case GetOp(k, a) => (t, Content(Get(t, dir, k, a, max)))
    case DeleteOp(k, a) => var (t', ok) := Delete(t, dir, k, a, max); (t', Flag(ok))
    case ExistsOp(k, a) => (t, Flag(Get(t, dir, k, a, max).Some?))
  }

  function Run(t: Tree, dir: Path, max: int, policy: FullPolicy, ops: seq<Op>): (Tree, seq<Answer>)
    requires forall i :: 0 <= i < |ops| ==> ValidOp(ops[i])
    decreases |ops|
  {
    if ops == [] then (t, []) else
      assert ValidOp(ops[0]);
      var (t1, answer) := Step(t, dir, max, policy, ops[0]);
      var (t', answers) := Run(t1, dir, max, policy, ops[1..]);
      (t', [answer] + answers)
  }

  // A plain map serving the same operations. Whether a put may be refused is left to `strict`.
  predicate MapStep(m: map<(Name, Name), Value>, op: Op, answer: Answer, m': map<(Name, Name), Value>, strict: bool) {
    match op
    case PutOp(k, a, v) =>
      || (answer == Status(0) && m' == m[(k, a) := v])
      || (strict && answer == Status(ERR_PART_FULL) && m' == m)
    case GetOp(k, a) => answer == Content(Lookup(m, (k, a))) && m' == m
    case DeleteOp(k, a) => answer == Flag((k, a) in m) && m' == m - {(k, a)}
    case ExistsOp(k, a) => answer == Flag((k, a) in m) && m' == m
  }

  ghost predicate MapRun(m: map<(Name, Name), Value>, ops: seq<Op>, answers: seq<Answer>,
                         m': map<(Name, Name), Value>, strict: bool)
    decreases |ops|
  {
    if ops == [] then answers == [] && m' == m
    else answers != [] && exists m1 :: MapStep(m, ops[0], answers[0], m1, strict)
                                       && MapRun(m1, ops[1..], answers[1..], m', strict)
  }

  lemma StepRefines(t: Tree, dir: Path, max: int, policy: FullPolicy, op: Op)
    requires Inv(t, dir, max) && ValidOp(op)
    ensures var (t', answer) := Step(t, dir, max, policy, op);
            Inv(t', dir, max) && MapStep(Contents(t, dir), op, answer, Contents(t', dir), policy.Stopped?)
  {
    match op
    case PutOp(k, a, v) => PutRefines(t, dir, max, policy, k, a, v);
    case GetOp(k, a) => GetRefines(t, dir, max, k, a);
    case DeleteOp(k, a) => DeleteRefines(t, dir, max, k, a);
    case ExistsOp(k, a) => GetRefines(t, dir, max, k, a);
  }

  // Every answer of every run is the answer of a map that starts with the contents of the tree
  // and ends with them; under the lenient policy no put is ever refused.
  lemma {:induction false} RunRefines(t: Tree, dir: Path, max: int, policy: FullPolicy, ops: seq<Op>)
    requires Inv(t, dir, max) && forall i :: 0 <= i < |ops| ==> ValidOp(ops[i])
    ensures var (t', answers) := Run(t, dir, max, policy, ops);
            Inv(t', dir, max) && MapRun(Contents(t, dir), ops, answers, Contents(t', dir), policy.Stopped?)
    decreases |ops|
  {
    hide Inv, Step, MapStep, Contents;
    if ops != [] {
      assert ValidOp(ops[0]);
      var (t1, answer) := Step(t, dir, max, policy, ops[0]);
      StepRefines(t, dir, max, policy, ops[0]);
      RunRefines(t1, dir, max, policy, ops[1..]);
      var (t', answers) := Run(t1, dir, max, policy, ops[1..]);
      assert ([answer] + answers)[1..] == answers;
    }
  }
}
