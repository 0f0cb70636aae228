/**
 Longer stories about a store: which keys exist, what a key delete removes, and how long a write
 can be read back when page limit and policy change between the calls.
 */
module Runs {
  import opened Bytes
  import opened Utf8
  import opened PartitionTree
  import opened AnyTree
  import opened Refinement
  import opened Capacity

  // ---------- existence of keys (iKeyIsExists) ----------

  lemma {:induction false} LevelsExtend(dir: Path, key: Name, i: nat)
    ensures dir <= Level(dir, key, i) && dir <= SlotAt(dir, key, i)
    decreases i
  {
    if i > 0 {
      var d := dir + [Part(key)];
      LevelsExtend(d, Tail(key), i - 1);
      assert dir <= d;
    }
  }

  // Some directory holds the key below the first level, or its characters name a partition.
  ghost predicate Reachable(t: Tree, dir: Path, key: Name)
    requires ValidUtf8(key)
  {
    Level(dir, key, NumChars(key)) in t || exists i :: 1 <= i < NumChars(key) && SlotAt(dir, key, i) in t
  }

  // Levels and slots of the key, and those of its tail one level down.
  lemma LevelsShift(dir: Path, key: Name)
    requires KeyName(key)
    ensures var d, rest, n := dir + [Part(key)], Tail(key), NumChars(key);
            && ValidUtf8(rest) && n == 1 + NumChars(rest)
            && (Single(key) <==> n == 1) && n >= 1
            && Level(dir, key, n) == Level(d, rest, n - 1)
            && Level(d, rest, 0) == d && SlotAt(d, rest, 0) == d + [rest]
            && forall i :: 1 <= i < n ==> SlotAt(dir, key, i) == SlotAt(d, rest, i - 1)
  {}

  lemma PrefixIn(t: Tree, p: Path, d: Path)
    requires Closed(t) && p in t && d <= p
    ensures d in t
  {
    assert p[..|d|] == d;
  }

  // No level from the second up to level m - 1 holds the key.
  ghost predicate NoSlot(t: Tree, dir: Path, key: Name, m: int) {
    forall i :: 1 <= i < m ==> SlotAt(dir, key, i) !in t
  }

  // The characters of the key name a partition directory, and no level above it holds the key.
  ghost predicate NamesPartition(t: Tree, dir: Path, key: Name)
    requires ValidUtf8(key)
  {
    Level(dir, key, NumChars(key)) in t && NoSlot(t, dir, key, NumChars(key))
  }

  // p is the first level below the top one that holds the key.
  ghost predicate FirstSlot(t: Tree, dir: Path, key: Name, p: Path)
    requires ValidUtf8(key)
  {
    p in t && exists i :: 1 <= i < NumChars(key) && p == SlotAt(dir, key, i) && NoSlot(t, dir, key, i)
  }

  lemma NoSlotShift(t: Tree, dir: Path, key: Name, m: nat)
    requires KeyName(key) && 1 <= m <= NumChars(key)
    ensures var d := dir + [Part(key)];
            NoSlot(t, dir, key, m) <==> (m == 1 || d + [Tail(key)] !in t) && NoSlot(t, d, Tail(key), m - 1)
  {
    hide KeyName, Level, SlotAt, NumChars, ValidUtf8;
    LevelsShift(dir, key);
    var d, rest := dir + [Part(key)], Tail(key);
    if NoSlot(t, dir, key, m) {
      forall i | 1 <= i < m - 1 ensures SlotAt(d, rest, i) !in t { assert SlotAt(dir, key, i + 1) !in t; }
      assert m > 1 ==> SlotAt(dir, key, 1) !in t;
    }
    if (m == 1 || d + [rest] !in t) && NoSlot(t, d, rest, m - 1) {
      forall i | 1 <= i < m ensures SlotAt(dir, key, i) !in t { assert i > 1 ==> SlotAt(d, rest, i - 1) !in t; }
    }
  }

  lemma FirstSlotShift(t: Tree, dir: Path, key: Name, p: Path)
    requires KeyName(key) && !Single(key)
    ensures var d := dir + [Part(key)];
            && (d + [Tail(key)] in t ==> FirstSlot(t, dir, key, d + [Tail(key)]))
            && (d + [Tail(key)] !in t && ValidUtf8(Tail(key)) && FirstSlot(t, d, Tail(key), p)
                ==> FirstSlot(t, dir, key, p))
  {
    hide KeyName, Level, SlotAt, NumChars, ValidUtf8, NoSlot;
    LevelsShift(dir, key);
    var d, rest := dir + [Part(key)], Tail(key);
    NoSlotShift(t, dir, key, 1);
    NoSlotOne(t, d, rest);
    assert d + [rest] == SlotAt(dir, key, 1);
    if d + [rest] !in t && FirstSlot(t, d, rest, p) {
      var i :| 1 <= i < NumChars(rest) && p == SlotAt(d, rest, i) && NoSlot(t, d, rest, i);
      NoSlotShift(t, dir, key, i + 1);
      assert p == SlotAt(dir, key, i + 1);
    }
  }

  lemma NoSlotOne(t: Tree, dir: Path, key: Name)
    ensures NoSlot(t, dir, key, 0) && NoSlot(t, dir, key, 1)
  {}

  // In any closed tree the look-up returns the first level below the top that holds the key; else
  // the partition directory that the key's characters name; else nothing.
  lemma {:induction false} FindExactly(t: Tree, dir: Path, key: Name)
    requires Closed(t) && KeyName(key)
    ensures match Find(t, dir, key)
            case None => NoSlot(t, dir, key, NumChars(key)) && Level(dir, key, NumChars(key)) !in t
            case Some(p) => if EndsHidden(p) then p == Level(dir, key, NumChars(key)) && NamesPartition(t, dir, key)
                            else FirstSlot(t, dir, key, p)
    decreases |key|
  {
    hide Level, NumChars, SlotAt, ValidUtf8, NoSlot, Closed, FirstSlot;
    TailIsKey(key);
    LevelsShift(dir, key);
    var d, rest, n := dir + [Part(key)], Tail(key), NumChars(key);
    NoSlotShift(t, dir, key, n);
    NoSlotOne(t, d, rest);
    if d !in t {
      NothingBelow(t, dir, key);
    } else if !Single(key) {
      KeyNotHidden(rest);
      FirstSlotShift(t, dir, key, if Find(t, d, rest).Some? then Find(t, d, rest).value else d);
      FindExactly(t, d, rest);
    }
  }

  // So a whole partition is found, and deleted, exactly under this condition.
  lemma PartitionFound(t: Tree, dir: Path, key: Name)
    requires Closed(t) && KeyName(key)
    ensures Find(t, dir, key).Some? && EndsHidden(Find(t, dir, key).value) <==> NamesPartition(t, dir, key)
  {
    hide Find, Level, SlotAt, NumChars, ValidUtf8, EndsHidden;
    FindExactly(t, dir, key);
  }

  lemma NothingBelow(t: Tree, dir: Path, key: Name)
    requires Closed(t) && KeyName(key) && dir + [Part(key)] !in t
    ensures NoSlot(t, dir, key, NumChars(key)) && Level(dir, key, NumChars(key)) !in t
  {
    hide Level, NumChars, SlotAt, ValidUtf8, Closed, Part, Tail;
    LevelsShift(dir, key);
    var d, rest, n := dir + [Part(key)], Tail(key), NumChars(key);
    forall i | 1 <= i < n ensures SlotAt(dir, key, i) !in t {
      LevelsExtend(d, rest, i - 1);
      Missing(t, SlotAt(d, rest, i - 1), d);
    }
    LevelsExtend(d, rest, n - 1);
    Missing(t, Level(d, rest, n - 1), d);
  }

  lemma Missing(t: Tree, p: Path, d: Path)
    requires Closed(t) && d !in t && d <= p
    ensures p !in t
  {
    if p in t { PrefixIn(t, p, d); }
  }

  // iKeyIsExists, for every limit.
  lemma KeyExistsExactly(t: Tree, dir: Path, key: Name, max: int)
    requires Closed(t) && KeyName(key)
    ensures Locate(t, dir, key, max).Some? <==> dir + [key] in t || (max > 0 && Reachable(t, dir, key))
  {
    hide Find, Level, SlotAt, NumChars, ValidUtf8;
    FindExactly(t, dir, key);
  }

  // ---------- deleting keys (iKeyDelete) ----------

  // In every store, whatever its history: a key delete removes the key's direct directory; else
  // the first level that holds it; else all keys below the partition directory that its characters
  // name; else nothing.
  lemma KeyDeleteExactly(t: Tree, dir: Path, key: Name, max: int, r: Path)
    requires Closed(t) && Shaped(t, dir) && KeyName(key) && r in t && Slot(dir, r)
    ensures r in KeyDelete(t, dir, key, max)
            <==> if dir + [key] in t then r != dir + [key]
                 else if max <= 0 then true
                 else if NamesPartition(t, dir, key) then !(Level(dir, key, NumChars(key)) <= r)
                 else !FirstSlot(t, dir, key, r)
  {
    hide Find, ValidUtf8, ShapeFrom, Level, NumChars, SlotAt, Shaped, Slot, Spell;
    LocatedShape(t, dir, key, max);
    var located := Locate(t, dir, key, max);
    if located.Some? && !EndsHidden(located.value) && located.value <= r {
      NothingBelowAKey(t, dir, located.value, r);
    }
    if dir + [key] !in t && max > 0 {
      FindExactly(t, dir, key);
      match Find(t, dir, key)
      case None => NoFirstSlot(t, dir, key, r);
      case Some(p) =>
        if EndsHidden(p) { NoFirstSlot(t, dir, key, r); } else { OneFirstSlot(t, dir, key, p, r); }
    }
  }

  lemma NoFirstSlot(t: Tree, dir: Path, key: Name, r: Path)
    requires KeyName(key) && NoSlot(t, dir, key, NumChars(key))
    ensures !FirstSlot(t, dir, key, r)
  {}

  lemma OneFirstSlot(t: Tree, dir: Path, key: Name, p: Path, r: Path)
    requires KeyName(key) && FirstSlot(t, dir, key, p)
    ensures !NamesPartition(t, dir, key) && (FirstSlot(t, dir, key, r) ==> r == p)
  {}

  // What is located exists below dir, and spells the key unless it is a partition directory.
  lemma LocatedShape(t: Tree, dir: Path, key: Name, max: int)
    requires KeyName(key)
    ensures match Locate(t, dir, key, max)
            case None => true
            case Some(p) => p in t && dir < p && (EndsHidden(p) || (Slot(dir, p) && Spell(p, |dir|) == key))
  {
    SlotHere(dir, key);
    if Locate(t, dir, key, max).Some? && dir + [key] !in t { FindShape(t, dir, key); }
  }

  // The shape this relies on is kept by every operation, key deletes included.
  lemma {:induction false} RunKeepsShape(t: Tree, dir: Path, max: int, policy: FullPolicy, ops: seq<KeyOp>)
    requires WellFormed(t) && Shaped(t, dir) && forall i :: 0 <= i < |ops| ==> ValidKeyOp(ops[i])
    ensures var t' := KeyRun(t, dir, max, policy, ops); WellFormed(t') && Shaped(t', dir)
    decreases |ops|
  {
    hide KeyStep, Shaped, WellFormed;
    if ops != [] {
      assert ValidKeyOp(ops[0]);
      StepKeepsShape(t, dir, max, policy, ops[0]);
      RunKeepsShape(KeyStep(t, dir, max, policy, ops[0]), dir, max, policy, ops[1..]);
    }
  }

  lemma StepKeepsShape(t: Tree, dir: Path, max: int, policy: FullPolicy, k: KeyOp)
    requires WellFormed(t) && Shaped(t, dir) && ValidKeyOp(k)
    ensures var t' := KeyStep(t, dir, max, policy, k); WellFormed(t') && Shaped(t', dir)
  {
    hide Put, Find, Closed, HiddenBare, KeyName, ShapeFrom, Place, PutAt, Delete, KeyDelete;
    match k
    case Basic(PutOp(key, a, v)) =>
      PutWellFormed(t, dir, key, a, v, max, policy);
      PutKeepsShaped(t, dir, max, policy, key, a, v);
    case Basic(DeleteOp(key, a)) =>
      KeyNotEmpty(key);
      DeleteSameDirectories(t, dir, key, a, max);
    case Basic(_) =>
    case RemoveKey(key) =>
      KeyNotEmpty(key);
      KeyDeleteWellFormed(t, dir, key, max);
      RemoveDirFewer(t, dir, key, max);
  }

  lemma KeyDeleteWellFormed(t: Tree, dir: Path, key: Name, max: int)
    requires WellFormed(t) && key != []
    ensures WellFormed(KeyDelete(t, dir, key, max))
  {
    hide WellFormed;
    match Locate(t, dir, key, max)
    case None =>
    case Some(p) => RemoveDirWellFormed(t, p);
  }

  lemma PutKeepsShaped(t: Tree, dir: Path, max: int, policy: FullPolicy, key: Name, attr: Name, value: Value)
    requires Shaped(t, dir) && KeyName(key)
    ensures Shaped(Put(t, dir, key, attr, value, max, policy).0, dir)
  {
    hide PutAt, Place, Shaped, Slot, ShapeFrom, Spell, KeyName;
    KeyNotEmpty(key);
    match Place(t, dir, key, max, policy)
    case Refused(_) =>
    case At(q) =>
      PlaceShape(t, dir, key, max, policy);
      assert Grown(t, PutAt(t, q, attr, value), q) by { PutAtEffect(t, q, attr, value); }
      PutKeepsShape(t, PutAt(t, q, attr, value), dir, q);
  }

  // As long as no key was deleted as a whole, that is: deleting a stored key removes that key and
  // no other; deleting a key that is not stored removes every key below the partition directory
  // its characters name, if there is one.
  lemma FirstKeyDelete(t: Tree, dir: Path, key: Name, max: int, r: Path)
    requires Inv(t, dir, max) && KeyName(key) && r in t && Slot(dir, r)
    ensures r in KeyDelete(t, dir, key, max)
            <==> if Absent(t, dir, key) then max <= 0 || !(Level(dir, key, NumChars(key)) <= r)
                 else Spell(r, |dir|) != key
  {
    hide Find, ValidUtf8, Fullness, ShapeFrom, HiddenBare, Level, NumChars, SlotAt;
    if Absent(t, dir, key) {
      AbsentKeyIsNotFound(t, dir, max, key);
      DeleteAbsent(t, dir, key, max, r);
    } else {
      var p :| p in t && Slot(dir, p) && Spell(p, |dir|) == key;
      StoredKeyIsFound(t, dir, max, Ignored, key, p);
      assert Locate(t, dir, key, max) == Some(p);
      if p <= r { NothingBelowAKey(t, dir, p, r); }
    }
  }

  lemma DeleteAbsent(t: Tree, dir: Path, key: Name, max: int, r: Path)
    requires Closed(t) && KeyName(key) && r in t && dir + [key] !in t
    requires Find(t, dir, key).None? || EndsHidden(Find(t, dir, key).value)
    ensures r in KeyDelete(t, dir, key, max) <==> max <= 0 || !(Level(dir, key, NumChars(key)) <= r)
  {
    var d := Level(dir, key, NumChars(key));
    FindExactly(t, dir, key);
    hide Find, KeyName, Level, SlotAt, EndsHidden;
    if max > 0 && Find(t, dir, key).None? && |d| <= |r| {
      var h := r[..|d|];
      assert h in t;
      assert d <= r ==> d == h;
    }
  }

  lemma NothingBelowAKey(t: Tree, dir: Path, p: Path, r: Path)
    requires Shaped(t, dir) && r in t && Slot(dir, p) && Slot(dir, r) && p <= r
    ensures p == r
  {}

  // ---------- how long a write can be read back ----------

  // One call on a literal directory, with the limit and policy of the moment.
  datatype Call = Call(dir: Path, op: KeyOp, max: int, policy: FullPolicy)

  function KeyOf(k: KeyOp): Name {
    match k
    case Basic(op) => op.key
    case RemoveKey(key) => key
  }

  predicate ValidCall(c: Call) { Plain(c.dir) && ValidKeyOp(c.op) }

  function CallStep(t: Tree, c: Call): Tree
    requires ValidCall(c)
  {
    KeyStep(t, c.dir, c.max, c.policy, c.op)
  }

  // The directory a value is read from.
  function Holder(t: Tree, dir: Path, key: Name, attr: Name, max: int): Option<Path>
    requires key != []
  {
    if Attr(t, dir + [key], attr).Some? then Some(dir + [key])
    else if max > 0 && Find(t, dir, key).Some? && Attr(t, Find(t, dir, key).value, attr).Some? then Find(t, dir, key)
    else None
  }

  // The call leaves the value alone: it neither writes nor deletes this attribute of this key; if
  // it writes another attribute of the key, then not into a new directory below the first level;
  // and if it deletes a whole key, then not the directory the value is in or one above it.
  predicate Spares(t: Tree, c: Call, dir: Path, key: Name, attr: Name, max: int)
    requires ValidCall(c) && key != []
  {
    match c.op
    case Basic(PutOp(k, a, _)) =>
      (c.dir, k) != (dir, key)
      || (a != attr && OpensNothing(t, dir, key, Place(t, dir, key, c.max, c.policy)))
    case Basic(DeleteOp(k, a)) => (c.dir, k, a) != (dir, key, attr)
    case Basic(_) => true
    case RemoveKey(k) =>
      match Locate(t, c.dir, k, c.max)
      case None => true
      case Some(p) =>
        match Holder(t, dir, key, attr, max)
        case None => true
        case Some(w) => !(p <= w)
  }

  predicate OpensNothing(t: Tree, dir: Path, key: Name, place: Placement) {
    match place
    case Refused(_) => true
    case At(q) => q in t || q == dir + [key]
  }

  predicate AllSpare(t: Tree, calls: seq<Call>, dir: Path, key: Name, attr: Name, max: int)
    requires key != [] && forall i :: 0 <= i < |calls| ==> ValidCall(calls[i])
    decreases |calls|
  {
    calls == [] ||
    (assert ValidCall(calls[0]);
     Spares(t, calls[0], dir, key, attr, max) && AllSpare(CallStep(t, calls[0]), calls[1..], dir, key, attr, max))
  }

  function CallRun(t: Tree, calls: seq<Call>): Tree
    requires forall i :: 0 <= i < |calls| ==> ValidCall(calls[i])
    decreases |calls|
  {
    if calls == [] then t else
      assert ValidCall(calls[0]);
      CallRun(CallStep(t, calls[0]), calls[1..])
  }

  // Removing an attribute of one key is invisible under any other key.
  lemma DeleteOtherKeys(t: Tree, dir: Path, key: Name, attr: Name, max: int, dir2: Path, key2: Name, attr2: Name, max2: int)
    requires WellFormed(t) && Plain(dir) && Plain(dir2) && KeyName(key) && KeyName(key2)
    requires (dir, key) != (dir2, key2)
    ensures Get(Delete(t, dir, key, attr, max).0, dir2, key2, attr2, max2) == Get(t, dir2, key2, attr2, max2)
  {
    if Locate(t, dir, key, max).Some? {
      var p := Locate(t, dir, key, max).value;
      SlotHere(dir, key);
      if dir + [key] !in t { FindShape(t, dir, key); }
      if EndsHidden(p) {
        assert Unlink(t, p, attr) == t;
      } else {
        if Slot(dir2, p) { SlotBelongsTo(dir, dir2, p); }
        UnlinkElsewhere(t, p, attr, dir2, key2, attr2, max2);
      }
    }
  }

  lemma UnlinkElsewhere(t: Tree, p: Path, attr: Name, dir: Path, key: Name, attr2: Name, max: int)
    requires HiddenBare(t) && KeyName(key) && p in t && !EndsHidden(p)
    requires !(Slot(dir, p) && Spell(p, |dir|) == key)
    ensures Get(Unlink(t, p, attr), dir, key, attr2, max) == Get(t, dir, key, attr2, max)
  {
    var t' := Unlink(t, p, attr);
    SlotHere(dir, key);
    UnlinkEffect(t, p, attr);
    FindSameDirectories(t, t', dir, key);
    FoundAttr(t, t', p, dir, key, attr2);
  }

  lemma {:induction false} FindSameDirectories(t: Tree, t': Tree, dir: Path, key: Name)
    requires t'.Keys == t.Keys && key != []
    ensures Find(t', dir, key) == Find(t, dir, key)
    decreases |key|
  {
    if CharLen(key) > 0 && !Single(key) {
      FindSameDirectories(t, t', dir + [Part(key)], Tail(key));
    }
  }

  // Deleting another attribute of the same key leaves this one alone.
  lemma DeleteOtherAttribute(t: Tree, dir: Path, key: Name, attr: Name, max: int, attr2: Name, max2: int)
    requires WellFormed(t) && KeyName(key) && attr2 != attr
    ensures Get(Delete(t, dir, key, attr, max).0, dir, key, attr2, max2) == Get(t, dir, key, attr2, max2)
  {
    hide Find, KeyName, WellFormed;
    KeyNotEmpty(key);
    if Locate(t, dir, key, max).Some? {
      var p := Locate(t, dir, key, max).value;
      UnlinkEffect(t, p, attr);
      FindSameDirectories(t, Unlink(t, p, attr), dir, key);
    }
  }

  // After iDelete of an attribute, iGet still finds one exactly when the key has a direct directory
  // and another one below, which the delete does not reach, holds the attribute.
  lemma GetAfterDelete(t: Tree, dir: Path, key: Name, attr: Name, max: int)
    requires WellFormed(t) && KeyName(key)
    ensures Get(Delete(t, dir, key, attr, max).0, dir, key, attr, max)
            == if dir + [key] in t && max > 0 && Find(t, dir, key).Some?
               then Attr(t, Find(t, dir, key).value, attr) else None
  {
    KeyNotEmpty(key);
    if Locate(t, dir, key, max).Some? {
      var p := Locate(t, dir, key, max).value;
      UnlinkEffect(t, p, attr);
      FindSameDirectories(t, Unlink(t, p, attr), dir, key);
      if Find(t, dir, key).Some? { FoundIsNotDirect(t, dir, key); }
    }
  }

  lemma FoundIsNotDirect(t: Tree, dir: Path, key: Name)
    requires KeyName(key) && Find(t, dir, key).Some?
    ensures Find(t, dir, key).value != dir + [key]
  {
    FindShape(t, dir, key);
    KeyNotHidden(key);
  }

  // ---------- deleting whole keys ----------

  // The search takes the same way as long as the directory it ends in is there.
  lemma {:induction false} FindSurvives(t: Tree, p: Path, dir: Path, key: Name)
    requires Closed(t) && KeyName(key) && Find(t, dir, key).Some? && !(p <= Find(t, dir, key).value)
    ensures Find(RemoveDir(t, p), dir, key) == Find(t, dir, key)
    decreases |key|
  {
    FindBelow(t, dir, key);
    hide KeyName, Closed;
    TailIsKey(key);
    var d := dir + [Part(key)];
    NotAbove(p, d, Find(t, dir, key).value);
    if !Single(key) && d + [Tail(key)] !in t {
      FindSurvives(t, p, d, Tail(key));
    }
  }

  lemma NotAbove(p: Path, d: Path, q: Path)
    requires d <= q && !(p <= q)
    ensures !(p <= d)
  {}

  lemma FindBelow(t: Tree, dir: Path, key: Name)
    requires KeyName(key) && Find(t, dir, key).Some?
    ensures dir + [Part(key)] <= Find(t, dir, key).value
  {
    FindShape(t, dir, key);
    ExtendedPrefix(dir, Part(key), Find(t, dir, key).value);
  }

  // A search that finds nothing still finds nothing.
  lemma {:induction false} FindNothingLess(t: Tree, p: Path, dir: Path, key: Name)
    requires KeyName(key) && Find(t, dir, key).None?
    ensures Find(RemoveDir(t, p), dir, key).None?
    decreases |key|
  {
    hide KeyName;
    TailIsKey(key);
    if !Single(key) && dir + [Part(key)] in t {
      FindNothingLess(t, p, dir + [Part(key)], Tail(key));
    }
  }

  // A key delete is invisible under any key that keeps the directories it is looked for in: the
  // direct one and the one the search finds.
  lemma KeyDeleteOtherKeys(t: Tree, dir: Path, key: Name, max: int, dir2: Path, key2: Name, attr2: Name, max2: int)
    requires Closed(t) && KeyName(key) && KeyName(key2)
    requires match Locate(t, dir, key, max)
             case None => true
             case Some(p) => && !(p <= dir2 + [key2] && dir2 + [key2] in t)
                             && match Find(t, dir2, key2) case None => true case Some(q) => !(p <= q)
    ensures Get(KeyDelete(t, dir, key, max), dir2, key2, attr2, max2) == Get(t, dir2, key2, attr2, max2)
  {
    hide Find, KeyName, Closed;
    KeyNotEmpty(key);
    KeyNotEmpty(key2);
    match Locate(t, dir, key, max)
    case None =>
    case Some(p) =>
      match Find(t, dir2, key2)
      case None => FindNothingLess(t, p, dir2, key2);
      case Some(_) => FindSurvives(t, p, dir2, key2);
  }

  // In particular a key delete that takes a directory of the key itself, for other keys not below.
  lemma StoredKeyDelete(t: Tree, dir: Path, key: Name, max: int, dir2: Path, key2: Name, attr2: Name, max2: int)
    requires Closed(t) && Plain(dir) && Plain(dir2) && KeyName(key) && KeyName(key2) && (dir, key) != (dir2, key2)
    requires match Locate(t, dir, key, max) case None => true case Some(p) => !EndsHidden(p) && !(p <= dir2)
    ensures Get(KeyDelete(t, dir, key, max), dir2, key2, attr2, max2) == Get(t, dir2, key2, attr2, max2)
  {
    hide Find, KeyName, Closed, Spell;
    KeyNotEmpty(key);
    KeyNotEmpty(key2);
    LocatedShape(t, dir, key, max);
    if Locate(t, dir, key, max).Some? {
      var p := Locate(t, dir, key, max).value;
      if Slot(dir2, p) { SlotBelongsTo(dir, dir2, p); }
      SlotHere(dir2, key2);
      AboveSlot(dir2, dir2 + [key2], p);
      if Find(t, dir2, key2).Some? {
        var q := Find(t, dir2, key2).value;
        FindShape(t, dir2, key2);
        if EndsHidden(q) { FoundHidden(t, dir2, key2); }
        AboveSlot(dir2, q, p);
      }
    }
    KeyDeleteOtherKeys(t, dir, key, max, dir2, key2, attr2, max2);
  }

  // A directory that ends without a dot is above one of a key of dir only from outside, or is it.
  lemma AboveSlot(dir: Path, q: Path, p: Path)
    requires p != [] && !EndsHidden(p) && dir < q
    requires Slot(dir, q) || forall j :: |dir| <= j < |q| ==> Hidden(q[j])
    ensures p <= q ==> p <= dir || (p == q && Slot(dir, p))
  {
    hide Hidden;
    if p <= q {
      if |p| <= |dir| {
        assert p == dir[..|p|];
      } else {
        assert q[|p| - 1] == p[|p| - 1];
      }
    }
  }

  lemma {:induction false} FoundHidden(t: Tree, dir: Path, key: Name)
    requires KeyName(key) && Find(t, dir, key).Some? && EndsHidden(Find(t, dir, key).value)
    ensures var q := Find(t, dir, key).value; forall j :: |dir| <= j < |q| ==> Hidden(q[j])
    decreases |key|
  {
    hide KeyName, Slot, ShapeFrom, Spell, Tail, Part, PartName;
    TailIsKey(key);
    PartIsHidden(Part(key));
    FindShape(t, dir, key);
    var d := dir + [Part(key)];
    if !Single(key) {
      KeyNotHidden(Tail(key));
      FoundHidden(t, d, Tail(key));
      assert |d| == |dir| + 1;
    }
  }

  // A key delete elsewhere keeps the value.
  lemma RemoveKeepsValue(t: Tree, p: Path, dir: Path, key: Name, attr: Name, max: int)
    requires Closed(t) && KeyName(key) && Holder(t, dir, key, attr, max).Some?
    requires !(p <= Holder(t, dir, key, attr, max).value)
    ensures Get(RemoveDir(t, p), dir, key, attr, max) == Get(t, dir, key, attr, max)
  {
    hide Find, KeyName, Closed;
    KeyNotEmpty(key);
    if Attr(t, dir + [key], attr).None? { FindSurvives(t, p, dir, key); }
  }

  lemma CallKeeps(t: Tree, c: Call, dir: Path, key: Name, attr: Name, max: int)
    requires WellFormed(t) && ValidCall(c) && Plain(dir) && KeyName(key)
    requires Get(t, dir, key, attr, max).Some? && Spares(t, c, dir, key, attr, max)
    ensures WellFormed(CallStep(t, c))
    ensures Get(CallStep(t, c), dir, key, attr, max) == Get(t, dir, key, attr, max)
  {
    hide Place, Find, KeyName, Closed, HiddenBare, Attr, PutAt, RemoveDir, Unlink, Plain;
    KeyNotEmpty(KeyOf(c.op));
    KeyNotEmpty(key);
    match c.op
    case Basic(PutOp(k, a, v)) =>
      PutWellFormed(t, c.dir, k, a, v, c.max, c.policy);
      if (c.dir, k) != (dir, key) {
        OtherKeysUnchanged(t, c.dir, k, a, v, c.max, c.policy, dir, key, attr, max);
      } else if Place(t, dir, key, c.max, c.policy).At? {
        SameKeyOtherAttribute(t, dir, key, a, v, c.max, c.policy, attr, max);
      }
    case Basic(DeleteOp(k, a)) =>
      DeleteSameDirectories(t, c.dir, k, a, c.max);
      if (c.dir, k) != (dir, key) {
        DeleteOtherKeys(t, c.dir, k, a, c.max, dir, key, attr, max);
      } else {
        DeleteOtherAttribute(t, dir, key, a, c.max, attr, max);
      }
    case Basic(_) =>
    case RemoveKey(k) =>
      KeyDeleteWellFormed(t, c.dir, k, c.max);
      if Locate(t, c.dir, k, c.max).Some? {
        RemoveKeepsValue(t, Locate(t, c.dir, k, c.max).value, dir, key, attr, max);
      }
  }

  // In any well-formed tree: after an accepted put the value is still read back whatever is then
  // put, got, deleted or tested under other keys, under other attributes of the same key, and
  // whatever whole keys are deleted, with whatever limits and policies, as far as Spares allows.
  lemma {:induction false} WriteSurvives(t: Tree, dir: Path, key: Name, attr: Name, value: Value, max: int,
                                         policy: FullPolicy, calls: seq<Call>)
    requires WellFormed(t) && Plain(dir) && KeyName(key) && Put(t, dir, key, attr, value, max, policy).1 == 0
    requires forall i :: 0 <= i < |calls| ==> ValidCall(calls[i])
    requires AllSpare(Put(t, dir, key, attr, value, max, policy).0, calls, dir, key, attr, max)
    ensures Get(CallRun(Put(t, dir, key, attr, value, max, policy).0, calls), dir, key, attr, max) == Some(value)
  {
    var t' := Put(t, dir, key, attr, value, max, policy).0;
    PutWellFormed(t, dir, key, attr, value, max, policy);
    GetAfterPut(t, dir, key, attr, value, max, policy);
    RunKeeps(t', calls, dir, key, attr, max);
  }

  lemma {:induction false} RunKeeps(t: Tree, calls: seq<Call>, dir: Path, key: Name, attr: Name, max: int)
    requires WellFormed(t) && Plain(dir) && KeyName(key) && Get(t, dir, key, attr, max).Some?
    requires forall i :: 0 <= i < |calls| ==> ValidCall(calls[i])
    requires AllSpare(t, calls, dir, key, attr, max)
    ensures Get(CallRun(t, calls), dir, key, attr, max) == Get(t, dir, key, attr, max)
    decreases |calls|
  {
    hide Get, WellFormed, KeyName, Plain, CallStep, Spares;
    KeyNotEmpty(key);
    if calls != [] {
      assert ValidCall(calls[0]);
      CallKeeps(t, calls[0], dir, key, attr, max);
      RunKeeps(CallStep(t, calls[0]), calls[1..], dir, key, attr, max);
    }
  }
}
