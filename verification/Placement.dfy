/**
 Where a put goes (iFindKeyDirToPut, src/idb_helpers.c:266-352), said in terms of the directories
 alone: which ones exist and how many keys each of them has.
 */
module Placement {
  import opened Bytes
  import opened Utf8
  import opened PartitionTree
  import opened AnyTree
  import opened Refinement
  import opened Runs

  // Level i takes the key: it holds it already, does not exist yet, or has fewer keys than the
  // limit. A limit of zero or less is none.
  ghost predicate Takes(t: Tree, dir: Path, key: Name, max: int, i: nat) {
    var d := Level(dir, key, i);
    SlotAt(dir, key, i) in t || max <= 0 || d !in t || |Children(t, d)| < max
  }

  ghost predicate NoneTakes(t: Tree, dir: Path, key: Name, max: int, n: int) {
    forall i :: 0 <= i < n ==> !Takes(t, dir, key, max, i)
  }

  // The first level that takes the key.
  ghost predicate FirstTaker(t: Tree, dir: Path, key: Name, max: int, q: Path, n: int) {
    exists i :: 0 <= i < n && q == SlotAt(dir, key, i) && Takes(t, dir, key, max, i) && NoneTakes(t, dir, key, max, i)
  }

  lemma FullIs(t: Tree, d: Path, max: int)
    ensures Full(t, d, max) <==> max > 0 && d in t && |Children(t, d)| >= max
  {}

  lemma TakesShift(t: Tree, dir: Path, key: Name, max: int, i: nat)
    requires KeyName(key) && i < NumChars(Tail(key))
    ensures Takes(t, dir, key, max, i + 1) <==> Takes(t, dir + [Part(key)], Tail(key), max, i)
  {}

  lemma NoneTakesShift(t: Tree, dir: Path, key: Name, max: int, n: nat)
    requires KeyName(key) && 1 <= n <= NumChars(key)
    ensures NoneTakes(t, dir, key, max, n)
            <==> !Takes(t, dir, key, max, 0) && NoneTakes(t, dir + [Part(key)], Tail(key), max, n - 1)
  {
    hide Takes, KeyName, NumChars, Level, SlotAt, ValidUtf8;
    LevelsShift(dir, key);
    var d, rest := dir + [Part(key)], Tail(key);
    forall i | 0 <= i < n - 1 ensures Takes(t, dir, key, max, i + 1) <==> Takes(t, d, rest, max, i) {
      TakesShift(t, dir, key, max, i);
    }
    if !Takes(t, dir, key, max, 0) && NoneTakes(t, d, rest, max, n - 1) {
      forall i | 0 <= i < n ensures !Takes(t, dir, key, max, i) {
        assert i > 0 ==> !Takes(t, d, rest, max, i - 1);
      }
    }
  }

  lemma FirstTakerShift(t: Tree, dir: Path, key: Name, max: int, q: Path)
    requires KeyName(key) && !Takes(t, dir, key, max, 0)
    ensures FirstTaker(t, dir + [Part(key)], Tail(key), max, q, NumChars(key) - 1)
            ==> FirstTaker(t, dir, key, max, q, NumChars(key))
  {
    hide Takes, NumChars, NoneTakes, Level, ValidUtf8;
    LevelsShift(dir, key);
    var d, rest, n := dir + [Part(key)], Tail(key), NumChars(key);
    if FirstTaker(t, d, rest, max, q, n - 1) {
      var i :| 0 <= i < n - 1 && q == SlotAt(d, rest, i) && Takes(t, d, rest, max, i) && NoneTakes(t, d, rest, max, i);
      TakesShift(t, dir, key, max, i);
      NoneTakesShift(t, dir, key, max, i + 1);
      assert q == SlotAt(dir, key, i + 1);
    }
  }

  lemma TopTakes(t: Tree, dir: Path, key: Name, max: int)
    ensures Takes(t, dir, key, max, 0) <==> dir + [key] in t || !Full(t, dir, max)
    ensures NoneTakes(t, dir, key, max, 0)
    ensures Takes(t, dir, key, max, 0) ==> forall n :: n > 0 ==> FirstTaker(t, dir, key, max, dir + [key], n)
  {
    assert SlotAt(dir, key, 0) == dir + [key];
  }

  lemma SlotTop(dir: Path, key: Name)
    ensures SlotAt(dir, key, 0) == dir + [key]
  {}

  lemma PlaceStep(t: Tree, dir: Path, key: Name, max: int, policy: FullPolicy)
    requires KeyName(key)
    ensures Place(t, dir, key, max, policy)
            == if dir + [key] in t || !Full(t, dir, max) then At(dir + [key])
               else if Single(key) then (if policy.Ignored? then At(dir + [key]) else Refused(-100))
               else Place(t, dir + [Part(key)], Tail(key), max, policy)
  {
    hide Full;
    TailIsKey(key);
  }

  // The key goes to the first of its levels that takes it. If none does, the lenient policy puts
  // the last character into the last level, and the strict one refuses the put.
  lemma {:induction false} PlaceExactly(t: Tree, dir: Path, key: Name, max: int, policy: FullPolicy)
    requires KeyName(key)
    ensures var n := NumChars(key);
            match Place(t, dir, key, max, policy)
            case At(q) => FirstTaker(t, dir, key, max, q, n)
                          || (policy.Ignored? && NoneTakes(t, dir, key, max, n) && q == SlotAt(dir, key, n - 1))
            case Refused(errno) => policy.Stopped? && NoneTakes(t, dir, key, max, n) && errno == -100
    decreases |key|
  {
    hide Full, Takes, FirstTaker, NoneTakes, NumChars, ValidUtf8, Place, SlotAt, Level, Part, Tail;
    TailIsKey(key);
    LevelsShift(dir, key);
    PlaceStep(t, dir, key, max, policy);
    TopTakes(t, dir, key, max);
    var n := NumChars(key);
    if !Takes(t, dir, key, max, 0) {
      NoneTakesShift(t, dir, key, max, n);
      var d, rest := dir + [Part(key)], Tail(key);
      TopTakes(t, d, rest, max);
      if Single(key) {
        assert SlotAt(dir, key, n - 1) == dir + [key] by { SlotTop(dir, key); }
      } else {
        PlaceExactly(t, d, rest, max, policy);
        match Place(t, d, rest, max, policy)
        case At(q) => FirstTakerShift(t, dir, key, max, q);
        case Refused(_) =>
      }
    }
  }

  // A key without a directory goes right into dir as long as that has room.
  lemma GoesToTheTop(t: Tree, dir: Path, key: Name, max: int, policy: FullPolicy)
    requires key != [] && (dir !in t || max <= 0 || |Children(t, dir)| < max)
    ensures Place(t, dir, key, max, policy) == At(dir + [key])
  {}

  // A key that is not UTF-8 is refused where a full level would have to be passed.
  lemma InvalidKeyRefused(t: Tree, dir: Path, key: Name, max: int, policy: FullPolicy)
    requires key != [] && dir + [key] !in t && dir in t && 0 < max <= |Children(t, dir)|
    requires forall uc :: CodepointValid(uc) ==> !(Encode(uc) <= key)
    ensures Place(t, dir, key, max, policy) == Refused(-3)
  {
    if Decode(key).Some? { DecodeSound(key); }
  }

  // Without a limit every path is literal.
  lemma NoLimitIsLiteral(t: Tree, dir: Path, key: Name, attr: Name, max: int, policy: FullPolicy)
    requires key != [] && max <= 0
    ensures Place(t, dir, key, max, policy) == At(dir + [key])
    ensures Get(t, dir, key, attr, max) == Attr(t, dir + [key], attr)
    ensures Locate(t, dir, key, max) == if dir + [key] in t then Some(dir + [key]) else None
  {}

  // After every run, the levels above a stored key have as many keys as the limit says, or more.
  lemma LevelsAboveAreFull(t: Tree, dir: Path, max: int, policy: FullPolicy, ops: seq<Op>, p: Path, j: nat)
    requires Inv(t, dir, max) && forall i :: 0 <= i < |ops| ==> ValidOp(ops[i])
    requires var t' := Run(t, dir, max, policy, ops).0; p in t' && Slot(dir, p) && |dir| <= j < |p| - 1
    ensures var t' := Run(t, dir, max, policy, ops).0; p[..j] in t' && |Children(t', p[..j])| >= max > 0
  {
    hide Run, Shaped, Unique, Full, WellFormed, Contents, MapRun, Slot;
    RunRefines(t, dir, max, policy, ops);
    FullIs(Run(t, dir, max, policy, ops).0, p[..j], max);
  }
}
