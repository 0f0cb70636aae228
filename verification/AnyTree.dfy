/**
 What a put does to any tree, however it came about: duplicates, earlier key deletes and a page
 limit changed between calls are all allowed.
 */
module AnyTree {
  import opened Bytes
  import opened Utf8
  import opened PartitionTree

  // ---------- the directory a put chooses ----------

  // A placed key is a slot spelling that key, reached through full levels only.
  lemma {:induction false} PlaceShape(t: Tree, dir: Path, key: Name, max: int, policy: FullPolicy)
    requires KeyName(key) && Place(t, dir, key, max, policy).At?
    ensures var q := Place(t, dir, key, max, policy).path;
            && Slot(dir, q) && ShapeFrom(q, |dir|) && Spell(q, |dir|) == key
    decreases |key|
  {
    SlotHere(dir, key);
    if !(dir + [key] in t || !Full(t, dir, max) || Single(key)) {
      TailIsKey(key);
      PlaceShape(t, dir + [Part(key)], Tail(key), max, policy);
      SlotBelow(dir, Part(key), Place(t, dir, key, max, policy).path);
    }
  }

  lemma {:induction false} PlaceLevels(t: Tree, dir: Path, key: Name, max: int, policy: FullPolicy)
    requires KeyName(key) && Place(t, dir, key, max, policy).At?
    ensures var q := Place(t, dir, key, max, policy).path;
            dir < q && (forall j :: |dir| <= j < |q| - 1 ==> Full(t, q[..j], max))
    decreases |key|
  {
    var q := Place(t, dir, key, max, policy).path;
    if !(dir + [key] in t || !Full(t, dir, max) || Single(key)) {
      TailIsKey(key);
      var d := dir + [Part(key)];
      PlaceLevels(t, d, Tail(key), max, policy);
      ExtendedPrefix(dir, Part(key), q);
      forall j | |dir| <= j < |q| - 1 ensures Full(t, q[..j], max) {
        if j == |dir| { assert q[..j] == dir; }
      }
    }
  }

  // The last level: it has room, or holds the key already, or a single character is forced in.
  lemma {:induction false} PlaceLast(t: Tree, dir: Path, key: Name, max: int, policy: FullPolicy)
    requires KeyName(key) && Place(t, dir, key, max, policy).At?
    ensures var q := Place(t, dir, key, max, policy).path;
            && q != [] && KeyName(q[|q| - 1])
            && (q in t || !Full(t, q[..|q| - 1], max) || (policy.Ignored? && Single(q[|q| - 1])))
    decreases |key|
  {
    if dir + [key] in t || !Full(t, dir, max) || Single(key) {
      var q := dir + [key];
      assert q[..|q| - 1] == dir && q[|q| - 1] == key;
    } else {
      TailIsKey(key);
      PlaceLast(t, dir + [Part(key)], Tail(key), max, policy);
    }
  }

  lemma {:induction false} FindShape(t: Tree, dir: Path, key: Name)
    requires KeyName(key) && Find(t, dir, key).Some?
    ensures var q := Find(t, dir, key).value;
            && q in t && dir < q && q[|dir|] == Part(key)
            && (EndsHidden(q) || (Slot(dir, q) && ShapeFrom(q, |dir|) && Spell(q, |dir|) == key))
    decreases |key|
  {
    TailIsKey(key);
    var d := dir + [Part(key)];
    var q := Find(t, dir, key).value;
    if !Single(key) {
      SlotHere(d, Tail(key));
      if d + [Tail(key)] !in t {
        FindShape(t, d, Tail(key));
      }
      ExtendedPrefix(dir, Part(key), q);
      if Slot(d, q) {
        SlotBelow(dir, Part(key), q);
      }
    }
  }

  // Places are refused for one reason only, and only by the strict policy.
  lemma {:induction false} PlaceRefusal(t: Tree, dir: Path, key: Name, max: int, policy: FullPolicy)
    requires KeyName(key) && Place(t, dir, key, max, policy).Refused?
    ensures policy.Stopped? && Place(t, dir, key, max, policy).errno == ERR_PART_FULL
    decreases |key|
  {
    TailIsKey(key);
    if !Single(key) {
      PlaceRefusal(t, dir + [Part(key)], Tail(key), max, policy);
    }
  }

  // ---------- the tree after a put ----------

  lemma PutAtEffect(t: Tree, p: Path, attr: Name, value: Value)
    ensures forall x :: x in PutAt(t, p, attr, value) <==> x in t || x <= p
    ensures forall x, b :: Attr(PutAt(t, p, attr, value), x, b)
                           == if x == p && b == attr then Some(value) else Attr(t, x, b)
  {
    forall x ensures x in Prefixes(p) <==> x <= p { PrefixesExactly(p, x); }
  }

  lemma PutAtWellFormed(t: Tree, p: Path, attr: Name, value: Value)
    requires WellFormed(t) && p != [] && !Hidden(p[|p| - 1])
    ensures WellFormed(PutAt(t, p, attr, value))
  {
    PutAtEffect(t, p, attr, value);
    var t' := PutAt(t, p, attr, value);
    forall x, i | x in t' && 0 <= i <= |x| ensures x[..i] in t' {
      assert x <= p ==> x[..i] <= p;
    }
  }

  lemma PutWellFormed(t: Tree, dir: Path, key: Name, attr: Name, value: Value, max: int, policy: FullPolicy)
    requires WellFormed(t) && KeyName(key)
    ensures WellFormed(Put(t, dir, key, attr, value, max, policy).0)
  {
    hide PutAt, WellFormed, Place, KeyName;
    KeyNotEmpty(key);
    if Place(t, dir, key, max, policy).At? {
      PlaceShape(t, dir, key, max, policy);
      PutAtWellFormed(t, Place(t, dir, key, max, policy).path, attr, value);
    }
  }

  lemma RemoveDirWellFormed(t: Tree, p: Path)
    requires WellFormed(t)
    ensures WellFormed(RemoveDir(t, p))
  {}

  // ---------- the shallowest directory ----------

  lemma {:induction false} SpellNonEmpty(p: Path, i: nat)
    requires SlotFrom(p, i) && ShapeFrom(p, i)
    ensures Spell(p, i) != []
    decreases |p| - i
  {}

  // A path that spells the key, but is not directly in dir, goes through the key's partition.
  lemma SpelledBelow(dir: Path, key: Name, p: Path)
    requires KeyName(key) && Slot(dir, p) && ShapeFrom(p, |dir|) && Spell(p, |dir|) == key && p != dir + [key]
    ensures var d := dir + [Part(key)];
            Slot(d, p) && ShapeFrom(p, |d|) && Spell(p, |d|) == Tail(key)
    ensures CharLen(key) > 0 && !Single(key) && KeyName(Tail(key)) && PartName(Part(key))
  {
    hide KeyName, PartName, CharLen;
    var h := p[|dir|];
    ExtendedPrefix(dir, h, p);
    assert |p| == |dir| + 1 ==> p == dir + [h];
    var rest := Spell(p, |dir| + 1);
    assert PartName(h);
    PartSplits(h, rest);
    SpellNonEmpty(p, |dir| + 1);
    TailIsKey(key);
  }

  // In any tree, a put never goes deeper than a directory that already spells its key: it takes
  // that one or a shallower one, and is never refused.
  lemma {:induction false} PlaceShallowest(t: Tree, dir: Path, key: Name, max: int, policy: FullPolicy, p: Path)
    requires KeyName(key) && p in t && Slot(dir, p) && ShapeFrom(p, |dir|) && Spell(p, |dir|) == key
    ensures var r := Place(t, dir, key, max, policy); r.At? && (r.path == p || |r.path| < |p|)
    decreases |key|
  {
    hide Slot, ShapeFrom, Spell, KeyName, Full, Tail, Part;
    KeyNotEmpty(key);
    if p != dir + [key] {
      SpelledBelow(dir, key, p);
      TailIsKey(key);
      PlaceShallowest(t, dir + [Part(key)], Tail(key), max, policy, p);
      SlotLonger(dir + [Part(key)], p);
    }
  }

  lemma SlotLonger(dir: Path, p: Path)
    requires Slot(dir, p)
    ensures |p| > |dir|
  {}

  // The look-up below the partitions returns such a directory too.
  lemma {:induction false} FindShallowest(t: Tree, dir: Path, key: Name, p: Path)
    requires Closed(t) && KeyName(key) && p in t && Slot(dir, p) && ShapeFrom(p, |dir|) && Spell(p, |dir|) == key
    requires p != dir + [key]
    ensures var r := Find(t, dir, key); r.Some? && (r.value == p || |r.value| < |p|)
    decreases |key|
  {
    SpelledBelow(dir, key, p);
    var d := dir + [Part(key)];
    assert p[..|d|] == d;
    hide Slot, ShapeFrom, Spell, KeyName;
    TailIsKey(key);
    if p != d + [Tail(key)] {
      FindShallowest(t, d, Tail(key), p);
      SpelledDeeper(d, Tail(key), p);
    }
  }

  lemma SpelledDeeper(dir: Path, key: Name, p: Path)
    requires KeyName(key) && Slot(dir, p) && ShapeFrom(p, |dir|) && Spell(p, |dir|) == key && p != dir + [key]
    ensures |p| > |dir| + 1
  {
    SpelledBelow(dir, key, p);
  }

  // ---------- read your writes ----------

  // The directories of t' are those of t and the ones on the way to q.
  ghost predicate Grown(t: Tree, t': Tree, q: Path) {
    forall x :: x in t' <==> x in t || x <= q
  }

  // The look-up walk, run after the directories for q were made, stops at q.
  lemma {:induction false} FindPlaced(t: Tree, t': Tree, dir: Path, key: Name, q: Path, max: int, policy: FullPolicy)
    requires KeyName(key) && Place(t, dir, key, max, policy) == At(q) && Grown(t, t', q)
    ensures q != dir + [key] ==> dir + [key] !in t' && Find(t', dir, key) == Some(q)
    decreases |key|
  {
    if q != dir + [key] {
      TailIsKey(key);
      KeyNotHidden(key);
      var d := dir + [Part(key)];
      PlaceShape(t, d, Tail(key), max, policy);
      ExtendedPrefix(dir, Part(key), q);
      ExtendedPrefix(dir, key, q);
      FindPlaced(t, t', d, Tail(key), q, max, policy);
    }
  }

  // In any tree, an accepted put can be read back at once.
  lemma GetAfterPut(t: Tree, dir: Path, key: Name, attr: Name, value: Value, max: int, policy: FullPolicy)
    requires KeyName(key) && Put(t, dir, key, attr, value, max, policy).1 == 0
    ensures Get(Put(t, dir, key, attr, value, max, policy).0, dir, key, attr, max) == Some(value)
  {
    if Place(t, dir, key, max, policy).Refused? {
      PlaceRefusal(t, dir, key, max, policy);
    } else {
      var q := Place(t, dir, key, max, policy).path;
      PutAtEffect(t, q, attr, value);
      FindPlaced(t, PutAt(t, q, attr, value), dir, key, q, max, policy);
      if max <= 0 { assert q == dir + [key]; }
    }
  }

  // ---------- other keys ----------

  // Making the directories for a slot q of a plain directory brings no new slot but q itself.
  lemma NewDirectories(dir: Path, q: Path, r: Path)
    requires Plain(dir) && Slot(dir, q) && r < q
    requires |r| >= 2 && Hidden(r[|r| - 2])
    ensures Hidden(r[|r| - 1])
  {}

  // One step of the walk towards a key other than the one stored at q meets no new directory
  // for the rest of the key.
  lemma StepOther(t: Tree, t': Tree, home: Path, q: Path, dir: Path, key: Name)
    requires Closed(t) && Plain(home) && Slot(home, q) && Grown(t, t', q)
    requires KeyName(key) && !Single(key) && !(Slot(dir, q) && Spell(q, |dir|) == key)
    ensures var d := dir + [Part(key)];
            && (d + [Tail(key)] in t' <==> d + [Tail(key)] in t)
            && !(Slot(d, q) && Spell(q, |d|) == Tail(key))
  {
    TailIsKey(key);
    KeyNotHidden(Tail(key));
    var d := dir + [Part(key)];
    var s := d + [Tail(key)];
    ExtendedPrefix(d, Tail(key), s);
    assert s[|s| - 2] == Part(key);
    if s < q {
      NewDirectories(home, q, s);
    }
    if Slot(d, q) && Spell(q, |d|) == Tail(key) {
      SlotBelow(dir, Part(key), q);
    }
    assert Slot(d, s) && Spell(s, |d|) == Tail(key);
  }

  // Nothing is found below a directory that does not exist.
  lemma FindNothing(t: Tree, dir: Path, key: Name)
    requires Closed(t) && dir !in t && key != []
    ensures Find(t, dir, key).None?
    ensures dir + [key] !in t
  {
    var d := dir + [Part(key)];
    assert d[..|dir|] == dir && (dir + [key])[..|dir|] == dir;
  }

  // A look-up that does not spell q gives what it gave before, or an empty partition directory
  // in place of nothing.
  lemma {:induction false} FindOther(t: Tree, t': Tree, home: Path, q: Path, dir: Path, key: Name)
    requires Closed(t) && Plain(home) && Slot(home, q) && Grown(t, t', q)
    requires KeyName(key) && !(Slot(dir, q) && Spell(q, |dir|) == key)
    ensures var before, after := Find(t, dir, key), Find(t', dir, key);
            after == before || (before.None? && after.Some? && EndsHidden(after.value))
    decreases |key|
  {
    TailIsKey(key);
    var d := dir + [Part(key)];
    if d in t' && !Single(key) {
      StepOther(t, t', home, q, dir, key);
      FindOther(t, t', home, q, d, Tail(key));
      if d !in t {
        FindNothing(t, d, Tail(key));
      }
    }
  }

  // A slot of a plain directory belongs to no other plain directory.
  lemma SlotBelongsTo(dir: Path, dir2: Path, q: Path)
    requires Plain(dir) && Plain(dir2) && Slot(dir, q) && Slot(dir2, q)
    ensures dir == dir2
  {
    var next, next2 := q[|dir|], q[|dir2|];
    assert forall k :: 0 <= k < |dir2| ==> dir2[k] == q[k];
    assert forall k :: 0 <= k < |dir| ==> dir[k] == q[k];
  }

  // In any well-formed tree, a put changes no other key, at whatever level of the hierarchy.
  lemma OtherKeysUnchanged(t: Tree, dir: Path, key: Name, attr: Name, value: Value, max: int, policy: FullPolicy,
                           dir2: Path, key2: Name, attr2: Name, max2: int)
    requires WellFormed(t) && Plain(dir) && Plain(dir2) && KeyName(key) && KeyName(key2)
    requires (dir2, key2) != (dir, key)
    ensures Get(Put(t, dir, key, attr, value, max, policy).0, dir2, key2, attr2, max2) == Get(t, dir2, key2, attr2, max2)
  {
    if Place(t, dir, key, max, policy).At? {
      var q := Place(t, dir, key, max, policy).path;
      PlaceShape(t, dir, key, max, policy);
      if Slot(dir2, q) {
        SlotBelongsTo(dir, dir2, q);
      }
      GetOther(t, dir, q, attr, value, dir2, key2, attr2, max2);
    }
  }

  lemma GetOther(t: Tree, home: Path, q: Path, attr: Name, value: Value, dir: Path, key: Name, attr2: Name, max: int)
    requires WellFormed(t) && Plain(home) && Slot(home, q)
    requires KeyName(key) && !(Slot(dir, q) && Spell(q, |dir|) == key)
    ensures Get(PutAt(t, q, attr, value), dir, key, attr2, max) == Get(t, dir, key, attr2, max)
  {
    var t' := PutAt(t, q, attr, value);
    PutAtEffect(t, q, attr, value);
    PutAtWellFormed(t, q, attr, value);
    SlotHere(dir, key);
    hide PartName;
    FindOther(t, t', home, q, dir, key);
    FoundAttr(t, t', q, dir, key, attr2);
  }

  lemma FoundAttr(t: Tree, t': Tree, q: Path, dir: Path, key: Name, attr: Name)
    requires KeyName(key) && !(Slot(dir, q) && Spell(q, |dir|) == key) && !EndsHidden(q)
    requires HiddenBare(t') && forall x :: x != q ==> Attr(t', x, attr) == Attr(t, x, attr)
    requires var before, after := Find(t, dir, key), Find(t', dir, key);
             after == before || (before.None? && after.Some? && EndsHidden(after.value))
    ensures var before, after := Find(t, dir, key), Find(t', dir, key);
            (if after.Some? then Attr(t', after.value, attr) else None)
            == if before.Some? then Attr(t, before.value, attr) else None
  {
    if Find(t, dir, key).Some? {
      FindShape(t, dir, key);
    }
  }

  // The other attributes of the same key survive exactly unless the put opens a new directory
  // below the first level: that directory then hides the one they are in.
  lemma SameKeyOtherAttribute(t: Tree, dir: Path, key: Name, attr: Name, value: Value, max: int, policy: FullPolicy,
                              attr2: Name, max2: int)
    requires WellFormed(t) && Plain(dir) && KeyName(key) && attr2 != attr
    requires Place(t, dir, key, max, policy).At?
    ensures var q := Place(t, dir, key, max, policy).path;
            Get(Put(t, dir, key, attr, value, max, policy).0, dir, key, attr2, max2)
            == if q !in t && q != dir + [key] then None else Get(t, dir, key, attr2, max2)
  {
    hide PutAt, KeyName, Plain, Children, ValidUtf8;
    KeyNotEmpty(key);
    KeyNotHidden(key);
    var q := Place(t, dir, key, max, policy).path;
    var t' := PutAt(t, q, attr, value);
    PutAtEffect(t, q, attr, value);
    FindPlaced(t, t', dir, key, q, max, policy);
    assert max <= 0 ==> q == dir + [key];
    if q == dir + [key] {
      FindBelowHidden(t, t', dir, key, q);
    } else if q in t {
      forall x ensures x in t <==> x in t || x <= q { assert q[..|q|] == q; assert x <= q ==> x == q[..|x|]; }
      FindPlaced(t, t, dir, key, q, max, policy);
    }
  }

  // Creating the direct directory of a key does not disturb the search below the partitions.
  lemma {:induction false} FindBelowHidden(t: Tree, t': Tree, dir: Path, key: Name, q: Path)
    requires Grown(t, t', q) && |q| == |dir| + 1 && KeyName(key) && !Hidden(q[|dir|])
    ensures Find(t', dir, key) == Find(t, dir, key)
    decreases |key|
  {
    TailIsKey(key);
    var d := dir + [Part(key)];
    ExtendedPrefix(dir, Part(key), q);
    if !Single(key) {
      ExtendedPrefix(d, Tail(key), q);
      FindLonger(t, t', d, Tail(key), q);
    }
  }

  lemma {:induction false} FindLonger(t: Tree, t': Tree, dir: Path, key: Name, q: Path)
    requires Grown(t, t', q) && |q| <= |dir| && KeyName(key)
    ensures Find(t', dir, key) == Find(t, dir, key)
    decreases |key|
  {
    TailIsKey(key);
    if !Single(key) {
      FindLonger(t, t', dir + [Part(key)], Tail(key), q);
    }
  }
}
