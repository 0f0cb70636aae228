/**
 The reordering loop of utf8proc_decompose (src/deps/utf8proc.c:398-416) and the canonical order it
 computes (Canonical Ordering Algorithm, section 3.11 of the Unicode Standard).

 The combining classes come from a table that is not part of this model: any function serves.
 */
module CanonicalOrder {
  type Classes = int -> nat

  // Neighbours a, b in the wrong order.
  predicate Bad(cc: Classes, a: int, b: int) { cc(a) > cc(b) > 0 }

  predicate Ordered(cc: Classes, s: seq<int>) {
    forall i :: 0 <= i < |s| - 1 ==> !Bad(cc, s[i], s[i + 1])
  }

  // The canonical order by insertion: every character moves left past those of smaller non-zero
  // class, so that none passes a starter or one of its own class.
  function Insert(cc: Classes, x: int, s: seq<int>): seq<int> {
    if s == [] || !Bad(cc, x, s[0]) then [x] + s else [s[0]] + Insert(cc, x, s[1..])
  }

  function Canon(cc: Classes, s: seq<int>): seq<int> {
    if s == [] then [] else Insert(cc, s[0], Canon(cc, s[1..]))
  }

  // ---------- what the order is ----------

  lemma {:induction false} InsertOrdered(cc: Classes, x: int, s: seq<int>)
    requires Ordered(cc, s)
    ensures Ordered(cc, Insert(cc, x, s))
    ensures Insert(cc, x, s)[0] == x || (s != [] && Insert(cc, x, s)[0] == s[0])
  {
    if s != [] && Bad(cc, x, s[0]) {
      assert Ordered(cc, s[1..]);
      InsertOrdered(cc, x, s[1..]);
    }
  }

  lemma {:induction false} CanonOrdered(cc: Classes, s: seq<int>)
    ensures Ordered(cc, Canon(cc, s))
  {
    if s != [] {
      CanonOrdered(cc, s[1..]);
      InsertOrdered(cc, s[0], Canon(cc, s[1..]));
    }
  }

  // An ordered buffer is left alone.
  lemma {:induction false} OrderedIsCanon(cc: Classes, s: seq<int>)
    requires Ordered(cc, s)
    ensures Canon(cc, s) == s
  {
    if s != [] {
      assert Ordered(cc, s[1..]);
      OrderedIsCanon(cc, s[1..]);
      if |s| > 1 { assert !Bad(cc, s[0], s[1]); }
    }
  }

  // The characters of one class, in their order.
  function OfClass(cc: Classes, s: seq<int>, c: nat): seq<int> {
    if s == [] then [] else (if cc(s[0]) == c then [s[0]] else []) + OfClass(cc, s[1..], c)
  }

  lemma {:induction false} InsertStable(cc: Classes, x: int, s: seq<int>, c: nat)
    ensures OfClass(cc, Insert(cc, x, s), c) == OfClass(cc, [x] + s, c)
  {
    hide OfClass;
    if s != [] && Bad(cc, x, s[0]) {
      InsertStable(cc, x, s[1..], c);
      OfClassFirst(cc, x, s, c);
      OfClassFirst(cc, x, s[1..], c);
      OfClassFirst(cc, s[0], s[1..], c);
      OfClassFirst(cc, s[0], Insert(cc, x, s[1..]), c);
      assert s == [s[0]] + s[1..];
    }
  }

  lemma OfClassFirst(cc: Classes, x: int, s: seq<int>, c: nat)
    ensures OfClass(cc, [x] + s, c) == (if cc(x) == c then [x] else []) + OfClass(cc, s, c)
  {
    assert ([x] + s)[1..] == s;
  }

  lemma {:induction false} InsertPermutes(cc: Classes, x: int, s: seq<int>)
    ensures multiset(Insert(cc, x, s)) == multiset([x] + s)
  {
    if s != [] && Bad(cc, x, s[0]) {
      InsertPermutes(cc, x, s[1..]);
      assert s == [s[0]] + s[1..];
    }
  }

  // A permutation, stable within every class.
  lemma {:induction false} CanonStable(cc: Classes, s: seq<int>, c: nat)
    ensures OfClass(cc, Canon(cc, s), c) == OfClass(cc, s, c)
    ensures multiset(Canon(cc, s)) == multiset(s)
  {
    if s != [] {
      CanonStable(cc, s[1..], c);
      InsertStable(cc, s[0], Canon(cc, s[1..]), c);
      InsertPermutes(cc, s[0], Canon(cc, s[1..]));
      OfClassFirst(cc, s[0], Canon(cc, s[1..]), c);
      assert s == [s[0]] + s[1..];
    }
  }

  lemma {:induction false} InsertKeepsStarters(cc: Classes, x: int, s: seq<int>, i: nat)
    requires i <= |s| && cc(([x] + s)[i]) == 0
    ensures |Insert(cc, x, s)| == |s| + 1 && Insert(cc, x, s)[i] == ([x] + s)[i]
  {
    if s != [] && Bad(cc, x, s[0]) {
      assert i >= 2;
      InsertKeepsStarters(cc, x, s[1..], i - 1);
      assert ([x] + s[1..])[i - 1] == ([x] + s)[i];
    }
  }

  lemma {:induction false} CanonLength(cc: Classes, s: seq<int>)
    ensures |Canon(cc, s)| == |s|
  {
    CanonStable(cc, s, 0);
    assert |multiset(Canon(cc, s))| == |multiset(s)|;
  }

  // Starters stay where they are.
  lemma {:induction false} CanonKeepsStarters(cc: Classes, s: seq<int>, i: nat)
    requires i < |s| && cc(s[i]) == 0
    ensures |Canon(cc, s)| == |s| && Canon(cc, s)[i] == s[i]
  {
    CanonLength(cc, s);
    CanonLength(cc, s[1..]);
    if i > 0 {
      CanonKeepsStarters(cc, s[1..], i - 1);
    }
    InsertKeepsStarters(cc, s[0], Canon(cc, s[1..]), i);
  }

  // ---------- equivalence by swaps ----------

  predicate MaySwap(cc: Classes, s: seq<int>, i: nat) {
    i + 1 < |s| && cc(s[i]) > 0 && cc(s[i + 1]) > 0 && cc(s[i]) != cc(s[i + 1])
  }

  // Neighbours i and i + 1 exchanged if their classes are distinct and not zero.
  function Swap(cc: Classes, s: seq<int>, i: nat): seq<int> {
    if MaySwap(cc, s, i) then s[i := s[i + 1]][i + 1 := s[i]] else s
  }

  function Swaps(cc: Classes, s: seq<int>, w: seq<nat>): seq<int>
    decreases |w|
  {
    if w == [] then s else Swaps(cc, Swap(cc, s, w[0]), w[1..])
  }

  lemma {:induction false} InsertCommutes(cc: Classes, a: int, b: int, s: seq<int>)
    requires cc(a) > 0 && cc(b) > 0 && cc(a) != cc(b)
    ensures Insert(cc, a, Insert(cc, b, s)) == Insert(cc, b, Insert(cc, a, s))
  {
    if s != [] && (Bad(cc, a, s[0]) || Bad(cc, b, s[0])) {
      InsertCommutes(cc, a, b, s[1..]);
    }
    assert ([a] + s)[1..] == s && ([b] + s)[1..] == s;
  }

  lemma {:induction false} SwapKeepsCanon(cc: Classes, s: seq<int>, i: nat)
    ensures Canon(cc, Swap(cc, s, i)) == Canon(cc, s)
    decreases i
  {
    if MaySwap(cc, s, i) {
      var s' := Swap(cc, s, i);
      if i == 0 {
        var rest := s[1..][1..];
        assert s'[1..][0] == s[0] && s[1..][0] == s[1] && s'[1..][1..] == rest;
        InsertCommutes(cc, s[0], s[1], Canon(cc, rest));
      } else {
        SwapKeepsCanon(cc, s[1..], i - 1);
        assert s'[1..] == Swap(cc, s[1..], i - 1);
      }
    }
  }

  lemma {:induction false} SwapsKeepCanon(cc: Classes, s: seq<int>, w: seq<nat>)
    ensures Canon(cc, Swaps(cc, s, w)) == Canon(cc, s)
    decreases |w|
  {
    if w != [] {
      SwapKeepsCanon(cc, s, w[0]);
      SwapsKeepCanon(cc, Swap(cc, s, w[0]), w[1..]);
    }
  }

  lemma {:induction false} SwapsAppend(cc: Classes, s: seq<int>, w: seq<nat>, v: seq<nat>)
    ensures Swaps(cc, s, w + v) == Swaps(cc, Swaps(cc, s, w), v)
    decreases |w|
  {
    if w == [] {
      assert w + v == v;
    } else {
      assert (w + v)[1..] == w[1..] + v;
      SwapsAppend(cc, Swap(cc, s, w[0]), w[1..], v);
    }
  }

  // Swaps behind a first character.
  function Shifted(w: seq<nat>): seq<nat>
    decreases |w|
  {
    if w == [] then [] else [w[0] + 1] + Shifted(w[1..])
  }

  lemma {:induction false} SwapsBehind(cc: Classes, x: int, s: seq<int>, w: seq<nat>)
    ensures Swaps(cc, [x] + s, Shifted(w)) == [x] + Swaps(cc, s, w)
    decreases |w|
  {
    if w != [] {
      assert Swap(cc, [x] + s, w[0] + 1) == [x] + Swap(cc, s, w[0]);
      SwapsBehind(cc, x, Swap(cc, s, w[0]), w[1..]);
      assert Shifted(w)[1..] == Shifted(w[1..]);
    }
  }

  lemma {:induction false} InsertBySwaps(cc: Classes, x: int, s: seq<int>) returns (w: seq<nat>)
    ensures Swaps(cc, [x] + s, w) == Insert(cc, x, s)
  {
    w := [];
    if s != [] && Bad(cc, x, s[0]) {
      var v := InsertBySwaps(cc, x, s[1..]);
      w := [0] + Shifted(v);
      assert Swap(cc, [x] + s, 0) == [s[0]] + ([x] + s[1..]);
      SwapsBehind(cc, s[0], [x] + s[1..], v);
      assert w[1..] == Shifted(v);
    }
  }

  lemma {:induction false} CanonBySwaps(cc: Classes, s: seq<int>) returns (w: seq<nat>)
    ensures Swaps(cc, s, w) == Canon(cc, s)
  {
    w := [];
    if s != [] {
      var v := CanonBySwaps(cc, s[1..]);
      assert s == [s[0]] + s[1..];
      SwapsBehind(cc, s[0], s[1..], v);
      var u := InsertBySwaps(cc, s[0], Canon(cc, s[1..]));
      w := Shifted(v) + u;
      SwapsAppend(cc, s, Shifted(v), u);
    }
  }

  lemma {:induction false} SwapsUndone(cc: Classes, s: seq<int>, w: seq<nat>) returns (v: seq<nat>)
    ensures Swaps(cc, Swaps(cc, s, w), v) == s
    decreases |w|
  {
    v := [];
    if w != [] {
      var s1 := Swap(cc, s, w[0]);
      var u := SwapsUndone(cc, s1, w[1..]);
      v := u + [w[0]];
      SwapsAppend(cc, Swaps(cc, s1, w[1..]), u, [w[0]]);
      assert Swap(cc, s1, w[0]) == s;
      assert Swaps(cc, s1, [w[0]]) == s;
    }
  }

  // Two buffers get the same canonical order exactly when swaps of neighbours with distinct
  // non-zero classes lead from one to the other.
  lemma CanonicalEquivalence(cc: Classes, s: seq<int>, t: seq<int>)
    ensures Canon(cc, s) == Canon(cc, t) <==> exists w :: Swaps(cc, s, w) == t
  {
    if w :| Swaps(cc, s, w) == t {
      SwapsKeepCanon(cc, s, w);
    }
    if Canon(cc, s) == Canon(cc, t) {
      var w := CanonBySwaps(cc, s);
      var v := CanonBySwaps(cc, t);
      var u := SwapsUndone(cc, t, v);
      SwapsAppend(cc, s, w, u);
    }
  }

  // ---------- the loop ----------

  function Smaller(cc: Classes, x: int, s: seq<int>): nat {
    if s == [] then 0 else (if Bad(cc, x, s[0]) then 1 else 0) + Smaller(cc, x, s[1..])
  }

  // Pairs in the wrong order: the loop's progress measure.
  function Inversions(cc: Classes, s: seq<int>): nat {
    if s == [] then 0 else Smaller(cc, s[0], s[1..]) + Inversions(cc, s[1..])
  }

  lemma {:induction false} SmallerAfterSwap(cc: Classes, x: int, s: seq<int>, i: nat)
    requires MaySwap(cc, s, i)
    ensures Smaller(cc, x, Swap(cc, s, i)) == Smaller(cc, x, s)
    decreases i
  {
    var s' := Swap(cc, s, i);
    if i == 0 {
      assert s'[1..][1..] == s[1..][1..];
    } else {
      assert s'[1..] == Swap(cc, s[1..], i - 1);
      SmallerAfterSwap(cc, x, s[1..], i - 1);
    }
  }

  lemma {:induction false} SwapReducesInversions(cc: Classes, s: seq<int>, i: nat)
    requires i + 1 < |s| && Bad(cc, s[i], s[i + 1])
    ensures Inversions(cc, Swap(cc, s, i)) < Inversions(cc, s)
    decreases i
  {
    var s' := Swap(cc, s, i);
    if i == 0 {
      var rest := s[1..][1..];
      assert s'[1..][1..] == rest && s'[1..][0] == s[0] && s[1..][0] == s[1];
    } else {
      assert s'[1..] == Swap(cc, s[1..], i - 1);
      SwapReducesInversions(cc, s[1..], i - 1);
      SmallerAfterSwap(cc, s[0], s[1..], i - 1);
    }
  }

  // The loop over buffer[0..wpos]: it ends, and leaves the canonical order of what was there.
  method Reorder(cc: Classes, buffer: array<int>, wpos: nat)
    requires wpos <= buffer.Length
    modifies buffer
    ensures buffer[..wpos] == Canon(cc, old(buffer[..wpos]))
    ensures buffer[wpos..] == old(buffer[wpos..])
  {
    var pos := 0;
    ghost var s := buffer[..wpos];
    while pos < wpos - 1
      invariant 0 <= pos && (pos < wpos || pos == 0)
      invariant s == buffer[..wpos] && buffer[wpos..] == old(buffer[wpos..])
      invariant Canon(cc, s) == Canon(cc, old(buffer[..wpos]))
      invariant forall k :: 0 <= k < pos ==> !Bad(cc, s[k], s[k + 1])
      decreases Inversions(cc, s), wpos - pos
    {
      var uc1 := buffer[pos];
      var uc2 := buffer[pos + 1];
      if cc(uc1) > cc(uc2) && cc(uc2) > 0 {
        SwapReducesInversions(cc, s, pos);
        SwapKeepsCanon(cc, s, pos);
        buffer[pos] := uc2;
        buffer[pos + 1] := uc1;
        s := Swap(cc, s, pos);
        assert s == buffer[..wpos];
        if pos > 0 { pos := pos - 1; } else { pos := pos + 1; }
      } else {
        pos := pos + 1;
      }
    }
    OrderedIsCanon(cc, s);
  }

  // In canonical order the classes ascend between one starter and the next.
  lemma {:induction false} ClassesAscend(cc: Classes, s: seq<int>, i: nat, j: nat)
    requires i < j < |Canon(cc, s)| && forall k :: i <= k <= j ==> cc(Canon(cc, s)[k]) > 0
    ensures cc(Canon(cc, s)[i]) <= cc(Canon(cc, s)[j])
    decreases j
  {
    CanonOrdered(cc, s);
    var t := Canon(cc, s);
    assert !Bad(cc, t[j - 1], t[j]);
    if i < j - 1 { ClassesAscend(cc, s, i, j - 1); }
  }
}
