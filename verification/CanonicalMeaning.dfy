/**
 What the composing loop of utf8proc_reencode (src/deps/utf8proc.c:454-522) keeps: the full
 decomposition of the text, up to canonical equivalence, for every table whose compositions undo
 decompositions. The one thing it loses is U+11A7 behind an LV syllable.
 */
module CanonicalMeaning {
  import opened Bytes
  import opened CanonicalOrder
  import opened Composition

  // The full canonical decomposition of a text, given that of every character.
  function Full(D: int -> seq<int>, s: seq<int>): seq<int>
    decreases |s|
  {
    if s == [] then [] else Full(D, s[..|s| - 1]) + D(s[|s| - 1])
  }

  predicate IsHangul(c: int) { IsL(c) || IsV(c) || IsT(c) || IsS(c) }

  // On the characters A the tables agree with the decomposition D: a composition decomposes to
  // its two parts, marks decompose to marks of their own class, and Hangul is left to arithmetic.
  ghost predicate Agrees(props: Properties, D: int -> seq<int>, A: int -> bool) {
    && HangulClasses(props)
    && (forall c :: IsS(c) ==> A(c))
    && (forall c :: A(c) && IsHangul(c) ==> D(c) == ExpandChar(c) && props.comb1st(c) < 0)
    && (forall m, i :: A(m) && props.cc(m) > 0 && 0 <= i < |D(m)| ==> props.cc(D(m)[i]) == props.cc(m))
    && (forall a, b :: A(a) && A(b) && props.comb1st(a) >= 0 && props.comb2nd(b) >= 0 ==>
          CompositionFits(D, A, a, b, props.combinations(props.comb1st(a) + props.comb2nd(b))))
  }

  predicate CompositionFits(D: int -> seq<int>, A: int -> bool, a: int, b: int, c: int) {
    c >= 0 ==> !IsHangul(b) && A(c) && !IsHangul(c) && D(c) == D(a) + D(b)
  }

  ghost predicate TableFree(props: Properties, A: int -> bool) { forall c :: A(c) ==> props.comb1st(c) < 0 }

  predicate Within(A: int -> bool, s: seq<int>) { forall i :: 0 <= i < |s| ==> A(s[i]) }

  // ---------- equivalence behind and in front ----------

  lemma {:induction false} SwapsInFront(cc: Classes, s: seq<int>, w: seq<nat>, x: seq<int>) returns (v: seq<nat>)
    ensures Swaps(cc, s + x, v) == Swaps(cc, s, w) + x
    decreases |w|
  {
    v := [];
    if w != [] {
      var s' := Swap(cc, s, w[0]);
      v := SwapsInFront(cc, s', w[1..], x);
      if MaySwap(cc, s, w[0]) {
        assert Swap(cc, s + x, w[0]) == s' + x;
        v := [w[0]] + v;
        assert v[1..] == v[1..];
      }
    }
  }

  // Equivalent texts stay equivalent with the same text behind them.
  lemma EquivalentInFront(cc: Classes, s: seq<int>, t: seq<int>, x: seq<int>)
    requires Canon(cc, s) == Canon(cc, t)
    ensures Canon(cc, s + x) == Canon(cc, t + x)
  {
    hide Canon, Swaps;
    CanonicalEquivalence(cc, s, t);
    var w :| Swaps(cc, s, w) == t;
    var v := SwapsInFront(cc, s, w, x);
    SwapsKeepCanon(cc, s + x, v);
  }

  lemma {:induction false} EquivalentBehind(cc: Classes, p: seq<int>, s: seq<int>, t: seq<int>)
    requires Canon(cc, s) == Canon(cc, t)
    ensures Canon(cc, p + s) == Canon(cc, p + t)
    decreases |p|
  {
    if p == [] {
      assert p + s == s && p + t == t;
    } else {
      EquivalentBehind(cc, p[1..], s, t);
      assert (p + s)[1..] == p[1..] + s && (p + t)[1..] == p[1..] + t;
    }
  }

  // ---------- marks of different classes pass each other ----------

  predicate Apart(cc: Classes, m: seq<int>, x: seq<int>) {
    && (forall i :: 0 <= i < |m| ==> cc(m[i]) > 0)
    && (forall j :: 0 <= j < |x| ==> cc(x[j]) > 0)
    && (forall i, j :: 0 <= i < |m| && 0 <= j < |x| ==> cc(m[i]) != cc(x[j]))
  }

  lemma {:induction false} OnePasses(cc: Classes, m: seq<int>, x: int)
    requires Apart(cc, m, [x])
    ensures Canon(cc, m + [x]) == Canon(cc, [x] + m)
    decreases |m|
  {
    hide Canon;
    if m == [] {
      assert m + [x] == [x] + m;
    } else {
      var init, last := m[..|m| - 1], m[|m| - 1];
      assert m == init + [last] && [x][0] == x;
      OnePasses(cc, init, x);
      EquivalentInFront(cc, init + [x], [x] + init, [last]);
      var s := m + [x];
      assert Swap(cc, s, |init|) == init + [x] + [last];
      SwapKeepsCanon(cc, s, |init|);
      assert [x] + init + [last] == [x] + m;
    }
  }

  lemma {:induction false} MarksPass(cc: Classes, m: seq<int>, x: seq<int>)
    requires Apart(cc, m, x)
    ensures Canon(cc, m + x) == Canon(cc, x + m)
    decreases |x|
  {
    hide Canon;
    if x == [] {
      assert m + x == m == x + m;
    } else {
      var init, last := x[..|x| - 1], x[|x| - 1];
      assert x == init + [last];
      MarksPass(cc, m, init);
      EquivalentInFront(cc, m + init, init + m, [last]);
      assert m + x == m + init + [last] && init + m + [last] == init + (m + [last]);
      assert forall i :: 0 <= i < |m| ==> cc(m[i]) != cc(x[|x| - 1]);
      OnePasses(cc, m, last);
      EquivalentBehind(cc, init, m + [last], [last] + m);
      assert init + ([last] + m) == x + m;
    }
  }

  // ---------- expansions of parts ----------

  lemma {:induction false} FullConcat(D: int -> seq<int>, a: seq<int>, b: seq<int>)
    ensures Full(D, a + b) == Full(D, a) + Full(D, b)
    decreases |b|
  {
    if b == [] {
      assert a + b == a;
    } else {
      assert (a + b)[..|a + b| - 1] == a + b[..|b| - 1];
      FullConcat(D, a, b[..|b| - 1]);
    }
  }

  lemma FullOne(D: int -> seq<int>, c: int)
    ensures Full(D, [c]) == D(c)
  {
    assert [c][..0] == [];
  }

  // Marks decompose to marks: below the class bound, every character of the expansion is.
  lemma {:induction false} FullOfMarks(props: Properties, D: int -> seq<int>, A: int -> bool, m: seq<int>, bound: int)
    requires Agrees(props, D, A) && Within(A, m) && forall i :: 0 <= i < |m| ==> 0 < props.cc(m[i]) <= bound
    ensures forall i :: 0 <= i < |Full(D, m)| ==> 0 < props.cc(Full(D, m)[i]) <= bound
    decreases |m|
  {
    hide HangulClasses, CompositionFits, IsHangul;
    if m != [] {
      var init, last := m[..|m| - 1], m[|m| - 1];
      FullOfMarks(props, D, A, init, bound);
      assert A(last) && 0 < props.cc(last) <= bound;
      assert forall i :: 0 <= i < |D(last)| ==> props.cc(D(last)[i]) == props.cc(last);
    }
  }

  // ---------- one step of the loop ----------

  // Behind the starter stand marks within maxClass; maxClass is negative while there are none.
  ghost predicate Marks(props: Properties, st: State) {
    && Tracks(props, st)
    && (st.starter >= 0 ==>
          forall k :: st.starter < k < |st.out| ==> 0 < props.cc(st.out[k]) <= st.maxClass)
  }

  predicate SwallowsNext(st: State, c: int) {
    c == TBASE && st.maxClass < 0 && st.out != [] && IsLV(st.out[|st.out| - 1])
  }

  // What the loop puts in place of two characters decomposes to them.
  lemma PairMeaning(props: Properties, stable: bool, D: int -> seq<int>, A: int -> bool, a: int, b: int)
    requires Agrees(props, D, A) && A(a) && A(b) && Pair(props, stable, a, b).Some?
    requires !(b == TBASE && IsLV(a))
    ensures var c := Pair(props, stable, a, b).value; A(c) && D(c) == D(a) + D(b)
  {
    hide ExpandChar;
    if IsL(a) && IsV(b) {
      PairParts(a, b);
      JamoAlone(a);
      JamoAlone(b);
    } else if IsLV(a) && IsT(b) {
      TripleParts(a, b);
      JamoAlone(b);
    } else {
      assert CompositionFits(D, A, a, b, props.combinations(props.comb1st(a) + props.comb2nd(b)));
    }
  }

  lemma JamoAlone(c: int)
    requires IsL(c) || IsV(c) || IsT(c)
    ensures ExpandChar(c) == [c]
  {}

  lemma NextCases(props: Properties, stable: bool, st: State, c: int)
    requires Marks(props, st)
    ensures var st' := Next(props, stable, st, c);
            && Marks(props, st')
            && (st' == Push(props, st, c)
                || (st.starter >= 0 && props.cc(c) > st.maxClass
                    && Pair(props, stable, st.out[st.starter], c).Some?
                    && st' == st.(out := st.out[st.starter := Pair(props, stable, st.out[st.starter], c).value])))
  {
    hide Pair;
  }

  lemma SwallowStep(props: Properties, stable: bool, st: State, c: int)
    requires HangulClasses(props) && Tracks(props, st) && SwallowsNext(st, c)
    ensures Next(props, stable, st, c) == st
  {
    var s0 := st.out[st.starter];
    assert Pair(props, stable, s0, c) == Some(s0);
    assert st.out[st.starter := s0] == st.out;
  }

  lemma PushMeaning(props: Properties, D: int -> seq<int>, st: State, c: int)
    ensures Full(D, Push(props, st, c).out) == Full(D, st.out) + D(c)
  {
    assert (st.out + [c])[..|st.out|] == st.out;
  }

  lemma FullParts(D: int -> seq<int>, p: seq<int>, x: int, m: seq<int>)
    ensures Full(D, p + [x] + m) == Full(D, p) + D(x) + Full(D, m)
  {
    hide Full;
    FullConcat(D, p + [x], m);
    FullConcat(D, p, [x]);
    FullOne(D, x);
  }

  // Two characters in one: what the second decomposes to moves in front of the marks.
  lemma PairStep(props: Properties, D: int -> seq<int>, A: int -> bool, st: State, c: int, x: int)
    requires Agrees(props, D, A) && Marks(props, st) && Within(A, st.out) && A(c)
    requires st.starter >= 0 && props.cc(c) > st.maxClass
    requires D(x) == D(st.out[st.starter]) + D(c)
    ensures var out' := st.out[st.starter := x];
            && Canon(props.cc, Full(D, out')) == Canon(props.cc, Full(D, st.out) + D(c))
            && (st.maxClass < 0 ==> Full(D, out') == Full(D, st.out) + D(c))
  {
    hide Full, Canon, Agrees;
    var i, out' := st.starter, st.out[st.starter := x];
    var p, s0, m := st.out[..i], st.out[i], st.out[i + 1..];
    assert st.out == p + [s0] + m && out' == p + [x] + m;
    FullParts(D, p, s0, m);
    FullParts(D, p, x, m);
    var head, marks := Full(D, p) + D(s0), Full(D, m);
    assert Full(D, st.out) + D(c) == head + (marks + D(c));
    assert Full(D, out') == head + (D(c) + marks);
    MarksApart(props, D, A, m, c, st.maxClass);
    if m == [] {
      assert marks + D(c) == D(c) + marks;
    } else {
      MarksPass(props.cc, marks, D(c));
      EquivalentBehind(props.cc, head, marks + D(c), D(c) + marks);
    }
  }

  lemma MarksApart(props: Properties, D: int -> seq<int>, A: int -> bool, m: seq<int>, c: int, bound: int)
    requires Agrees(props, D, A) && Within(A, m) && A(c) && props.cc(c) > bound
    requires forall i :: 0 <= i < |m| ==> 0 < props.cc(m[i]) <= bound
    ensures m != [] ==> Apart(props.cc, Full(D, m), D(c))
    ensures m == [] ==> Full(D, m) == []
  {
    FullOfMarks(props, D, A, m, bound);
    if m != [] {
      assert 0 < props.cc(m[0]) <= bound;
      assert forall j :: 0 <= j < |D(c)| ==> props.cc(D(c)[j]) == props.cc(c);
    }
  }

  // A step keeps the decomposition, up to the order of marks, except when it swallows U+11A7;
  // without table compositions it keeps it literally.
  lemma StepMeaning(props: Properties, stable: bool, D: int -> seq<int>, A: int -> bool, st: State, c: int)
    requires Agrees(props, D, A) && Marks(props, st) && Within(A, st.out) && A(c)
    ensures var st' := Next(props, stable, st, c);
            && Marks(props, st') && Within(A, st'.out)
            && if SwallowsNext(st, c) then st' == st
               else && Canon(props.cc, Full(D, st'.out)) == Canon(props.cc, Full(D, st.out) + D(c))
                    && (TableFree(props, A) ==> Full(D, st'.out) == Full(D, st.out) + D(c))
  {
    hide Full, Canon, Next, Pair, CompositionFits;
    NextCases(props, stable, st, c);
    if SwallowsNext(st, c) {
      SwallowStep(props, stable, st, c);
    } else if Next(props, stable, st, c) == Push(props, st, c) {
      PushMeaning(props, D, st, c);
    } else {
      var s0 := st.out[st.starter];
      PairMeaning(props, stable, D, A, s0, c);
      PairStep(props, D, A, st, c, Pair(props, stable, s0, c).value);
      TableFreePair(props, stable, A, st, c);
    }
  }

  lemma TableFreePair(props: Properties, stable: bool, A: int -> bool, st: State, c: int)
    requires HangulClasses(props) && Tracks(props, st) && st.starter >= 0 && props.cc(c) > st.maxClass
    requires A(st.out[st.starter]) && Pair(props, stable, st.out[st.starter], c).Some?
    ensures TableFree(props, A) ==> st.maxClass < 0
  {}

  // ---------- the end of the text read so far ----------

  // A text that ends in an LV syllable, composed or not.
  predicate EndsLV(u: seq<int>) {
    u != [] && (IsLV(u[|u| - 1]) || (|u| >= 2 && IsV(u[|u| - 1]) && IsL(u[|u| - 2])))
  }

  // U+11A7 right after an LV syllable: the loop takes it for a trailing consonant of index 0.
  predicate SwallowedAt(s: seq<int>, i: nat) { i < |s| && s[i] == TBASE && EndsLV(s[..i]) }

  ghost predicate Swallows(s: seq<int>) { exists i :: SwallowedAt(s, i) }

  predicate OpenEnd(st: State) { st.out != [] && st.maxClass < 0 }

  // What the state says about the end of the text u read so far, as long as nothing was swallowed.
  predicate Reflects(st: State, u: seq<int>) {
    && ((OpenEnd(st) && IsLV(st.out[|st.out| - 1])) <==> EndsLV(u))
    && ((OpenEnd(st) && IsL(st.out[|st.out| - 1])) <==> (u != [] && IsL(u[|u| - 1])))
  }

  lemma PushReflects(props: Properties, stable: bool, st: State, u: seq<int>, c: int)
    requires HangulClasses(props) && Tracks(props, st) && Reflects(st, u)
    requires Next(props, stable, st, c) == Push(props, st, c)
    ensures Reflects(Push(props, st, c), u + [c])
  {
    hide JoinLV;
    assert u != [] ==> (u + [c])[|u| - 1] == u[|u| - 1];
    if OpenEnd(st) && IsV(c) && IsL(st.out[st.starter]) {
      assert false;
    }
  }

  lemma PairReflects(props: Properties, stable: bool, D: int -> seq<int>, A: int -> bool, st: State, u: seq<int>, c: int)
    requires Agrees(props, D, A) && Marks(props, st) && A(c) && Reflects(st, u)
    requires st.starter >= 0 && A(st.out[st.starter])
    requires props.cc(c) > st.maxClass && Pair(props, stable, st.out[st.starter], c).Some?
    requires !SwallowsNext(st, c)
    ensures var x := Pair(props, stable, st.out[st.starter], c).value;
            Reflects(st.(out := st.out[st.starter := x]), u + [c])
  {
    hide JoinLV, ExpandChar;
    var s0, v := st.out[st.starter], u + [c];
    assert u != [] ==> v[|u| - 1] == u[|u| - 1];
    if IsL(s0) && IsV(c) {
      PairParts(s0, c);
    } else if IsLV(s0) && IsT(c) {
      TripleParts(s0, c);
    } else {
      assert CompositionFits(D, A, s0, c, props.combinations(props.comb1st(s0) + props.comb2nd(c)));
    }
  }

  lemma StepReflects(props: Properties, stable: bool, D: int -> seq<int>, A: int -> bool, st: State, u: seq<int>, c: int)
    requires Agrees(props, D, A) && Marks(props, st) && Within(A, st.out) && A(c) && Reflects(st, u)
    requires !SwallowsNext(st, c)
    ensures Reflects(Next(props, stable, st, c), u + [c])
  {
    hide Next, Pair, Reflects, CompositionFits, SwallowsNext;
    NextCases(props, stable, st, c);
    if Next(props, stable, st, c) == Push(props, st, c) {
      PushReflects(props, stable, st, u, c);
    } else {
      PairReflects(props, stable, D, A, st, u, c);
    }
  }

  // ---------- the whole text ----------

  ghost predicate SwallowedBefore(s: seq<int>, k: nat) { exists i :: 0 <= i < k && SwallowedAt(s, i) }

  lemma SwallowedStep(s: seq<int>, k: nat)
    requires k < |s|
    ensures SwallowedBefore(s, k + 1) <==> SwallowedBefore(s, k) || (s[k] == TBASE && EndsLV(s[..k]))
  {
    if s[k] == TBASE && EndsLV(s[..k]) {
      assert SwallowedAt(s, k);
    }
  }

  // What holds after k characters.
  ghost predicate Kept(props: Properties, D: int -> seq<int>, A: int -> bool, s: seq<int>, k: nat, st: State)
    requires k <= |s|
  {
    && Marks(props, st) && Within(A, st.out)
    && if SwallowedBefore(s, k) then |Full(D, st.out)| < |Full(D, s[..k])|
       else && Reflects(st, s[..k])
            && Canon(props.cc, Full(D, st.out)) == Canon(props.cc, Full(D, s[..k]))
            && (TableFree(props, A) ==> Full(D, st.out) == Full(D, s[..k]))
  }

  lemma MarksSound(props: Properties, st: State)
    requires Marks(props, st)
    ensures Sound(st)
  {}

  lemma KeptStep(props: Properties, stable: bool, D: int -> seq<int>, A: int -> bool, s: seq<int>, k: nat, st: State)
    requires Agrees(props, D, A) && Within(A, s) && k < |s| && Kept(props, D, A, s, k, st)
    ensures Kept(props, D, A, s, k + 1, Next(props, stable, st, s[k]))
  {
    hide Agrees, Marks, Canon, Full, Next, Reflects, SwallowedBefore, TableFree, EndsLV, SwallowsNext;
    MarksSound(props, st);
    var u, c := s[..k], s[k];
    assert s[..k + 1] == u + [c];
    FullConcat(D, u, [c]);
    FullOne(D, c);
    SwallowedStep(s, k);
    StepMeaning(props, stable, D, A, st, c);
    var st' := Next(props, stable, st, c);
    if SwallowsNext(st, c) {
      SwallowGrows(props, D, A, st, c);
    } else {
      SameLength(props.cc, Full(D, st'.out), Full(D, st.out) + D(c));
    }
    if !SwallowedBefore(s, k) {
      SwallowsHere(st, u, c);
      SameLength(props.cc, Full(D, st.out), Full(D, u));
      if !SwallowsNext(st, c) {
        StepReflects(props, stable, D, A, st, u, c);
        EquivalentInFront(props.cc, Full(D, st.out), Full(D, u), D(c));
      }
    }
  }

  lemma SwallowsHere(st: State, u: seq<int>, c: int)
    requires Reflects(st, u)
    ensures SwallowsNext(st, c) <==> c == TBASE && EndsLV(u)
  {}

  lemma SwallowGrows(props: Properties, D: int -> seq<int>, A: int -> bool, st: State, c: int)
    requires Agrees(props, D, A) && A(c) && SwallowsNext(st, c)
    ensures |D(c)| == 1
  {
    JamoAlone(c);
  }

  lemma SameLength(cc: Classes, s: seq<int>, t: seq<int>)
    requires Canon(cc, s) == Canon(cc, t)
    ensures |s| == |t|
  {
    CanonLength(cc, s);
    CanonLength(cc, t);
  }

  lemma {:induction false} KeptTo(props: Properties, stable: bool, D: int -> seq<int>, A: int -> bool, s: seq<int>, k: nat)
    requires Agrees(props, D, A) && Within(A, s) && k <= |s|
    ensures Kept(props, D, A, s, k, Composed(props, stable, s[..k]))
    decreases k
  {
    hide *;
    if k == 0 {
      KeptNothing(props, stable, D, A, s);
    } else {
      KeptTo(props, stable, D, A, s, k - 1);
      KeptStep(props, stable, D, A, s, k - 1, Composed(props, stable, s[..k - 1]));
      ComposedTake(props, stable, s, k - 1);
    }
  }

  lemma KeptNothing(props: Properties, stable: bool, D: int -> seq<int>, A: int -> bool, s: seq<int>)
    ensures Kept(props, D, A, s, 0, Composed(props, stable, s[..0]))
  {
    assert s[..0] == [];
  }

  lemma SwallowsBefore(s: seq<int>)
    ensures Swallows(s) <==> SwallowedBefore(s, |s|)
  {}

  // Composing keeps the full decomposition of a text up to canonical equivalence, and so its
  // meaning, exactly when the text has no U+11A7 directly behind an LV syllable: that one is lost.
  lemma ComposeKeepsMeaning(props: Properties, stable: bool, D: int -> seq<int>, A: int -> bool, s: seq<int>)
    requires Agrees(props, D, A) && Within(A, s)
    ensures Canon(props.cc, Full(D, Compose(props, stable, s))) == Canon(props.cc, Full(D, s)) <==> !Swallows(s)
    ensures TableFree(props, A) ==> (Full(D, Compose(props, stable, s)) == Full(D, s) <==> !Swallows(s))
  {
    hide Agrees, Marks, Full, Canon, Reflects, SwallowedAt, TableFree, Composed;
    KeptTo(props, stable, D, A, s, |s|);
    assert s[..|s|] == s;
    SwallowsBefore(s);
    CanonLength(props.cc, Full(D, Compose(props, stable, s)));
    CanonLength(props.cc, Full(D, s));
  }

  // Where no character begins a table composition, the Hangul decomposition is kept literally.
  lemma ComposeKeepsExpansion(props: Properties, stable: bool, s: seq<int>)
    requires HangulClasses(props) && forall c :: IsS(c) || c in s ==> props.comb1st(c) < 0
    ensures Expand(Compose(props, stable, s)) == Expand(s) <==> !Swallows(s)
  {
    hide Compose, Swallows, HangulClasses;
    var D, A := (c: int) => ExpandChar(c), (c: int) => IsS(c) || c in s;
    ExpandingAgrees(props, D, A);
    ComposeKeepsMeaning(props, stable, D, A, s);
    FullIsExpand(D, s);
    FullIsExpand(D, Compose(props, stable, s));
  }

  lemma ExpandingAgrees(props: Properties, D: int -> seq<int>, A: int -> bool)
    requires HangulClasses(props) && (forall c :: IsS(c) ==> A(c)) && TableFree(props, A)
    requires forall c :: D(c) == ExpandChar(c)
    ensures Agrees(props, D, A)
  {}

  lemma {:induction false} FullIsExpand(D: int -> seq<int>, s: seq<int>)
    requires forall c :: D(c) == ExpandChar(c)
    ensures Full(D, s) == Expand(s)
    decreases |s|
  {
    if s != [] { FullIsExpand(D, s[..|s| - 1]); }
  }

  // U+AC00 U+11A7 composes to U+AC00 alone, whatever the tables say.
  lemma LostInComposition(props: Properties, stable: bool)
    requires HangulClasses(props)
    ensures Compose(props, stable, [0xAC00, TBASE]) == [0xAC00]
    ensures Expand([0xAC00, TBASE]) == [0x1100, 0x1161, TBASE] && Expand([0xAC00]) == [0x1100, 0x1161]
  {
    var s := [0xAC00, TBASE];
    assert s[..1] == [0xAC00] && s[..1][..0] == [];
    var st := Composed(props, stable, [0xAC00]);
    assert st == State([0xAC00], 0, -1);
    assert Composed(props, stable, s) == Next(props, stable, st, TBASE);
    assert Pair(props, stable, 0xAC00, TBASE) == Some(0xAC00);
    assert [0xAC00][0 := 0xAC00] == [0xAC00];
    assert Expand([]) == [] && Expand([0xAC00]) == Expand([]) + ExpandChar(0xAC00);
    assert Expand(s) == Expand([0xAC00]) + ExpandChar(TBASE);
  }

  // ---------- the same composition, with nothing to swallow ----------

  // x is s without the characters that composing it swallows.
  ghost predicate Thinned(props: Properties, stable: bool, s: seq<int>, x: seq<int>) {
    && Composed(props, stable, x) == Composed(props, stable, s)
    && Reflects(Composed(props, stable, s), x)
    && !Swallows(x)
    && (forall c :: c in x ==> c in s)
    && SameEnd(props.cc, s, x)
    && (Ordered(props.cc, s) ==> Ordered(props.cc, x))
  }

  // The last characters are the same, or that of x is a starter.
  predicate SameEnd(cc: Classes, s: seq<int>, x: seq<int>) {
    && (x == [] <==> s == [])
    && (s != [] ==> x[|x| - 1] == s[|s| - 1] || cc(x[|x| - 1]) == 0)
  }

  // Every text composes to what some text without swallowed characters composes to.
  lemma {:induction false} Thin(props: Properties, stable: bool, D: int -> seq<int>, A: int -> bool, s: seq<int>)
    returns (x: seq<int>)
    requires Agrees(props, D, A) && Within(A, s)
    ensures Thinned(props, stable, s, x)
    decreases |s|
  {
    hide *;
    if s == [] {
      x := [];
      ThinNothing(props, stable);
    } else {
      var init, c := s[..|s| - 1], s[|s| - 1];
      WithinInit(A, s);
      x := Thin(props, stable, D, A, init);
      KeptTo(props, stable, D, A, init, |init|);
      var st := Composed(props, stable, init);
      assert init[..|init|] == init && s == init + [c];
      KeptWhole(props, D, A, init, st);
      if SwallowsNext(st, c) {
        ThinStays(props, stable, D, A, init, c, x);
      } else {
        ThinGrows(props, stable, D, A, init, c, x);
        x := x + [c];
      }
    }
  }

  lemma ThinNothing(props: Properties, stable: bool)
    ensures Thinned(props, stable, [], [])
  {}

  lemma WithinInit(A: int -> bool, s: seq<int>)
    requires Within(A, s) && s != []
    ensures Within(A, s[..|s| - 1]) && A(s[|s| - 1])
  {}

  lemma KeptWhole(props: Properties, D: int -> seq<int>, A: int -> bool, s: seq<int>, st: State)
    requires Kept(props, D, A, s, |s|, st)
    ensures Marks(props, st) && Within(A, st.out)
  {}

  lemma ThinStays(props: Properties, stable: bool, D: int -> seq<int>, A: int -> bool, s: seq<int>, c: int, x: seq<int>)
    requires Agrees(props, D, A) && Marks(props, Composed(props, stable, s)) && Thinned(props, stable, s, x)
    requires SwallowsNext(Composed(props, stable, s), c)
    ensures Thinned(props, stable, s + [c], x)
  {
    hide Composed, Swallows, Next, Ordered;
    var st := Composed(props, stable, s);
    ComposedAppend(props, stable, s, c);
    SwallowStep(props, stable, st, c);
    assert EndsLV(x);
    OrderedInit(props.cc, s, c);
  }

  lemma OrderedInit(cc: Classes, s: seq<int>, c: int)
    ensures Ordered(cc, s + [c]) ==> Ordered(cc, s) && (s != [] ==> !Bad(cc, s[|s| - 1], c))
  {
    var t := s + [c];
    if Ordered(cc, t) {
      forall i | 0 <= i < |s| - 1 ensures !Bad(cc, s[i], s[i + 1]) { assert !Bad(cc, t[i], t[i + 1]); }
      if s != [] { assert !Bad(cc, t[|s| - 1], t[|s| - 1 + 1]); }
    }
  }

  lemma OrderedMore(cc: Classes, x: seq<int>, c: int)
    requires Ordered(cc, x) && (x != [] ==> !Bad(cc, x[|x| - 1], c))
    ensures Ordered(cc, x + [c])
  {}

  lemma ThinGrows(props: Properties, stable: bool, D: int -> seq<int>, A: int -> bool, s: seq<int>, c: int, x: seq<int>)
    requires Agrees(props, D, A) && A(c) && Thinned(props, stable, s, x)
    requires var st := Composed(props, stable, s); Marks(props, st) && Within(A, st.out) && !SwallowsNext(st, c)
    ensures Thinned(props, stable, s + [c], x + [c])
  {
    hide Composed, Swallows, Next, Ordered, Agrees, Marks, Within, Reflects, SwallowsNext, EndsLV;
    var st := Composed(props, stable, s);
    ComposedAppend(props, stable, s, c);
    ComposedAppend(props, stable, x, c);
    StepReflects(props, stable, D, A, st, x, c);
    SwallowsHere(st, x, c);
    NotSwallowed(x, c);
    OrderedInit(props.cc, s, c);
    if Ordered(props.cc, s + [c]) { OrderedMore(props.cc, x, c); }
  }

  lemma NotSwallowed(x: seq<int>, c: int)
    requires !Swallows(x) && !(c == TBASE && EndsLV(x))
    ensures !Swallows(x + [c])
  {
    hide EndsLV;
    var y := x + [c];
    forall i: nat ensures !SwallowedAt(y, i) {
      assert !SwallowedAt(x, i);
      if i < |x| {
        assert y[..i] == x[..i];
      } else if i == |x| {
        assert y[..i] == x;
      }
    }
  }
}
