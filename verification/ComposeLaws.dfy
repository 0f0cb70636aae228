/**
 What composing does (src/deps/utf8proc.c:454-522), said character by character: which two
 characters become one (Primary Composites, section 3.11 of the Unicode Standard), and what stands
 in the way (blocking).
 */
module ComposeLaws {
  import opened Bytes
  import opened Composition

  // a and b make x: an L and a V, an LV syllable and a T, or a table composition that is not
  // excluded where only stable ones are wanted.
  predicate Joins(props: Properties, stable: bool, a: int, b: int, x: int) {
    if 0x1100 <= a < 0x1113 && 0x1161 <= b < 0x1176 then
      x == 0xAC00 + ((a - 0x1100) * 21 + (b - 0x1161)) * 28
    else if 0xAC00 <= a < 0xD7A4 && (a - 0xAC00) % 28 == 0 && 0x11A7 <= b < 0x11C3 then
      x == a + (b - 0x11A7)
    else
      && props.comb1st(a) >= 0 && props.comb2nd(b) >= 0
      && x == props.combinations(props.comb1st(a) + props.comb2nd(b)) && x >= 0
      && (!stable || !props.excluded(x))
  }

  lemma PairJoins(props: Properties, stable: bool, a: int, b: int, x: int)
    ensures Pair(props, stable, a, b) == Some(x) <==> Joins(props, stable, a, b, x)
  {}

  // What a starter takes part in is a starter again.
  ghost predicate StarterCompositions(props: Properties) {
    && HangulClasses(props)
    && (forall a, b, x :: props.cc(a) == 0 && Joins(props, true, a, b, x) ==> props.cc(x) == 0)
    && (forall a, b, x :: props.cc(a) == 0 && Joins(props, false, a, b, x) ==> props.cc(x) == 0)
  }

  // i is the last starter of o.
  predicate LastStarter(props: Properties, o: seq<int>, i: int) {
    0 <= i < |o| && props.cc(o[i]) == 0 && forall j :: i < j < |o| ==> props.cc(o[j]) > 0
  }

  // No character behind i has the class of c or a higher one.
  predicate Unblocked(props: Properties, o: seq<int>, i: int, c: int) {
    forall j :: 0 <= i < j < |o| ==> props.cc(o[j]) < props.cc(c)
  }

  // ---------- the state of the loop, by the text written ----------

  // The starter is the last one, and maxClass the highest class behind it.
  ghost predicate Located(props: Properties, st: State) {
    && -1 <= st.starter < |st.out|
    && (if st.starter >= 0 then LastStarter(props, st.out, st.starter)
        else forall j :: 0 <= j < |st.out| ==> props.cc(st.out[j]) > 0)
    && st.maxClass >= -1
    && (forall j :: st.starter < j < |st.out| ==> props.cc(st.out[j]) <= st.maxClass)
    && (st.maxClass >= 0 ==> exists j :: st.starter < j < |st.out| && props.cc(st.out[j]) == st.maxClass)
  }

  lemma PushLocated(props: Properties, st: State, c: int)
    requires Located(props, st)
    ensures Located(props, Push(props, st, c))
  {
    var st' := Push(props, st, c);
    if props.cc(c) > 0 {
      if st'.maxClass == props.cc(c) {
        assert st'.out[|st.out|] == c;
      } else {
        var j :| st.starter < j < |st.out| && props.cc(st.out[j]) == st.maxClass;
        assert st'.out[j] == st.out[j];
      }
    }
  }

  lemma TakeLocated(props: Properties, st: State, x: int)
    requires Located(props, st) && st.starter >= 0 && props.cc(x) == 0
    ensures Located(props, st.(out := st.out[st.starter := x]))
  {
    var st' := st.(out := st.out[st.starter := x]);
    if st.maxClass >= 0 {
      var j :| st.starter < j < |st.out| && props.cc(st.out[j]) == st.maxClass;
      assert st'.out[j] == st.out[j];
    }
  }

  lemma {:induction false} ComposedLocated(props: Properties, stable: bool, s: seq<int>)
    requires StarterCompositions(props)
    ensures Located(props, Composed(props, stable, s))
    decreases |s|
  {
    if s != [] {
      hide Located, Pair, Push, Joins;
      var st, c := Composed(props, stable, s[..|s| - 1]), s[|s| - 1];
      ComposedLocated(props, stable, s[..|s| - 1]);
      PushLocated(props, st, c);
      if st.starter >= 0 && Pair(props, stable, st.out[st.starter], c).Some? {
        var x := Pair(props, stable, st.out[st.starter], c).value;
        PairJoins(props, stable, st.out[st.starter], c, x);
        StarterIsStarter(props, st);
        TakeLocated(props, st, x);
      }
    }
  }

  lemma StarterIsStarter(props: Properties, st: State)
    requires Located(props, st) && st.starter >= 0
    ensures props.cc(st.out[st.starter]) == 0
  {}

  lemma Blocking(props: Properties, st: State, c: int)
    requires Located(props, st)
    ensures props.cc(c) > st.maxClass <==> forall j :: st.starter < j < |st.out| ==> props.cc(st.out[j]) < props.cc(c)
  {}

  // ---------- the laws ----------

  // One more character behind any text: it joins the last starter written if the two make a
  // composition and nothing between them blocks it; otherwise it is added at the end.
  lemma ComposeOneMore(props: Properties, stable: bool, s: seq<int>, c: int)
    requires StarterCompositions(props)
    ensures var o, o' := Compose(props, stable, s), Compose(props, stable, s + [c]);
            && (forall i, x :: LastStarter(props, o, i) && Unblocked(props, o, i, c) && Joins(props, stable, o[i], c, x)
                  ==> o' == o[i := x])
            && ((forall i, x :: LastStarter(props, o, i) && Unblocked(props, o, i, c)
                  ==> !Joins(props, stable, o[i], c, x)) ==> o' == o + [c])
  {
    var st := Composed(props, stable, s);
    ComposedLocated(props, stable, s);
    ComposedAppend(props, stable, s, c);
    NextLaw(props, stable, st, c);
  }

  lemma NextLaw(props: Properties, stable: bool, st: State, c: int)
    requires Located(props, st)
    ensures var o, o' := st.out, Next(props, stable, st, c).out;
            && (forall i, x :: LastStarter(props, o, i) && Unblocked(props, o, i, c) && Joins(props, stable, o[i], c, x)
                  ==> o' == o[i := x])
            && ((forall i, x :: LastStarter(props, o, i) && Unblocked(props, o, i, c)
                  ==> !Joins(props, stable, o[i], c, x)) ==> o' == o + [c])
  {
    hide Pair, Joins;
    var o := st.out;
    Blocking(props, st, c);
    forall i | LastStarter(props, o, i) ensures i == st.starter { OneLastStarter(props, st, i); }
    if st.starter >= 0 {
      forall x ensures Pair(props, stable, o[st.starter], c) == Some(x) <==> Joins(props, stable, o[st.starter], c, x) {
        PairJoins(props, stable, o[st.starter], c, x);
      }
    }
  }

  lemma OneLastStarter(props: Properties, st: State, i: int)
    requires Located(props, st) && LastStarter(props, st.out, i)
    ensures i == st.starter
  {}

  // A starter and the character behind it: one character if they make one, else the two.
  lemma ComposeTwo(props: Properties, stable: bool, a: int, b: int)
    requires StarterCompositions(props) && props.cc(a) == 0
    ensures forall x :: Joins(props, stable, a, b, x) ==> Compose(props, stable, [a, b]) == [x]
    ensures (forall x :: !Joins(props, stable, a, b, x)) ==> Compose(props, stable, [a, b]) == [a, b]
  {
    var o := Compose(props, stable, [a]);
    ComposeFirst(props, stable, a);
    assert [a] + [b] == [a, b];
    ComposeOneMore(props, stable, [a], b);
    assert LastStarter(props, o, 0);
    forall x | Joins(props, stable, a, b, x) ensures Compose(props, stable, [a, b]) == [x] { assert o[0 := x] == [x]; }
  }

  lemma ComposeFirst(props: Properties, stable: bool, a: int)
    ensures Compose(props, stable, [a]) == [a]
  {
    ComposedAppend(props, stable, [], a);
    assert [] + [a] == [a];
  }

  // For two characters that are not Hangul: exactly the table composition decides.
  lemma TableDecides(props: Properties, stable: bool, a: int, b: int)
    requires StarterCompositions(props) && props.cc(a) == 0
    requires !(0x1100 <= a < 0x1113) && !(0xAC00 <= a < 0xD7A4)
    ensures Compose(props, stable, [a, b])
            == var x := props.combinations(props.comb1st(a) + props.comb2nd(b));
               if props.comb1st(a) >= 0 && props.comb2nd(b) >= 0 && x >= 0 && (!stable || !props.excluded(x)) then [x]
               else [a, b]
  {
    ComposeTwo(props, stable, a, b);
    var x := props.combinations(props.comb1st(a) + props.comb2nd(b));
    assert Joins(props, stable, a, b, x) || forall y :: !Joins(props, stable, a, b, y);
  }

  // With stable on, nothing excluded comes in.
  lemma {:induction false} NothingExcluded(props: Properties, s: seq<int>, i: nat)
    requires i < |Compose(props, true, s)|
    ensures var c := Compose(props, true, s)[i]; c in s || 0xAC00 <= c < 0xD7A4 || !props.excluded(c)
    decreases |s|
  {
    var init, c := s[..|s| - 1], s[|s| - 1];
    var st := Composed(props, true, init);
    assert forall x :: x in init ==> x in s;
    if i < |st.out| { NothingExcluded(props, init, i); }
    if st.starter >= 0 && Pair(props, true, st.out[st.starter], c).Some? {
      var x := Pair(props, true, st.out[st.starter], c).value;
      PairJoins(props, true, st.out[st.starter], c, x);
      JoinsHangul(props, true, st.out[st.starter], c, x);
    }
  }

  lemma JoinsHangul(props: Properties, stable: bool, a: int, b: int, x: int)
    requires Joins(props, stable, a, b, x)
    ensures 0xAC00 <= x < 0xD7A4 || !stable || !props.excluded(x)
  {}
}
