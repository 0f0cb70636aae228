/**
 The composing loop of utf8proc_reencode (src/deps/utf8proc.c:453-522) and the Hangul arithmetic of
 utf8proc_decompose_char (Conjoining Jamo Behavior, section 3.12 of the Unicode Standard).

 Combining classes and the composition table are not part of this model; they are parameters.
 */
module Composition {
  import opened Bytes

  const SBASE := 0xAC00
  const LBASE := 0x1100
  const VBASE := 0x1161
  const TBASE := 0x11A7
  const LCOUNT := 19
  const VCOUNT := 21
  const TCOUNT := 28
  const NCOUNT := 588
  const SCOUNT := 11172

  predicate IsL(c: int) { LBASE <= c < LBASE + LCOUNT }
  predicate IsV(c: int) { VBASE <= c < VBASE + VCOUNT }
  // As the code tests it: TBASE itself, which is no trailing consonant, is included.
  predicate IsT(c: int) { TBASE <= c < TBASE + TCOUNT }
  predicate IsS(c: int) { SBASE <= c < SBASE + SCOUNT }
  predicate IsLV(c: int) { IsS(c) && (c - SBASE) % TCOUNT == 0 }

  datatype Properties = Properties(
    cc: int -> nat,           // combining_class
    comb1st: int -> int,      // comb1st_index
    comb2nd: int -> int,      // comb2nd_index
    combinations: int -> int, // utf8proc_combinations
    excluded: int -> bool     // comp_exclusion
  )

  // ---------- decomposing ----------

  // The jamo of a precomposed syllable; a trailing index of 0 means there is no trailing one.
  function LPart(c: int): int { LBASE + (c - SBASE) / NCOUNT }
  function VPart(c: int): int { VBASE + (c - SBASE) % NCOUNT / TCOUNT }
  function TIndex(c: int): int { (c - SBASE) % TCOUNT }

  // What utf8proc_decompose_char writes for a precomposed syllable; other characters are kept.
  function ExpandChar(c: int): seq<int> {
    if !IsS(c) then [c]
    else if TIndex(c) == 0 then [LPart(c), VPart(c)]
    else [LPart(c), VPart(c), TBASE + TIndex(c)]
  }

  function Expand(s: seq<int>): seq<int>
    decreases |s|
  {
    if s == [] then [] else Expand(s[..|s| - 1]) + ExpandChar(s[|s| - 1])
  }

  // ---------- composing ----------

  // out is buffer[0..wpos]; starter its index of the last starter, -1 for none.
  datatype State = State(out: seq<int>, starter: int, maxClass: int)

  predicate Sound(st: State) { -1 <= st.starter < |st.out| }

  function JoinLV(l: int, v: int): int { SBASE + ((l - LBASE) * VCOUNT + (v - VBASE)) * TCOUNT }

  // The character a starter and the current one make together, if any.
  function Pair(props: Properties, stable: bool, s0: int, ch: int): Option<int> {
    if IsL(s0) && IsV(ch) then Some(JoinLV(s0, ch))
    else if IsLV(s0) && IsT(ch) then Some(s0 + (ch - TBASE))
    else if props.comb1st(s0) >= 0 && props.comb2nd(ch) >= 0 then
      var composition := props.combinations(props.comb1st(s0) + props.comb2nd(ch));
      if composition >= 0 && (!stable || !props.excluded(composition)) then Some(composition) else None
    else None
  }

  function Push(props: Properties, st: State, ch: int): State {
    if props.cc(ch) > 0
    then State(st.out + [ch], st.starter, if props.cc(ch) > st.maxClass then props.cc(ch) else st.maxClass)
    else State(st.out + [ch], |st.out|, -1)
  }

  function Next(props: Properties, stable: bool, st: State, ch: int): (st': State)
    requires Sound(st)
    ensures Sound(st')
  {
    if st.starter >= 0 && props.cc(ch) > st.maxClass then
      match Pair(props, stable, st.out[st.starter], ch)
      case Some(c) => st.(out := st.out[st.starter := c])
      case None => Push(props, st, ch)
    else Push(props, st, ch)
  }

  function Composed(props: Properties, stable: bool, s: seq<int>): (st: State)
    ensures Sound(st)
    decreases |s|
  {
    if s == [] then State([], -1, -1) else Next(props, stable, Composed(props, stable, s[..|s| - 1]), s[|s| - 1])
  }

  function Compose(props: Properties, stable: bool, s: seq<int>): seq<int> { Composed(props, stable, s).out }

  lemma {:induction false} ComposeShrinks(props: Properties, stable: bool, s: seq<int>)
    ensures |Compose(props, stable, s)| <= |s|
    decreases |s|
  {
    if s != [] {
      ComposeShrinks(props, stable, s[..|s| - 1]);
    }
  }

  lemma ComposedNothing(props: Properties, stable: bool)
    ensures Composed(props, stable, []) == State([], -1, -1)
  {}

  lemma ComposedTake(props: Properties, stable: bool, input: seq<int>, rpos: nat)
    requires rpos < |input|
    ensures Composed(props, stable, input[..rpos + 1])
            == Next(props, stable, Composed(props, stable, input[..rpos]), input[rpos])
  {
    assert input[..rpos + 1][..rpos] == input[..rpos];
  }

  // The loop, in place: it writes only where it has read.
  method ComposeInPlace(props: Properties, stable: bool, buffer: array<int>, length: nat) returns (wpos: nat)
    requires length <= buffer.Length
    modifies buffer
    ensures wpos <= length && buffer[..wpos] == Compose(props, stable, old(buffer[..length]))
    ensures buffer[length..] == old(buffer[length..])
  {
    hide Composed, Pair;
    ghost var input := buffer[..length];
    ComposedNothing(props, stable);
    wpos := 0;
    var rpos, starter := 0, -1;
    var maxClass: int := -1;
    while rpos < length
      invariant wpos <= rpos <= length
      invariant Composed(props, stable, input[..rpos]) == State(buffer[..wpos], starter, maxClass)
      invariant starter < wpos
      invariant forall k :: rpos <= k < buffer.Length ==> buffer[k] == old(buffer[k])
    {
      var current := buffer[rpos];
      ComposedTake(props, stable, input, rpos);
      rpos := rpos + 1;
      if starter >= 0 && props.cc(current) > maxClass {
        var c := Pair(props, stable, buffer[starter], current);
        if c.Some? {
          buffer[starter] := c.value;
          continue;
        }
      }
      buffer[wpos] := current;
      if props.cc(current) > 0 {
        if props.cc(current) > maxClass { maxClass := props.cc(current); }
      } else {
        starter := wpos;
        maxClass := -1;
      }
      wpos := wpos + 1;
    }
    assert input[..length] == input;
  }

  // ---------- Hangul ----------

  ghost predicate HangulClasses(props: Properties) {
    forall c :: IsL(c) || IsV(c) || IsT(c) || IsS(c) ==> props.cc(c) == 0
  }

  // No two neighbours that the Hangul rules would put together.
  predicate NoOpenPairs(h: seq<int>) {
    forall i :: 0 <= i < |h| - 1 ==> !(IsL(h[i]) && IsV(h[i + 1])) && !(IsLV(h[i]) && IsT(h[i + 1]))
  }

  ghost predicate NoTable(props: Properties, h: seq<int>) {
    forall i :: 0 <= i < |h| ==> props.comb1st(h[i]) < 0
  }

  // The starter is the last character written, or a non-zero class bars any further pair of jamo.
  predicate Tracks(props: Properties, st: State) {
    && Sound(st)
    && (st.out == [] ==> st.maxClass == -1)
    && (st.out != [] && st.maxClass < 0 ==> st.starter == |st.out| - 1 && st.maxClass == -1)
  }

  lemma SyllableParts(c: int)
    requires IsS(c)
    ensures var t := TIndex(c);
            && IsL(LPart(c)) && IsV(VPart(c)) && 0 <= t < TCOUNT
            && IsLV(c - t) && c - t == JoinLV(LPart(c), VPart(c))
  {
    var i := c - SBASE;
    var q := i / TCOUNT;
    assert i == q * TCOUNT + TIndex(c);
    assert i / NCOUNT == q / VCOUNT && i % NCOUNT / TCOUNT == q % VCOUNT by { Quotients(i); }
    assert c - TIndex(c) - SBASE == q * TCOUNT;
  }

  // One division by 588, or one by 28 and one by 21.
  lemma Quotients(i: nat)
    ensures i / NCOUNT == i / TCOUNT / VCOUNT && i % NCOUNT / TCOUNT == i / TCOUNT % VCOUNT
  {}

  // The syllable of index q * 28 + t.
  lemma IndexParts(q: nat, t: nat)
    requires q < LCOUNT * VCOUNT && t < TCOUNT
    ensures var c := SBASE + q * TCOUNT + t;
            IsS(c) && TIndex(c) == t && LPart(c) == LBASE + q / VCOUNT && VPart(c) == VBASE + q % VCOUNT
  {
    var i := q * TCOUNT + t;
    assert i / TCOUNT == q && i % TCOUNT == t;
    Quotients(i);
  }

  lemma PairParts(l: int, v: int)
    requires IsL(l) && IsV(v)
    ensures var c := JoinLV(l, v); IsLV(c) && ExpandChar(c) == [l, v]
  {
    var q := (l - LBASE) * VCOUNT + (v - VBASE);
    assert q / VCOUNT == l - LBASE && q % VCOUNT == v - VBASE;
    hide LPart, VPart, TIndex;
    IndexParts(q, 0);
  }

  lemma TripleParts(c: int, t: int)
    requires IsLV(c) && IsT(t) && t != TBASE
    ensures IsS(c + (t - TBASE)) && !IsLV(c + (t - TBASE)) && ExpandChar(c + (t - TBASE)) == ExpandChar(c) + [t]
  {
    hide LPart, VPart;
    var q := (c - SBASE) / TCOUNT;
    assert c - SBASE == q * TCOUNT && q < LCOUNT * VCOUNT;
    IndexParts(q, 0);
    IndexParts(q, t - TBASE);
  }

  lemma {:induction false} ComposedAppend(props: Properties, stable: bool, s: seq<int>, c: int)
    ensures Composed(props, stable, s + [c]) == Next(props, stable, Composed(props, stable, s), c)
  {}

  // The three steps of one syllable.
  lemma NextL(props: Properties, stable: bool, st: State, l: int)
    requires HangulClasses(props) && Sound(st) && IsL(l) && (st.starter >= 0 ==> props.comb1st(st.out[st.starter]) < 0)
    ensures Next(props, stable, st, l) == State(st.out + [l], |st.out|, -1)
  {}

  lemma NextV(props: Properties, stable: bool, out: seq<int>, l: int, v: int)
    requires HangulClasses(props) && IsL(l) && IsV(v)
    ensures Next(props, stable, State(out + [l], |out|, -1), v)
            == State(out + [JoinLV(l, v)], |out|, -1)
  {}

  lemma NextT(props: Properties, stable: bool, out: seq<int>, lv: int, t: int)
    requires HangulClasses(props) && IsLV(lv) && IsT(t)
    ensures Next(props, stable, State(out + [lv], |out|, -1), t) == State(out + [lv + (t - TBASE)], |out|, -1)
  {}

  lemma ComposeLV(props: Properties, stable: bool, s: seq<int>, c: int)
    requires HangulClasses(props) && IsS(c)
    requires var st := Composed(props, stable, s); st.starter >= 0 ==> props.comb1st(st.out[st.starter]) < 0
    ensures var st := Composed(props, stable, s);
            Composed(props, stable, s + [LPart(c), VPart(c)]) == State(st.out + [c - TIndex(c)], |st.out|, -1)
  {
    hide *;
    var st := Composed(props, stable, s);
    SyllableParts(c);
    NextL(props, stable, st, LPart(c));
    NextV(props, stable, st.out, LPart(c), VPart(c));
    ComposedTwo(props, stable, s, LPart(c), VPart(c));
  }

  // The jamo of one syllable, after a text whose last starter begins no table composition.
  lemma ComposeSyllable(props: Properties, stable: bool, s: seq<int>, c: int)
    requires HangulClasses(props) && IsS(c)
    requires var st := Composed(props, stable, s); st.starter >= 0 ==> props.comb1st(st.out[st.starter]) < 0
    ensures var st := Composed(props, stable, s);
            Composed(props, stable, s + ExpandChar(c)) == State(st.out + [c], |st.out|, -1)
  {
    hide *;
    ExpandSyllable(c);
    ComposeLV(props, stable, s, c);
    var st := Composed(props, stable, s);
    var l, v, t := LPart(c), VPart(c), TIndex(c);
    SyllableParts(c);
    if t > 0 {
      TrailingIsT(t);
      NextT(props, stable, st.out, c - t, TBASE + t);
      ComposedAppend(props, stable, s + [l, v], TBASE + t);
      Regroup(s, l, v, TBASE + t);
    }
  }

  lemma Regroup(s: seq<int>, a: int, b: int, c: int)
    ensures s + [a, b] + [c] == s + [a, b, c]
  {}

  lemma ExpandSyllable(c: int)
    requires IsS(c)
    ensures ExpandChar(c) == if TIndex(c) == 0 then [LPart(c), VPart(c)] else [LPart(c), VPart(c), TBASE + TIndex(c)]
    ensures 0 <= TIndex(c) < TCOUNT
  {}

  lemma ComposedTwo(props: Properties, stable: bool, s: seq<int>, a: int, b: int)
    ensures Composed(props, stable, s + [a, b]) == Next(props, stable, Next(props, stable, Composed(props, stable, s), a), b)
  {
    ComposedAppend(props, stable, s, a);
    ComposedAppend(props, stable, s + [a], b);
    assert s + [a] + [b] == s + [a, b];
  }

  lemma TrailingIsT(t: int)
    requires 0 <= t < TCOUNT
    ensures IsT(TBASE + t)
  {}

  // A character that joins no pair with what is before it.
  lemma NextAlone(props: Properties, stable: bool, st: State, c: int)
    requires HangulClasses(props) && Tracks(props, st) && (st.starter >= 0 ==> props.comb1st(st.out[st.starter]) < 0)
    requires st.out != [] ==> var o := st.out[|st.out| - 1]; !(IsL(o) && IsV(c)) && !(IsLV(o) && IsT(c))
    ensures Next(props, stable, st, c) == Push(props, st, c)
  {}

  // Decomposing and composing again is the identity on every text without open Hangul pairs
  // whose characters begin no table composition.
  lemma {:induction false} ComposeAfterExpand(props: Properties, stable: bool, h: seq<int>)
    requires HangulClasses(props) && NoOpenPairs(h) && NoTable(props, h)
    ensures Compose(props, stable, Expand(h)) == h
    ensures Tracks(props, Composed(props, stable, Expand(h)))
    decreases |h|
  {
    hide Next, Pair, IsLV, IsL, IsV, IsT, IsS, HangulClasses, ExpandChar, Composed;
    if h == [] {
      ComposedNothing(props, stable);
    } else {
      var init, c := h[..|h| - 1], h[|h| - 1];
      ComposeAfterExpand(props, stable, init);
      var st := Composed(props, stable, Expand(init));
      if st.starter >= 0 {
        assert props.comb1st(h[st.starter]) < 0;
      }
      if IsS(c) {
        ComposeSyllable(props, stable, Expand(init), c);
      } else {
        assert |h| >= 2 ==> init[|init| - 1] == h[|h| - 2];
        NextAlone(props, stable, st, c);
        ExpandOther(c);
        ComposedAppend(props, stable, Expand(init), c);
      }
    }
  }

  lemma ExpandOther(c: int)
    requires !IsS(c)
    ensures ExpandChar(c) == [c]
  {}

  predicate AllSyllables(h: seq<int>) { forall i :: 0 <= i < |h| ==> IsS(h[i]) }

  // In particular for every sequence of precomposed syllables.
  lemma HangulRoundTrip(props: Properties, stable: bool, h: seq<int>)
    requires HangulClasses(props) && AllSyllables(h) && NoTable(props, h)
    ensures Compose(props, stable, Expand(h)) == h
  {
    ComposeAfterExpand(props, stable, h);
  }
}
