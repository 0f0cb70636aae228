/**
 The passes of utf8proc_reencode on a text (src/deps/utf8proc.c:420-522): what becomes of newlines
 and control characters, and what the options select.
 */
module PipelineLaws {
  import opened Bytes
  import opened Composition
  import opened ComposeLaws
  import opened Decomposition
  import opened Reencoding

  // What stands for a newline: LF, a line separator, a paragraph separator or a space.
  function NewlineChar(o: Options): int {
    match (o.nlf2ls, o.nlf2ps)
    case (true, true) => 0x0A
    case (true, false) => 0x2028
    case (false, true) => 0x2029
    case (false, false) => 0x20
  }

  // Newlines are replaced; of the control characters STRIPCC turns tabs into spaces, VT and FF into
  // newlines and drops the others. Everything else is kept.
  lemma OneCharacter(o: Options, c: int)
    ensures Newlines(o, [c])
            == if c in {0x0A, 0x0D, 0x85} then [NewlineChar(o)]
               else if !o.stripcc then [c]
               else if c in {0x0B, 0x0C} then [NewlineChar(o)]
               else if c == 0x09 then [0x20]
               else if c < 0x20 || 0x7F <= c < 0xA0 then []
               else [c]
  {
    assert [c][1..] == [];
  }

  // A carriage return with its line feed is one newline.
  lemma CrLfIsOne(o: Options)
    ensures Newlines(o, [0x0D, 0x0A]) == [NewlineChar(o)]
  {
    assert [0x0D, 0x0A][2..] == [];
  }

  // Otherwise texts are converted piece by piece.
  lemma {:induction false} NewlinesConcat(o: Options, a: seq<int>, b: seq<int>)
    requires !(a != [] && a[|a| - 1] == 0x0D && b != [] && b[0] == 0x0A)
    ensures Newlines(o, a + b) == Newlines(o, a) + Newlines(o, b)
    decreases |a|
  {
    hide Newlines, Converted;
    if a == [] {
      NewlinesFirst(o, a);
      assert a + b == b && Newlines(o, a) + Newlines(o, b) == Newlines(o, b);
    } else {
      var k := if IsCrLf(a) then 2 else 1;
      assert IsCrLf(a + b) <==> IsCrLf(a);
      assert (a + b)[k..] == a[k..] + b && (a + b)[0] == a[0];
      NewlinesFirst(o, a);
      NewlinesFirst(o, a + b);
      NewlinesConcat(o, a[k..], b);
    }
  }

  lemma NewlinesFirst(o: Options, s: seq<int>)
    ensures Newlines(o, s)
            == if s == [] then [] else Converted(o, s[0]) + Newlines(o, s[if IsCrLf(s) then 2 else 1..])
  {}

  // Newlines are handled if one of the three options asks for it, and before composing.
  lemma OptionsSelect(tab: Table, o: Options, s: seq<int>)
    ensures var s1 := if o.nlf2ls || o.nlf2ps || o.stripcc then Newlines(o, s) else s;
            Reworked(tab, o, s) == if o.compose then Compose(tab.props, o.stable, s1) else s1
  {}

  // Under COMPOSE and STABLE no character excluded from composition comes in.
  lemma StableExcludes(tab: Table, o: Options, s: seq<int>, i: nat)
    requires o.compose && o.stable && !o.nlf2ls && !o.nlf2ps && !o.stripcc && i < |Reworked(tab, o, s)|
    ensures var c := Reworked(tab, o, s)[i]; c in s || 0xAC00 <= c < 0xD7A4 || !tab.props.excluded(c)
  {
    NothingExcluded(tab.props, s, i);
  }

  // The form utf8proc_NFC asks for, on a starter and the character behind it: the two become one
  // if the tables have a composition of them that is not excluded.
  lemma NfcOfTwo(tab: Table, o: Options, a: int, b: int)
    requires StarterCompositions(tab.props) && tab.props.cc(a) == 0
    requires !(0x1100 <= a < 0x1113) && !(0xAC00 <= a < 0xD7A4)
    requires o.compose && o.stable && !o.nlf2ls && !o.nlf2ps && !o.stripcc
    ensures var x := tab.props.combinations(tab.props.comb1st(a) + tab.props.comb2nd(b));
            Reworked(tab, o, [a, b])
            == if tab.props.comb1st(a) >= 0 && tab.props.comb2nd(b) >= 0 && x >= 0 && !tab.props.excluded(x) then [x]
               else [a, b]
  {
    TableDecides(tab.props, true, a, b);
  }
}
