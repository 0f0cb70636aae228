/**
 The two canonical forms of utf8proc_map (src/deps/utf8proc.c:535-562) against each other:
 decomposing a composed text gives what decomposing the text itself gives.
 */
module Normalization {
  import opened CanonicalOrder
  import opened Composition
  import opened CanonicalMeaning
  import opened Decomposition
  import opened DecomposeLaws
  import opened Reencoding

  // Options that ask for a canonical form and nothing else.
  predicate PlainForm(o: Options) {
    Conjoins(o) && !o.compat && !o.ignore && !o.casefold && !o.charbound && !o.lump && !o.stripmark
    && !HandlesNewlines(o)
  }

  const NFD := Options(false, true, false, false, true, false, false, false, false, false, false, false, false)

  // The canonical decomposition of one character.
  ghost function Canonically(tab: Table, c: int): seq<int>
    requires WellFounded(tab)
  {
    Decomp(tab, NFD, c, Start).out
  }

  // A mapping that is not canonical plays no part in the canonical forms.
  lemma OnlyCanonicalMappings(tab: Table, c: int)
    requires WellFounded(tab) && !Syllable(c)
    ensures Canonically(tab, c)
            == if tab.mapping(c).Some? && tab.canonical(c) then DecompText(tab, NFD, tab.mapping(c).value).out else [c]
  {
    MappingApplies(tab, NFD, c, Start);
  }

  // What the tables of a Unicode version satisfy: a composition decomposes to what its two parts
  // decompose to, marks decompose to marks of their class, and Hangul is in no table.
  ghost predicate CanonicalTables(tab: Table)
    requires WellFounded(tab)
  {
    && HangulClasses(tab.props)
    && HangulUnmapped(tab)
    && (forall c :: IsHangul(c) ==> tab.props.comb1st(c) < 0 && tab.props.comb2nd(c) < 0)
    && (forall m, i :: tab.props.cc(m) > 0 && 0 <= i < |Canonically(tab, m)| ==>
          tab.props.cc(Canonically(tab, m)[i]) == tab.props.cc(m))
    && (forall a, b :: tab.props.comb1st(a) >= 0 && tab.props.comb2nd(b) >= 0 ==>
          UndoesDecomposing(tab, a, b, tab.props.combinations(tab.props.comb1st(a) + tab.props.comb2nd(b))))
  }

  ghost predicate HangulUnmapped(tab: Table) { forall c :: IsHangul(c) ==> tab.mapping(c).None? }

  ghost predicate UndoesDecomposing(tab: Table, a: int, b: int, c: int)
    requires WellFounded(tab)
  {
    c >= 0 ==> !IsHangul(c) && Canonically(tab, c) == Canonically(tab, a) + Canonically(tab, b)
  }

  // ---------- one character ----------

  // The canonical forms decompose alike, and leave the boundary class alone.
  lemma {:induction false} PlainDecomp(tab: Table, o: Options, c: int, last: BoundClass)
    requires WellFounded(tab) && PlainForm(o)
    ensures Decomp(tab, o, c, last) == Written(Canonically(tab, c), last)
    decreases 2 * tab.rank(c) + 1, 0
  {
    assert RuleFor(tab, o, c) == RuleFor(tab, NFD, c);
    match RuleFor(tab, o, c)
    case Map(entries) =>
      PlainDecompAll(tab, o, entries, tab.rank(c), last);
    case _ =>
  }

  lemma {:induction false} PlainDecompAll(tab: Table, o: Options, entries: seq<int>, r: nat, last: BoundClass)
    requires WellFounded(tab) && PlainForm(o) && Lower(tab, entries, r)
    ensures DecompAll(tab, o, entries, r, last) == Written(DecompAll(tab, NFD, entries, r, Start).out, last)
    decreases 2 * r, |entries|
  {
    if entries != [] {
      var init, c := entries[..|entries| - 1], entries[|entries| - 1];
      PlainDecompAll(tab, o, init, r, last);
      PlainDecompAll(tab, NFD, init, r, Start);
      PlainDecomp(tab, o, c, last);
      PlainDecomp(tab, NFD, c, Start);
    }
  }

  // Nothing of a decomposition decomposes further.
  ghost predicate Final(tab: Table, s: seq<int>)
    requires WellFounded(tab)
  {
    forall i :: 0 <= i < |s| ==> Canonically(tab, s[i]) == [s[i]]
  }

  lemma {:induction false} DecompIsFinal(tab: Table, c: int)
    requires WellFounded(tab) && HangulUnmapped(tab)
    ensures Final(tab, Canonically(tab, c))
    decreases 2 * tab.rank(c) + 1, 0
  {
    match RuleFor(tab, NFD, c)
    case Hangul =>
      SyllableParts(c);
      forall j | IsL(j) || IsV(j) || IsT(j) ensures Canonically(tab, j) == [j] { JamoIsFinal(tab, j); }
    case Map(entries) =>
      DecompAllIsFinal(tab, entries, tab.rank(c));
    case Keep =>
    case _ =>
  }

  lemma JamoIsFinal(tab: Table, j: int)
    requires WellFounded(tab) && tab.mapping(j).None? && !IsS(j)
    ensures Canonically(tab, j) == [j]
  {}

  lemma {:induction false} DecompAllIsFinal(tab: Table, entries: seq<int>, r: nat)
    requires WellFounded(tab) && HangulUnmapped(tab) && Lower(tab, entries, r)
    ensures Final(tab, DecompAll(tab, NFD, entries, r, Start).out)
    decreases 2 * r, |entries|
  {
    if entries != [] {
      var init, c := entries[..|entries| - 1], entries[|entries| - 1];
      DecompAllIsFinal(tab, init, r);
      DecompIsFinal(tab, c);
      PlainDecomp(tab, NFD, c, DecompAll(tab, NFD, init, r, Start).last);
    }
  }

  // ---------- a text ----------

  lemma {:induction false} PlainText(tab: Table, o: Options, D: int -> seq<int>, s: seq<int>)
    requires WellFounded(tab) && PlainForm(o) && forall c :: D(c) == Canonically(tab, c)
    ensures DecompText(tab, o, s) == Written(Full(D, s), Start)
    decreases |s|
  {
    if s != [] {
      hide Decomp, Canonically;
      PlainText(tab, o, D, s[..|s| - 1]);
      PlainDecomp(tab, o, s[|s| - 1], Start);
    }
  }

  lemma {:induction false} FullIsFinal(tab: Table, D: int -> seq<int>, s: seq<int>)
    requires WellFounded(tab) && HangulUnmapped(tab)
    requires forall c :: D(c) == Canonically(tab, c)
    ensures Final(tab, Full(D, s))
    decreases |s|
  {
    if s != [] {
      hide Canonically;
      FullIsFinal(tab, D, s[..|s| - 1]);
      DecompIsFinal(tab, s[|s| - 1]);
    }
  }

  lemma {:induction false} FullOfFinal(tab: Table, D: int -> seq<int>, s: seq<int>)
    requires WellFounded(tab) && Final(tab, s) && forall c :: D(c) == Canonically(tab, c)
    ensures Full(D, s) == s
    decreases |s|
  {
    if s != [] {
      hide Canonically;
      FullOfFinal(tab, D, s[..|s| - 1]);
    }
  }

  lemma CanonIsFinal(tab: Table, s: seq<int>)
    requires WellFounded(tab) && Final(tab, s)
    ensures Final(tab, Canon(tab.props.cc, s))
  {
    hide Canonically, Canon;
    var t := Canon(tab.props.cc, s);
    CanonStable(tab.props.cc, s, 0);
    forall i | 0 <= i < |t| ensures Canonically(tab, t[i]) == [t[i]] {
      assert t[i] in multiset(t);
      assert t[i] in s;
    }
  }

  lemma TablesAgree(tab: Table, D: int -> seq<int>, A: int -> bool)
    requires WellFounded(tab) && CanonicalTables(tab) && (forall c :: D(c) == Canonically(tab, c)) && forall c :: A(c)
    ensures Agrees(tab.props, D, A)
  {
    hide Canonically, IsHangul, CompositionFits, UndoesDecomposing, WellFounded, HangulClasses, ExpandChar;
    forall c | IsHangul(c) ensures D(c) == ExpandChar(c) { HangulDecomp(tab, c); }
    forall m, i | tab.props.cc(m) > 0 && 0 <= i < |D(m)| ensures tab.props.cc(D(m)[i]) == tab.props.cc(m) {
      assert D(m) == Canonically(tab, m);
    }
    forall a, b | tab.props.comb1st(a) >= 0 && tab.props.comb2nd(b) >= 0
      ensures CompositionFits(D, A, a, b, tab.props.combinations(tab.props.comb1st(a) + tab.props.comb2nd(b)))
    {
      var c := tab.props.combinations(tab.props.comb1st(a) + tab.props.comb2nd(b));
      assert UndoesDecomposing(tab, a, b, c);
      CompositionAgrees(tab, D, A, a, b, c);
    }
  }

  lemma CompositionAgrees(tab: Table, D: int -> seq<int>, A: int -> bool, a: int, b: int, c: int)
    requires WellFounded(tab) && (forall x :: D(x) == Canonically(tab, x)) && A(c)
    requires UndoesDecomposing(tab, a, b, c) && !IsHangul(b)
    ensures CompositionFits(D, A, a, b, c)
  {
    hide Canonically, IsHangul;
  }

  lemma HangulDecomp(tab: Table, c: int)
    requires WellFounded(tab) && IsHangul(c) && tab.mapping(c).None?
    ensures Canonically(tab, c) == ExpandChar(c)
  {}

  lemma PlainIs(tab: Table, o: Options, D: int -> seq<int>, s: seq<int>)
    requires WellFounded(tab) && PlainForm(o) && forall c :: D(c) == Canonically(tab, c)
    ensures Decomposed(tab, o, s) == Canon(tab.props.cc, Full(D, s))
  {
    hide Canon, Full, Canonically, WellFounded, DecompText;
    PlainText(tab, o, D, s);
  }

  // A text in decomposed form is its own decomposed form.
  lemma DecomposedIsFinal(tab: Table, D: int -> seq<int>, s: seq<int>)
    requires WellFounded(tab) && HangulUnmapped(tab) && forall c :: D(c) == Canonically(tab, c)
    ensures var d := Canon(tab.props.cc, Full(D, s)); Final(tab, d) && Ordered(tab.props.cc, d)
  {
    hide *;
    FullIsFinal(tab, D, s);
    CanonIsFinal(tab, Full(D, s));
    CanonOrdered(tab.props.cc, Full(D, s));
  }

  lemma FinalIsFixed(tab: Table, D: int -> seq<int>, d: seq<int>)
    requires WellFounded(tab) && (forall c :: D(c) == Canonically(tab, c)) && Final(tab, d) && Ordered(tab.props.cc, d)
    ensures Full(D, d) == d && Canon(tab.props.cc, d) == d
  {
    hide *;
    FullOfFinal(tab, D, d);
    OrderedIsCanon(tab.props.cc, d);
  }

  // For any text and the options C of a composed form and N of a decomposed form: both decompose
  // alike, and the decomposed form is stable. Decomposing the composed form gives the decomposed
  // form exactly when that has no U+11A7 behind an LV syllable.
  lemma FormsAgree(tab: Table, C: Options, N: Options, s: seq<int>)
    requires WellFounded(tab) && CanonicalTables(tab) && PlainForm(C) && PlainForm(N) && C.compose
    ensures var nfd := Decomposed(tab, N, s);
            var nfc := Reworked(tab, C, Decomposed(tab, C, s));
            && Decomposed(tab, C, s) == nfd == Decomposed(tab, N, nfd)
            && (Decomposed(tab, N, nfc) == nfd <==> !Swallows(nfd))
  {
    hide Decomposed, Compose, Canon, Full, Canonically, WellFounded, Swallows, Final, Ordered, Agrees;
    var D, A := (c: int) => Canonically(tab, c), (c: int) => true;
    var nfd := Decomposed(tab, N, s);
    var nfc := Compose(tab.props, C.stable, nfd);
    PlainIs(tab, C, D, s);
    PlainIs(tab, N, D, s);
    DecomposedIsFinal(tab, D, s);
    FinalIsFixed(tab, D, nfd);
    PlainIs(tab, N, D, nfd);
    PlainIs(tab, N, D, nfc);
    TablesAgree(tab, D, A);
    ComposeKeepsMeaning(tab.props, C.stable, D, A, nfd);
  }

  // The composed form of any text is stable: composing it again changes nothing, whatever was
  // swallowed the first time.
  lemma ComposedFormIsStable(tab: Table, C: Options, s: seq<int>)
    requires WellFounded(tab) && CanonicalTables(tab) && PlainForm(C) && C.compose
    ensures var nfc := Reworked(tab, C, Decomposed(tab, C, s));
            Reworked(tab, C, Decomposed(tab, C, nfc)) == nfc
  {
    hide Decomposed, Compose, Canon, Full, Canonically, WellFounded, Swallows, Final, Ordered, Agrees, Reflects, SameEnd;
    var D, A := (c: int) => Canonically(tab, c), (c: int) => true;
    var d := Decomposed(tab, C, s);
    var nfc := Compose(tab.props, C.stable, d);
    PlainIs(tab, C, D, s);
    PlainIs(tab, C, D, nfc);
    DecomposedIsFinal(tab, D, s);
    TablesAgree(tab, D, A);
    var x := Thin(tab.props, C.stable, D, A, d);
    SameCompose(tab.props, C.stable, d, x);
    FinalPart(tab, d, x);
    FinalIsFixed(tab, D, x);
    ComposeKeepsMeaning(tab.props, C.stable, D, A, x);
  }

  lemma FinalPart(tab: Table, d: seq<int>, x: seq<int>)
    requires WellFounded(tab) && Final(tab, d) && forall c :: c in x ==> c in d
    ensures Final(tab, x)
  {
    hide Canonically;
    forall i | 0 <= i < |x| ensures Canonically(tab, x[i]) == [x[i]] {
      assert x[i] in x;
      var j :| 0 <= j < |d| && d[j] == x[i];
    }
  }

  lemma SameCompose(props: Properties, stable: bool, s: seq<int>, x: seq<int>)
    requires Thinned(props, stable, s, x)
    ensures Compose(props, stable, x) == Compose(props, stable, s)
  {}
}
