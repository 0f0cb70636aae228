/**
 What utf8proc_decompose_char writes under each option (src/deps/utf8proc.c:209-356): which
 mappings are applied, what is dropped, folded or lumped together, and where boundaries are marked.
 */
module DecomposeLaws {
  import opened Bytes
  import opened Composition
  import opened Decomposition

  predicate Syllable(c: int) { 0xAC00 <= c < 0xD7A4 }
  predicate Mark(tab: Table, c: int) { tab.category(c) in {6, 7, 8} }

  function Unlumped(o: Options): Options { o.(lump := false) }

  // Decomp, one step deep.
  ghost predicate StepOf(tab: Table, o: Options, c: int, last: BoundClass, rule: Rule)
    requires WellFounded(tab)
  {
    match rule
    case Hangul => (o.compose || o.decompose) && Syllable(c)
    case Nothing => Decomp(tab, o, c, last) == Written([], last)
    case Lump(target) => o.lump && Decomp(tab, o, c, last) == Decomp(tab, Unlumped(o), target, last)
    case Map(entries) => && Lower(tab, entries, tab.rank(c))
                         && Decomp(tab, o, c, last) == DecompAll(tab, o, entries, tab.rank(c), last)
    case Keep => Decomp(tab, o, c, last) == Kept(tab, o, c, last)
  }

  lemma Unfolded(tab: Table, o: Options, c: int, last: BoundClass)
    requires WellFounded(tab)
    ensures StepOf(tab, o, c, last, RuleFor(tab, o, c))
  {
    hide Kept, LumpTarget, ExpandChar;
  }

  // ---------- without boundary marks ----------

  // The boundary class has no influence then.
  lemma {:induction false} Classless(tab: Table, o: Options, c: int, last: BoundClass)
    requires WellFounded(tab) && !o.charbound
    ensures Decomp(tab, o, c, last) == Written(Decomp(tab, o, c, Start).out, last)
    decreases o.lump, 2 * tab.rank(c) + 1, 0
  {
    match RuleFor(tab, o, c)
    case Lump(target) => Classless(tab, o.(lump := false), target, last);
    case Map(entries) =>
      EntriesInTurn(tab, o, entries, tab.rank(c), last);
      EntriesInTurn(tab, o, entries, tab.rank(c), Start);
    case _ =>
  }

  // The entries of a mapping are decomposed as a text is.
  lemma {:induction false} EntriesInTurn(tab: Table, o: Options, entries: seq<int>, r: nat, last: BoundClass)
    requires WellFounded(tab) && !o.charbound && Lower(tab, entries, r)
    ensures DecompAll(tab, o, entries, r, last) == Written(DecompText(tab, o, entries).out, last)
    ensures DecompText(tab, o, entries).last == Start
    decreases o.lump, 2 * r, |entries|
  {
    if entries != [] {
      var init, c := entries[..|entries| - 1], entries[|entries| - 1];
      EntriesInTurn(tab, o, init, r, last);
      Classless(tab, o, c, last);
      Classless(tab, o, c, Start);
    }
  }

  // ---------- which mappings are applied ----------

  // A precomposed syllable is taken apart by arithmetic, whatever else is asked for.
  lemma SyllableDecomposes(tab: Table, o: Options, c: int, last: BoundClass)
    requires WellFounded(tab) && (o.compose || o.decompose) && Syllable(c)
    ensures Decomp(tab, o, c, last).out
            == [0x1100 + (c - 0xAC00) / 588, 0x1161 + (c - 0xAC00) % 588 / 28]
               + if (c - 0xAC00) % 28 == 0 then [] else [0x11A7 + (c - 0xAC00) % 28]
  {}

  // With a form asked for and nothing else, a mapping is applied if it is canonical, or any is
  // wanted; its entries are then decomposed in turn. Other characters are kept.
  lemma MappingApplies(tab: Table, o: Options, c: int, last: BoundClass)
    requires WellFounded(tab) && (o.compose || o.decompose) && !Syllable(c)
    requires !o.ignore && !o.lump && !o.stripmark && !o.casefold && !o.charbound
    ensures Decomp(tab, o, c, last).out
            == match tab.mapping(c)
               case None => [c]
               case Some(entries) => if tab.canonical(c) || o.compat then DecompText(tab, o, entries).out else [c]
  {
    if tab.mapping(c).Some? { EntriesInTurn(tab, o, tab.mapping(c).value, tab.rank(c), last); }
  }

  // Without a form or another option every character is kept, syllables included.
  lemma NothingAsked(tab: Table, o: Options, c: int, last: BoundClass)
    requires WellFounded(tab) && !o.compose && !o.decompose
    requires !o.ignore && !o.lump && !o.stripmark && !o.casefold && !o.charbound
    ensures Decomp(tab, o, c, last).out == [c]
  {}

  // ---------- what is dropped, folded, lumped together ----------

  lemma IgnorableIsDropped(tab: Table, o: Options, c: int, last: BoundClass)
    requires WellFounded(tab) && o.ignore && tab.ignorable(c) && !((o.compose || o.decompose) && Syllable(c))
    ensures Decomp(tab, o, c, last) == Written([], last)
  {}

  lemma MarkIsStripped(tab: Table, o: Options, c: int, last: BoundClass)
    requires WellFounded(tab) && o.stripmark && Mark(tab, c) && !o.lump && !((o.compose || o.decompose) && Syllable(c))
    ensures Decomp(tab, o, c, last) == Written([], last)
  {}

  lemma CaseIsFolded(tab: Table, o: Options, c: int, last: BoundClass)
    requires WellFounded(tab) && o.casefold && tab.casefold(c).Some? && !((o.compose || o.decompose) && Syllable(c))
    requires !(o.ignore && tab.ignorable(c)) && !o.lump && !(o.stripmark && Mark(tab, c)) && !o.charbound
    ensures Decomp(tab, o, c, last).out == DecompText(tab, o, tab.casefold(c).value).out
  {
    EntriesInTurn(tab, o, tab.casefold(c).value, tab.rank(c), last);
  }

  // Characters that LUMP replaces by one of ASCII, and those.
  const LUMPED: map<int, int> := map[
    0x2018 := 0x27, 0x2019 := 0x27, 0x02BC := 0x27, 0x02C8 := 0x27, 0x2212 := 0x2D, 0x2044 := 0x2F, 0x2215 := 0x2F,
    0x2236 := 0x3A, 0x2039 := 0x3C, 0x2329 := 0x3C, 0x3008 := 0x3C, 0x203A := 0x3E, 0x232A := 0x3E, 0x3009 := 0x3E,
    0x2216 := 0x5C, 0x02C4 := 0x5E, 0x02C6 := 0x5E, 0x2038 := 0x5E, 0x2303 := 0x5E, 0x02CD := 0x5F, 0x02CB := 0x60,
    0x2223 := 0x7C, 0x223C := 0x7E
  ]

  // Spaces (category 23), dashes (13), connectors (12), and with both newline options separators
  // of lines and paragraphs (24, 25) are lumped whatever the character.
  predicate LumpedAs(tab: Table, o: Options, c: int, target: int) {
    match tab.category(c)
    case 23 => target == 0x20
    case 13 => target == 0x2D
    case 12 => target == 0x5F
    case 24 => o.nlf2ls && o.nlf2ps && target == 0x0A
    case 25 => o.nlf2ls && o.nlf2ps && target == 0x0A
    case _ => c in LUMPED && target == LUMPED[c]
  }

  // A lumped character is written as its target is, without lumping again.
  lemma LumpedIsTarget(tab: Table, o: Options, c: int, target: int, last: BoundClass)
    requires WellFounded(tab) && o.lump && !(o.ignore && tab.ignorable(c)) && !((o.compose || o.decompose) && Syllable(c))
    requires c in LUMPED ==> tab.category(c) !in {12, 13, 23, 24, 25}
    requires LumpedAs(tab, o, c, target)
    ensures Decomp(tab, o, c, last) == Decomp(tab, o.(lump := false), target, last)
  {
    hide RuleFor, LumpedAs, Decomp, WellFounded;
    LumpRule(tab, o, c, target);
    LumpCase(tab, o, c, target, last);
  }

  lemma LumpRule(tab: Table, o: Options, c: int, target: int)
    requires o.lump && !(o.ignore && tab.ignorable(c)) && !((o.compose || o.decompose) && Syllable(c))
    requires c in LUMPED ==> tab.category(c) !in {12, 13, 23, 24, 25}
    requires LumpedAs(tab, o, c, target)
    ensures RuleFor(tab, o, c) == Lump(target)
  {}

  // Other characters are not touched by LUMP.
  lemma OthersAreNotLumped(tab: Table, o: Options, c: int, last: BoundClass)
    requires WellFounded(tab) && o.lump && !o.ignore && !o.stripmark && !o.casefold && !o.charbound
    requires !((o.compose || o.decompose) && (Syllable(c) || tab.mapping(c).Some?))
    requires c !in LUMPED && (tab.category(c) in {24, 25} ==> !(o.nlf2ls && o.nlf2ps)) && tab.category(c) !in {12, 13, 23}
    ensures Decomp(tab, o, c, last).out == [c]
  {}

  // ---------- what is left ----------

  predicate Jamo(c: int) { 0x1100 <= c < 0x1113 || 0x1161 <= c < 0x1176 || 0x11A8 <= c < 0x11C3 }

  // Nothing that the options would still change: x is a boundary mark, a jamo, or a character
  // that is neither ignorable, nor a mark to strip, nor folded, nor mapped.
  predicate Settled(tab: Table, o: Options, x: int) {
    || x == 0xFFFF
    || Jamo(x)
    || (&& (o.ignore ==> !tab.ignorable(x))
        && (o.stripmark ==> !Mark(tab, x))
        && (o.casefold ==> tab.casefold(x).None?)
        && (o.compose || o.decompose ==> !Syllable(x) && (tab.mapping(x).None? || (!tab.canonical(x) && !o.compat))))
  }

  predicate AllSettled(tab: Table, o: Options, s: seq<int>) { forall i :: 0 <= i < |s| ==> Settled(tab, o, s[i]) }

  lemma {:induction false} OutputIsSettled(tab: Table, o: Options, c: int, last: BoundClass)
    requires WellFounded(tab)
    ensures AllSettled(tab, o, Decomp(tab, o, c, last).out)
    decreases o.lump, 2 * tab.rank(c) + 1, 0
  {
    hide Decomp, DecompAll, WellFounded, Lower, RuleFor, Settled, Kept;
    Unfolded(tab, o, c, last);
    match RuleFor(tab, o, c)
    case Hangul => SyllableIsSettled(tab, o, c, last);
    case Nothing =>
    case Lump(target) =>
      OutputIsSettled(tab, o.(lump := false), target, last);
      LumpSettles(tab, o, Decomp(tab, o, c, last).out);
    case Map(entries) => EntriesAreSettled(tab, o, entries, tab.rank(c), last);
    case Keep => KeptIsSettled(tab, o, c, last);
  }

  lemma SyllableIsSettled(tab: Table, o: Options, c: int, last: BoundClass)
    requires WellFounded(tab) && (o.compose || o.decompose) && Syllable(c)
    ensures AllSettled(tab, o, Decomp(tab, o, c, last).out)
  {
    hide Decomp;
    SyllableDecomposes(tab, o, c, last);
  }

  lemma LumpSettles(tab: Table, o: Options, s: seq<int>)
    requires AllSettled(tab, o.(lump := false), s)
    ensures AllSettled(tab, o, s)
  {}

  lemma KeptIsSettled(tab: Table, o: Options, c: int, last: BoundClass)
    requires RuleFor(tab, o, c) == Keep
    ensures AllSettled(tab, o, Kept(tab, o, c, last).out)
  {
    hide BoundClassOf, Boundary, LumpTarget;
  }

  lemma {:induction false} EntriesAreSettled(tab: Table, o: Options, entries: seq<int>, r: nat, last: BoundClass)
    requires WellFounded(tab) && Lower(tab, entries, r)
    ensures AllSettled(tab, o, DecompAll(tab, o, entries, r, last).out)
    decreases o.lump, 2 * r, |entries|
  {
    if entries != [] {
      hide Settled;
      var init, c := entries[..|entries| - 1], entries[|entries| - 1];
      EntriesAreSettled(tab, o, init, r, last);
      OutputIsSettled(tab, o, c, DecompAll(tab, o, init, r, last).last);
    }
  }

  // ---------- boundary marks ----------

  // Control characters, newlines and separators, the two joiners excepted.
  predicate Controls(tab: Table, c: int) {
    tab.category(c) in {24, 25, 26, 27} && c !in {0x0D, 0x0A, 0x200C, 0x200D}
  }
  predicate Extends(tab: Table, c: int) { tab.extend(c) && c !in {0x0D, 0x0A} && !Controls(tab, c) }

  predicate Ordinary(tab: Table, c: int) { c !in {0x0D, 0x0A} && !Controls(tab, c) && !tab.extend(c) }
  predicate LeadingJamo(tab: Table, c: int) { Ordinary(tab, c) && (0x1100 <= c < 0x115A || c == 0x115F) }
  predicate VowelJamo(tab: Table, c: int) { Ordinary(tab, c) && 0x1160 <= c < 0x11A3 }
  predicate TrailingJamo(tab: Table, c: int) { Ordinary(tab, c) && 0x11A8 <= c < 0x11FA }
  predicate OpenSyllable(tab: Table, c: int) { Ordinary(tab, c) && Syllable(c) && (c - 0xAC00) % 28 == 0 }
  predicate ClosedSyllable(tab: Table, c: int) { Ordinary(tab, c) && Syllable(c) && (c - 0xAC00) % 28 != 0 }

  // b belongs to the same user-perceived character as the a in front of it.
  predicate Clings(tab: Table, a: int, b: int) {
    || Extends(tab, b)
    || (a == 0x0D && b == 0x0A)
    || (LeadingJamo(tab, a)
        && (LeadingJamo(tab, b) || VowelJamo(tab, b) || OpenSyllable(tab, b) || ClosedSyllable(tab, b)))
    || ((OpenSyllable(tab, a) || VowelJamo(tab, a)) && (VowelJamo(tab, b) || TrailingJamo(tab, b)))
    || ((ClosedSyllable(tab, a) || TrailingJamo(tab, a)) && TrailingJamo(tab, b))
  }

  predicate OnlyBoundaries(o: Options) {
    o.charbound && !o.compose && !o.decompose && !o.ignore && !o.lump && !o.stripmark && !o.casefold
  }

  lemma ClingsLaw(tab: Table, a: int, b: int)
    ensures Boundary(BoundClassOf(tab, a), BoundClassOf(tab, b)) <==> !Clings(tab, a, b)
  {}

  // A mark stands in front of the first character unless it extends what would be before it, and
  // of every other that does not cling to the one in front.
  lemma BoundariesAreMarked(tab: Table, o: Options, s: seq<int>, b: int)
    requires WellFounded(tab) && OnlyBoundaries(o)
    ensures DecompText(tab, o, s + [b]).out
            == DecompText(tab, o, s).out
               + if (if s == [] then Extends(tab, b) else Clings(tab, s[|s| - 1], b)) then [b] else [0xFFFF, b]
  {
    hide *;
    DecompTextAppend(tab, o, s, b);
    KeptAlone(tab, o, b, DecompText(tab, o, s).last);
    if s == [] {
      FirstLaw(tab, o, b);
    } else {
      var init, a := s[..|s| - 1], s[|s| - 1];
      assert s == init + [a];
      DecompTextAppend(tab, o, init, a);
      KeptAlone(tab, o, a, DecompText(tab, o, init).last);
      ClingsLaw(tab, a, b);
    }
  }

  lemma KeptAlone(tab: Table, o: Options, c: int, last: BoundClass)
    requires WellFounded(tab) && OnlyBoundaries(o)
    ensures Decomp(tab, o, c, last)
            == Written(if Boundary(last, BoundClassOf(tab, c)) then [0xFFFF, c] else [c], BoundClassOf(tab, c))
  {
    hide BoundClassOf, Boundary;
  }

  lemma FirstLaw(tab: Table, o: Options, b: int)
    requires WellFounded(tab)
    ensures DecompText(tab, o, []).last == Start
    ensures Boundary(Start, BoundClassOf(tab, b)) <==> !Extends(tab, b)
  {}

  // Boundary marks are all that CHARBOUND adds.
  function Unmarked(s: seq<int>): seq<int>
    decreases |s|
  {
    if s == [] then [] else Unmarked(s[..|s| - 1]) + if s[|s| - 1] == 0xFFFF then [] else [s[|s| - 1]]
  }

  lemma {:induction false} UnmarkedConcat(a: seq<int>, b: seq<int>)
    ensures Unmarked(a + b) == Unmarked(a) + Unmarked(b)
    decreases |b|
  {
    if b == [] {
      assert a + b == a;
    } else {
      assert (a + b)[..|a + b| - 1] == a + b[..|b| - 1];
      UnmarkedConcat(a, b[..|b| - 1]);
    }
  }

  // o' is o but for CHARBOUND.
  predicate ButForBounds(o: Options, o': Options) {
    && o'.compat == o.compat && o'.compose == o.compose && o'.decompose == o.decompose && o'.ignore == o.ignore
    && o'.nlf2ls == o.nlf2ls && o'.nlf2ps == o.nlf2ps && o'.casefold == o.casefold && o'.lump == o.lump
    && o'.stripmark == o.stripmark
  }

  lemma UnlumpedButForBounds(o: Options, o': Options)
    requires ButForBounds(o, o')
    ensures ButForBounds(Unlumped(o), Unlumped(o'))
  {}

  lemma UnmarkedKept(tab: Table, o: Options, c: int, last: BoundClass)
    ensures Unmarked(Kept(tab, o, c, last).out) == Unmarked([c])
  {
    hide BoundClassOf, Boundary;
    assert [0xFFFF, c][..1] == [0xFFFF] && [c][..0] == [] && [0xFFFF][..0] == [];
  }

  lemma SameSyllable(tab: Table, o: Options, o': Options, c: int, last: BoundClass, last': BoundClass)
    requires WellFounded(tab) && (o.compose || o.decompose) && Syllable(c) && ButForBounds(o, o')
    ensures Decomp(tab, o, c, last).out == Decomp(tab, o', c, last').out
  {
    hide Decomp;
    SyllableDecomposes(tab, o, c, last);
    SyllableDecomposes(tab, o', c, last');
  }

  lemma SameRule(tab: Table, o: Options, o': Options, c: int)
    requires ButForBounds(o, o')
    ensures RuleFor(tab, o', c) == RuleFor(tab, o, c) && o'.lump == o.lump
  {}

  lemma LumpCase(tab: Table, o: Options, c: int, target: int, last: BoundClass)
    requires WellFounded(tab) && RuleFor(tab, o, c) == Lump(target)
    ensures o.lump && !Unlumped(o).lump && Decomp(tab, o, c, last) == Decomp(tab, Unlumped(o), target, last)
  {
    hide RuleFor;
    Unfolded(tab, o, c, last);
  }

  lemma MapCase(tab: Table, o: Options, c: int, entries: seq<int>, last: BoundClass)
    requires WellFounded(tab) && RuleFor(tab, o, c) == Map(entries)
    ensures Lower(tab, entries, tab.rank(c)) && Decomp(tab, o, c, last) == DecompAll(tab, o, entries, tab.rank(c), last)
  {
    hide RuleFor;
    Unfolded(tab, o, c, last);
  }

  // A character for which no other one is looked at.
  lemma OwnCase(tab: Table, o: Options, o': Options, c: int, last: BoundClass, last': BoundClass)
    requires WellFounded(tab) && ButForBounds(o, o') && RuleFor(tab, o, c) in {Hangul, Nothing, Keep}
    ensures Unmarked(Decomp(tab, o, c, last).out) == Unmarked(Decomp(tab, o', c, last').out)
  {
    hide RuleFor, Unmarked, Kept, Syllable, ButForBounds;
    SameRule(tab, o, o', c);
    Unfolded(tab, o, c, last);
    Unfolded(tab, o', c, last');
    if RuleFor(tab, o, c) == Keep {
      UnmarkedKept(tab, o, c, last);
      UnmarkedKept(tab, o', c, last');
    } else if RuleFor(tab, o, c) == Hangul {
      SameSyllable(tab, o, o', c, last, last');
    }
  }

  // With it or without it, the characters written are the same.
  lemma {:induction false} MarksAreAllItAdds(tab: Table, o: Options, o': Options, c: int, last: BoundClass, last': BoundClass)
    requires WellFounded(tab) && ButForBounds(o, o')
    ensures Unmarked(Decomp(tab, o, c, last).out) == Unmarked(Decomp(tab, o', c, last').out)
    decreases o.lump, 2 * tab.rank(c) + 1, 0
  {
    hide *;
    SameRule(tab, o, o', c);
    match RuleFor(tab, o, c)
    case Lump(target) =>
      LumpCase(tab, o, c, target, last);
      LumpCase(tab, o', c, target, last');
      UnlumpedButForBounds(o, o');
      MarksAreAllItAdds(tab, Unlumped(o), Unlumped(o'), target, last, last');
    case Map(entries) =>
      MapCase(tab, o, c, entries, last);
      MapCase(tab, o', c, entries, last');
      MarksInEntries(tab, o, o', entries, tab.rank(c), last, last');
    case _ => OwnCase(tab, o, o', c, last, last');
  }

  lemma {:induction false} MarksInEntries(tab: Table, o: Options, o': Options, entries: seq<int>, r: nat,
                                          last: BoundClass, last': BoundClass)
    requires WellFounded(tab) && Lower(tab, entries, r) && ButForBounds(o, o')
    ensures Unmarked(DecompAll(tab, o, entries, r, last).out) == Unmarked(DecompAll(tab, o', entries, r, last').out)
    decreases o.lump, 2 * r, |entries|
  {
    if entries != [] {
      hide Unmarked, ButForBounds;
      var init, c := entries[..|entries| - 1], entries[|entries| - 1];
      var w, w' := DecompAll(tab, o, init, r, last), DecompAll(tab, o', init, r, last');
      MarksInEntries(tab, o, o', init, r, last, last');
      MarksAreAllItAdds(tab, o, o', c, w.last, w'.last);
      UnmarkedConcat(w.out, Decomp(tab, o, c, w.last).out);
      UnmarkedConcat(w'.out, Decomp(tab, o', c, w'.last).out);
    }
  }

  // The largest count is that of which twice as many 32-bit words can still be counted in bytes.
  lemma CountLimit()
    ensures 8 * MAX_COUNT <= 0x7FFF_FFFF_FFFF_FFFF < 8 * (MAX_COUNT + 1)
  {}
}
