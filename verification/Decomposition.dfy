/**
 utf8proc_decompose_char and utf8proc_decompose (src/deps/utf8proc.c:205-416): the recursive
 decomposition and its size-then-fill protocol.

 The property table is not part of this model; it is a parameter, of which only the
 well-foundedness of its mappings is assumed. The REJECTNA option is left out.
 */
module Decomposition {
  import opened Bytes
  import opened Utf8
  import opened CanonicalOrder
  import opened Composition

  const ERROR_OVERFLOW := -2
  const ERROR_INVALIDOPTS := -5
  const SSIZE_MAX := 0x7FFF_FFFF_FFFF_FFFF
  const MAX_COUNT := SSIZE_MAX / 4 / 2

  const MN := 6
  const MC := 7
  const ME := 8
  const PC := 12
  const PD := 13
  const ZS := 23
  const ZL := 24
  const ZP := 25
  const CC := 26
  const CF := 27

  datatype Options = Options(nullterm: bool, stable: bool, compat: bool, compose: bool, decompose: bool, ignore: bool,
                             nlf2ls: bool, nlf2ps: bool, stripcc: bool, casefold: bool, charbound: bool, lump: bool,
                             stripmark: bool)

  // The rest of the property table. `rank` witnesses that its mappings end.
  datatype Table = Table(
    props: Properties,
    category: int -> int,
    ignorable: int -> bool,
    extend: int -> bool,
    casefold: int -> Option<seq<int>>,  // casefold_mapping
    mapping: int -> Option<seq<int>>,   // decomp_mapping
    canonical: int -> bool,             // !decomp_type
    rank: int -> nat
  )

  predicate InRange(c: int) { 0 <= c < 0x110000 }

  predicate Lower(tab: Table, cs: seq<int>, r: nat) {
    forall i :: 0 <= i < |cs| ==> InRange(cs[i]) && tab.rank(cs[i]) < r
  }

  ghost predicate WellFounded(tab: Table) {
    forall c :: (tab.casefold(c).Some? ==> Lower(tab, tab.casefold(c).value, tab.rank(c)))
                && (tab.mapping(c).Some? ==> Lower(tab, tab.mapping(c).value, tab.rank(c)))
  }

  // ---------- the pieces of utf8proc_decompose_char ----------

  // The character a LUMP rule replaces uc by.
  function LumpTarget(tab: Table, o: Options, uc: int): Option<int> {
    var category := tab.category(uc);
    if category == ZS then Some(0x0020)
    else if uc in {0x2018, 0x2019, 0x02BC, 0x02C8} then Some(0x0027)
    else if category == PD || uc == 0x2212 then Some(0x002D)
    else if uc in {0x2044, 0x2215} then Some(0x002F)
    else if uc == 0x2236 then Some(0x003A)
    else if uc in {0x2039, 0x2329, 0x3008} then Some(0x003C)
    else if uc in {0x203A, 0x232A, 0x3009} then Some(0x003E)
    else if uc == 0x2216 then Some(0x005C)
    else if uc in {0x02C4, 0x02C6, 0x2038, 0x2303} then Some(0x005E)
    else if category == PC || uc == 0x02CD then Some(0x005F)
    else if uc == 0x02CB then Some(0x0060)
    else if uc == 0x2223 then Some(0x007C)
    else if uc == 0x223C then Some(0x007E)
    else if o.nlf2ls && o.nlf2ps && (category == ZL || category == ZP) then Some(0x000A)
    else None
  }

  datatype BoundClass = Start | Other | Cr | Lf | Control | Extend | L | V | T | LV | LVT

  function BoundClassOf(tab: Table, uc: int): BoundClass {
    if uc == 0x000D then Cr
    else if uc == 0x000A then Lf
    else if tab.category(uc) in {ZL, ZP, CC, CF} && !(uc in {0x200C, 0x200D}) then Control
    else if tab.extend(uc) then Extend
    else if 0x1100 <= uc < 0x115A || uc == 0x115F then L
    else if 0x1160 <= uc < 0x11A3 then V
    else if 0x11A8 <= uc < 0x11FA then T
    else if 0xAC00 <= uc < 0xD7A4 then (if (uc - SBASE) % TCOUNT == 0 then LV else LVT)
    else Other
  }

  predicate Boundary(lbc: BoundClass, tbc: BoundClass) {
    if tbc == Extend then false
    else if lbc == Start then true
    else if lbc == Cr && tbc == Lf then false
    else if lbc == Control then true
    else if tbc == Control then true
    else if lbc == L && tbc in {L, V, LV, LVT} then false
    else if lbc in {LV, V} && tbc in {V, T} then false
    else if lbc in {LVT, T} && tbc == T then false
    else true
  }

  predicate Conjoins(o: Options) { o.compose || o.decompose }

  // Which rule applies to a character.
  datatype Rule = Hangul | Nothing | Lump(target: int) | Map(entries: seq<int>) | Keep

  function RuleFor(tab: Table, o: Options, uc: int): Rule {
    if Conjoins(o) && IsS(uc) then Hangul
    else if o.ignore && tab.ignorable(uc) then Nothing
    else if o.lump && LumpTarget(tab, o, uc).Some? then Lump(LumpTarget(tab, o, uc).value)
    else if o.stripmark && tab.category(uc) in {MN, MC, ME} then Nothing
    else if o.casefold && tab.casefold(uc).Some? then Map(tab.casefold(uc).value)
    else if Conjoins(o) && tab.mapping(uc).Some? && (tab.canonical(uc) || o.compat) then Map(tab.mapping(uc).value)
    else Keep
  }

  // ---------- the decomposition ----------

  // The characters written, and the boundary class left behind.
  datatype Written = Written(out: seq<int>, last: BoundClass)

  function Kept(tab: Table, o: Options, uc: int, last: BoundClass): Written {
    if o.charbound then
      var tbc := BoundClassOf(tab, uc);
      Written(if Boundary(last, tbc) then [0xFFFF, uc] else [uc], tbc)
    else Written([uc], last)
  }

  ghost function Decomp(tab: Table, o: Options, uc: int, last: BoundClass): Written
    requires WellFounded(tab)
    decreases o.lump, 2 * tab.rank(uc) + 1, 0
  {
    match RuleFor(tab, o, uc)
    case Hangul => Written(ExpandChar(uc), last)
    case Nothing => Written([], last)
    case Lump(target) => Decomp(tab, o.(lump := false), target, last)
    case Map(entries) => DecompAll(tab, o, entries, tab.rank(uc), last)
    case Keep => Kept(tab, o, uc, last)
  }

  // The entries of a mapping one after the other; all of them rank below r.
  ghost function DecompAll(tab: Table, o: Options, entries: seq<int>, r: nat, last: BoundClass): Written
    requires WellFounded(tab) && Lower(tab, entries, r)
    decreases o.lump, 2 * r, |entries|
  {
    if entries == [] then Written([], last) else
      var init := DecompAll(tab, o, entries[..|entries| - 1], r, last);
      var c := Decomp(tab, o, entries[|entries| - 1], init.last);
      Written(init.out + c.out, c.last)
  }

  function Min(a: nat, b: nat): nat { if a < b then a else b }

  // The room behind the characters already written.
  function Room(bufsize: nat, written: nat): nat { if bufsize > written then bufsize - written else 0 }

  // dst[off..] holds as much of `out` as fits, everything else is as it was.
  ghost predicate Filled(before: seq<int>, after: seq<int>, off: nat, bufsize: nat, out: seq<int>) {
    && |after| == |before|
    && (bufsize > 0 ==> off + bufsize <= |before|)
    && (forall i :: 0 <= i < Min(|out|, bufsize) ==> after[off + i] == out[i])
    && (forall k :: 0 <= k < |before| && !(off <= k < off + Min(|out|, bufsize)) ==> after[k] == before[k])
  }

  lemma FilledMore(s0: seq<int>, s1: seq<int>, s2: seq<int>, off: nat, bufsize: nat, a: seq<int>, b: seq<int>)
    requires Filled(s0, s1, off, bufsize, a) && Filled(s1, s2, off + |a|, Room(bufsize, |a|), b)
    ensures Filled(s0, s2, off, bufsize, a + b)
  {}

  // The two or three jamo of a syllable.
  method WriteHangul(uc: int, dst: array<int>, off: nat, bufsize: nat) returns (written: nat)
    requires IsS(uc) && (bufsize > 0 ==> off + bufsize <= dst.Length)
    modifies dst
    ensures written == |ExpandChar(uc)| && Filled(old(dst[..]), dst[..], off, bufsize, ExpandChar(uc))
  {
    if bufsize >= 1 {
      dst[off] := LPart(uc);
      if bufsize >= 2 { dst[off + 1] := VPart(uc); }
    }
    if TIndex(uc) == 0 { return 2; }
    if bufsize >= 3 { dst[off + 2] := TBASE + TIndex(uc); }
    return 3;
  }

  // The character itself, behind a boundary marker where one is due.
  method WriteKept(tab: Table, o: Options, uc: int, dst: array<int>, off: nat, bufsize: nat, last0: BoundClass)
    returns (written: nat, last: BoundClass)
    requires bufsize > 0 ==> off + bufsize <= dst.Length
    modifies dst
    ensures var d := Kept(tab, o, uc, last0);
            written == |d.out| && last == d.last && Filled(old(dst[..]), dst[..], off, bufsize, d.out)
  {
    hide BoundClassOf, Boundary;
    last := last0;
    if o.charbound {
      var tbc := BoundClassOf(tab, uc);
      last := tbc;
      if Boundary(last0, tbc) {
        if bufsize >= 1 { dst[off] := 0xFFFF; }
        if bufsize >= 2 { dst[off + 1] := uc; }
        return 2, last;
      }
    }
    if bufsize >= 1 { dst[off] := uc; }
    return 1, last;
  }

  lemma RuleIs(tab: Table, o: Options, uc: int)
    requires WellFounded(tab) && InRange(uc)
    ensures match RuleFor(tab, o, uc)
            case Hangul => IsS(uc)
            case Lump(target) => o.lump && InRange(target)
            case Map(entries) => Lower(tab, entries, tab.rank(uc))
            case _ => true
  {}

  // utf8proc_decompose_char: the count it returns does not depend on the room it is given, and
  // what it writes is a prefix of the full decomposition.
  method DecomposeChar(tab: Table, o: Options, uc: int, dst: array<int>, off: nat, bufsize: nat, last0: BoundClass)
    returns (written: nat, last: BoundClass)
    requires WellFounded(tab) && InRange(uc) && (bufsize > 0 ==> off + bufsize <= dst.Length)
    modifies dst
    ensures var d := Decomp(tab, o, uc, last0);
            written == |d.out| && last == d.last && Filled(old(dst[..]), dst[..], off, bufsize, d.out)
    decreases o.lump, 2 * tab.rank(uc) + 1, 0
  {
    hide RuleFor, Filled, WellFounded, Lower, IsS, InRange, ExpandChar, Kept, LumpTarget;
    RuleIs(tab, o, uc);
    last := last0;
    match RuleFor(tab, o, uc)
    case Hangul => written := WriteHangul(uc, dst, off, bufsize);
    case Nothing =>
      FilledNothing(dst[..], off, bufsize);
      written := 0;
    case Lump(target) => written, last := DecomposeChar(tab, o.(lump := false), target, dst, off, bufsize, last0);
    case Map(entries) => written, last := DecomposeAll(tab, o, entries, tab.rank(uc), dst, off, bufsize, last0);
    case Keep => written, last := WriteKept(tab, o, uc, dst, off, bufsize, last0);
  }

  lemma FilledNothing(s: seq<int>, off: nat, bufsize: nat)
    requires bufsize > 0 ==> off + bufsize <= |s|
    ensures Filled(s, s, off, bufsize, [])
  {}

  // The loop over the entries of a mapping.
  method DecomposeAll(tab: Table, o: Options, entries: seq<int>, ghost r: nat, dst: array<int>, off: nat, bufsize: nat,
                      last0: BoundClass)
    returns (written: nat, last: BoundClass)
    requires WellFounded(tab) && Lower(tab, entries, r) && (bufsize > 0 ==> off + bufsize <= dst.Length)
    modifies dst
    ensures var d := DecompAll(tab, o, entries, r, last0);
            written == |d.out| && last == d.last && Filled(old(dst[..]), dst[..], off, bufsize, d.out)
    decreases o.lump, 2 * r, |entries|
  {
    written, last := 0, last0;
    ghost var before := dst[..];
    ghost var out: seq<int> := [];
    var i := 0;
    while i < |entries|
      invariant 0 <= i <= |entries|
      invariant DecompAll(tab, o, entries[..i], r, last0) == Written(out, last)
      invariant written == |out| && Filled(before, dst[..], off, bufsize, out)
    {
      ghost var s1 := dst[..];
      var n;
      ghost var d := Decomp(tab, o, entries[i], last);
      n, last := DecomposeChar(tab, o, entries[i], dst, off + written, Room(bufsize, written), last);
      FilledMore(before, s1, dst[..], off, bufsize, out, d.out);
      assert entries[..i + 1][..i] == entries[..i];
      out := out + d.out;
      written := written + n;
      i := i + 1;
    }
    assert entries[..|entries|] == entries;
  }

  // ---------- whole strings ----------

  // The code points of a byte string, None if it is not valid UTF-8.
  function CodePoints(s: seq<byte>): Option<seq<int>>
    decreases |s|
  {
    if s == [] then Some([])
    else if CharLen(s) == 0 then None
    else match CodePoints(s[CharLen(s)..])
      case None => None
      case Some(rest) => Some([Decode(s).value] + rest)
  }

  // The text utf8proc_decompose reads: up to strlen, or up to the NUL.
  function TextOf(o: Options, str: seq<byte>, strlen: nat): seq<byte>
    requires if o.nullterm then NUL in str else strlen <= |str|
  {
    if o.nullterm then UpToNul(str) else str[..strlen]
  }

  function UpToNul(s: seq<byte>): seq<byte> {
    if s == [] || s[0] == NUL then [] else [s[0]] + UpToNul(s[1..])
  }

  lemma {:induction false} UpToNulIs(s: seq<byte>)
    requires NUL in s
    ensures var n := |UpToNul(s)|; n < |s| && UpToNul(s) == s[..n] && s[n] == NUL && NUL !in s[..n]
  {
    if s[0] != NUL {
      assert s == [s[0]] + s[1..];
      UpToNulIs(s[1..]);
    }
  }

  predicate AllInRange(cps: seq<int>) { forall i :: 0 <= i < |cps| ==> InRange(cps[i]) }

  // The decomposition of a text, the boundary class threaded through.
  ghost function DecompText(tab: Table, o: Options, cps: seq<int>): Written
    requires WellFounded(tab)
    decreases |cps|
  {
    if cps == [] then Written([], Start) else
      var init := DecompText(tab, o, cps[..|cps| - 1]);
      var c := Decomp(tab, o, cps[|cps| - 1], init.last);
      Written(init.out + c.out, c.last)
  }

  lemma DecompTextAppend(tab: Table, o: Options, cps: seq<int>, c: int)
    requires WellFounded(tab)
    ensures var init := DecompText(tab, o, cps);
            var d := Decomp(tab, o, c, init.last);
            DecompText(tab, o, cps + [c]) == Written(init.out + d.out, d.last)
  {}

  lemma {:induction false} DecompTextGrows(tab: Table, o: Options, cps: seq<int>, more: seq<int>)
    requires WellFounded(tab)
    ensures |DecompText(tab, o, cps).out| <= |DecompText(tab, o, cps + more).out|
    decreases |more|
  {
    if more == [] {
      assert cps + more == cps;
    } else {
      var init := more[..|more| - 1];
      DecompTextGrows(tab, o, cps, init);
      assert cps + more == cps + init + [more[|more| - 1]];
      DecompTextAppend(tab, o, cps + init, more[|more| - 1]);
    }
  }

  // In a NUL-terminated string, reading ahead stops at the NUL.
  lemma DecodeUpToNul(str: seq<byte>, n: nat)
    requires n < |str| && str[n] == NUL && NUL !in str[..n]
    ensures n == 0 ==> Decode(str) == Some(0)
    ensures n > 0 ==> Decode(str) == Decode(str[..n]) && Decode(str) != Some(0)
  {}

  lemma TailUpToNul(o: Options, str: seq<byte>, strlen: nat, text: seq<byte>, rpos: nat)
    requires o.nullterm && NUL in str && text == TextOf(o, str, strlen) && rpos <= |text|
    ensures rpos < |str| && NUL in str[rpos..]
    ensures rpos == |text| ==> Decode(str[rpos..]) == Some(0)
    ensures rpos < |text| ==> Decode(str[rpos..]) == Decode(text[rpos..]) && Decode(str[rpos..]) != Some(0)
  {
    UpToNulIs(str);
    hide Decode;
    assert text == str[..|text|];
    var tail := str[rpos..];
    assert tail[|text| - rpos] == NUL;
    assert tail[..|text| - rpos] == text[rpos..];
    assert forall k :: 0 <= k < |text| - rpos ==> tail[k] == text[rpos + k];
    DecodeUpToNul(tail, |text| - rpos);
  }

  // One call of utf8proc_iterate at rpos: the next code point of the text.
  method NextCodePoint(o: Options, str: seq<byte>, strlen: nat, rpos: nat, ghost text: seq<byte>)
    returns (done: bool, uc: int, length: int)
    requires if o.nullterm then NUL in str else strlen <= |str|
    requires text == TextOf(o, str, strlen) && rpos <= |text|
    ensures done <==> rpos == |text|
    ensures !done && uc < 0 ==> CharLen(text[rpos..]) == 0
    ensures !done && uc >= 0 ==>
              InRange(uc) && Decode(text[rpos..]) == Some(uc) && length == CharLen(text[rpos..]) && 0 < length <= |text| - rpos
  {
    if o.nullterm {
      TailUpToNul(o, str, strlen, text, rpos);
      length, uc := Iterate(str[rpos..], -1);
      done := uc == 0;
    } else {
      done := rpos >= strlen;
      if done { return done, -1, 0; }
      assert str[rpos..][..strlen - rpos] == text[rpos..];
      length, uc := Iterate(str[rpos..], strlen - rpos);
    }
  }

  // The reading loop of utf8proc_decompose after rpos bytes: cps is what was read.
  ghost predicate SoFar(tab: Table, o: Options, text: seq<byte>, rpos: nat, cps: seq<int>, last: BoundClass, wpos: int,
                        before: seq<int>, now: seq<int>, bufsize: nat)
    requires WellFounded(tab)
  {
    && rpos <= |text|
    && CodePoints(text) == Prepend(cps, CodePoints(text[rpos..]))
    && DecompText(tab, o, cps).last == last && wpos == |DecompText(tab, o, cps).out|
    && Filled(before, now, 0, bufsize, DecompText(tab, o, cps).out)
  }

  function Prepend(cps: seq<int>, rest: Option<seq<int>>): Option<seq<int>> {
    match rest
    case None => None
    case Some(more) => Some(cps + more)
  }

  lemma ReadOne(text: seq<byte>, rpos: nat, uc: int)
    requires rpos < |text| && Decode(text[rpos..]) == Some(uc)
    ensures var n := CharLen(text[rpos..]);
            rpos + n <= |text| && CodePoints(text[rpos..]) == Prepend([uc], CodePoints(text[rpos + n..]))
  {
    hide Decode;
    var tail := text[rpos..];
    var n := CharLen(tail);
    assert tail[n..] == text[rpos + n..];
  }

  lemma PrependTwice(cps: seq<int>, uc: int, rest: Option<seq<int>>)
    ensures Prepend(cps, Prepend([uc], rest)) == Prepend(cps + [uc], rest)
  {
    if rest.Some? {
      assert cps + ([uc] + rest.value) == cps + [uc] + rest.value;
    }
  }

  lemma SoFarStart(tab: Table, o: Options, text: seq<byte>, before: seq<int>, bufsize: nat)
    requires WellFounded(tab) && bufsize <= |before|
    ensures SoFar(tab, o, text, 0, [], Start, 0, before, before, bufsize)
  {
    assert text[0..] == text;
    if CodePoints(text).Some? {
      assert Prepend([], CodePoints(text)).value == CodePoints(text).value;
    }
  }

  lemma SoFarStep(tab: Table, o: Options, text: seq<byte>, rpos: nat, cps: seq<int>, last: BoundClass, wpos: int,
                  before: seq<int>, now: seq<int>, bufsize: nat, uc: int, next: seq<int>)
    requires WellFounded(tab) && SoFar(tab, o, text, rpos, cps, last, wpos, before, now, bufsize) && 0 <= wpos
    requires rpos < |text| && Decode(text[rpos..]) == Some(uc)
    requires Filled(now, next, wpos, Room(bufsize, wpos), Decomp(tab, o, uc, last).out)
    ensures var d := Decomp(tab, o, uc, last);
            SoFar(tab, o, text, rpos + CharLen(text[rpos..]), cps + [uc], d.last, wpos + |d.out|, before, next, bufsize)
  {
    hide Filled, Decode, CodePoints, Prepend, CharLen, DecompText, Decomp, WellFounded;
    FilledMore(before, now, next, 0, bufsize, DecompText(tab, o, cps).out, Decomp(tab, o, uc, last).out);
    DecompTextAppend(tab, o, cps, uc);
    ReadOne(text, rpos, uc);
    PrependTwice(cps, uc, CodePoints(text[rpos + CharLen(text[rpos..])..]));
  }

  lemma SoFarInvalid(tab: Table, o: Options, text: seq<byte>, rpos: nat, cps: seq<int>, last: BoundClass, wpos: int,
                     before: seq<int>, now: seq<int>, bufsize: nat)
    requires WellFounded(tab) && SoFar(tab, o, text, rpos, cps, last, wpos, before, now, bufsize)
    requires rpos < |text| && CharLen(text[rpos..]) == 0
    ensures CodePoints(text).None?
  {}

  lemma SoFarBounds(tab: Table, o: Options, text: seq<byte>, rpos: nat, cps: seq<int>, last: BoundClass, wpos: int,
                    before: seq<int>, now: seq<int>, bufsize: nat)
    requires WellFounded(tab) && SoFar(tab, o, text, rpos, cps, last, wpos, before, now, bufsize)
    ensures CodePoints(text).Some? ==> wpos <= |DecompText(tab, o, CodePoints(text).value).out|
    ensures rpos == |text| ==> CodePoints(text) == Some(cps)
    ensures 0 <= wpos && wpos == |DecompText(tab, o, cps).out| && Filled(before, now, 0, bufsize, DecompText(tab, o, cps).out)
  {
    if CodePoints(text).Some? {
      DecompTextGrows(tab, o, cps, CodePoints(text[rpos..]).value);
    }
    if rpos == |text| {
      assert text[rpos..] == [] && cps + [] == cps;
    }
  }

  lemma FilledWhole(before: seq<int>, now: seq<int>, bufsize: nat, out: seq<int>)
    requires Filled(before, now, 0, bufsize, out) && bufsize >= |out|
    ensures |out| <= |now| && now[..|out|] == out && now[|out|..] == before[|out|..]
  {}

  // The outcome for a text whose decomposition is d.
  ghost predicate Arranged(o: Options, cc: Classes, before: seq<int>, after: seq<int>, bufsize: nat, d: seq<int>) {
    if Conjoins(o) && bufsize >= |d|
    then |d| <= |after| && after[..|d|] == Canon(cc, d) && |before| == |after| && after[|d|..] == before[|d|..]
    else Filled(before, after, 0, bufsize, d)
  }

  // utf8proc_decompose. Without enough room it still counts everything, and what it writes is a
  // prefix; with enough room it leaves the canonical order of the decomposition.
  method Decompose(tab: Table, o: Options, str: seq<byte>, strlen: nat, buffer: array<int>, bufsize: nat)
    returns (wpos: int)
    requires WellFounded(tab) && bufsize <= buffer.Length
    requires if o.nullterm then NUL in str else strlen <= |str|
    modifies buffer
    ensures wpos == ERROR_INVALIDOPTS <==> (o.compose && o.decompose) || (o.stripmark && !Conjoins(o))
    ensures wpos < 0 ==> wpos in {ERROR_INVALIDOPTS, ERROR_INVALIDUTF8, ERROR_OVERFLOW}
    ensures wpos != ERROR_INVALIDOPTS ==>
              (wpos >= 0 <==> match CodePoints(TextOf(o, str, strlen))
                              case None => false
                              case Some(cps) => |DecompText(tab, o, cps).out| <= MAX_COUNT)
    ensures wpos == ERROR_INVALIDUTF8 ==> CodePoints(TextOf(o, str, strlen)).None?
    ensures wpos >= 0 ==>
              var d := DecompText(tab, o, CodePoints(TextOf(o, str, strlen)).value).out;
              wpos == |d| && Arranged(o, tab.props.cc, old(buffer[..]), buffer[..], bufsize, d)
  {
    hide CodePoints, TextOf, DecompText, Decomp, WellFounded, Filled, SoFar, Decode, CodepointValid, Encode;
    wpos := 0;
    if o.compose && o.decompose { return ERROR_INVALIDOPTS; }
    if o.stripmark && !o.compose && !o.decompose { return ERROR_INVALIDOPTS; }
    ghost var text := TextOf(o, str, strlen);
    ghost var before := buffer[..];
    ghost var cps: seq<int> := [];
    var rpos, boundclass := 0, Start;
    SoFarStart(tab, o, text, before, bufsize);
    while true
      invariant 0 <= rpos <= |text| && 0 <= wpos <= MAX_COUNT
      invariant SoFar(tab, o, text, rpos, cps, boundclass, wpos, before, buffer[..], bufsize)
      decreases |text| - rpos
    {
      var done, uc, length := NextCodePoint(o, str, strlen, rpos, text);
      if done { break; }
      if uc < 0 {
        SoFarInvalid(tab, o, text, rpos, cps, boundclass, wpos, before, buffer[..], bufsize);
        return ERROR_INVALIDUTF8;
      }
      ghost var s1, last := buffer[..], boundclass;
      var n;
      n, boundclass := DecomposeChar(tab, o, uc, buffer, wpos, Room(bufsize, wpos), boundclass);
      SoFarStep(tab, o, text, rpos, cps, last, wpos, before, s1, bufsize, uc, buffer[..]);
      cps := cps + [uc];
      wpos := wpos + n;
      rpos := rpos + length;
      SoFarBounds(tab, o, text, rpos, cps, boundclass, wpos, before, buffer[..], bufsize);
      if wpos > MAX_COUNT { return ERROR_OVERFLOW; }
    }
    SoFarBounds(tab, o, text, rpos, cps, boundclass, wpos, before, buffer[..], bufsize);
    if Conjoins(o) && bufsize >= wpos {
      FilledWhole(before, buffer[..], bufsize, DecompText(tab, o, cps).out);
      assert buffer[..wpos] == buffer[..][..wpos] && buffer[wpos..] == buffer[..][wpos..];
      Reorder(tab.props.cc, buffer, wpos);
      CanonLength(tab.props.cc, DecompText(tab, o, cps).out);
      assert buffer[..][..wpos] == buffer[..wpos] && buffer[..][wpos..] == buffer[wpos..];
    }
  }
}
