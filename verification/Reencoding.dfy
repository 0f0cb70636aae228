/**
 utf8proc_reencode and utf8proc_map (src/deps/utf8proc.c:418-566): newline handling, composition
 and the last pass, which writes UTF-8 bytes over the 32-bit words it is still reading.
 */
module Reencoding {
  import opened Bytes
  import opened Utf8
  import opened CanonicalOrder
  import opened Composition
  import opened Decomposition

  // ---------- newlines and control characters ----------

  predicate HandlesNewlines(o: Options) { o.nlf2ls || o.nlf2ps || o.stripcc }

  function Newline(o: Options): int {
    if o.nlf2ls then (if o.nlf2ps then 0x000A else 0x2028) else (if o.nlf2ps then 0x2029 else 0x0020)
  }

  predicate IsCrLf(s: seq<int>) { |s| >= 2 && s[0] == 0x000D && s[1] == 0x000A }

  predicate IsNewline(o: Options, uc: int) {
    uc in {0x000A, 0x000D, 0x0085} || (o.stripcc && uc in {0x000B, 0x000C})
  }

  // What one character becomes; of a CR LF pair the carriage return is converted, and the caller
  // skips the line feed.
  function Converted(o: Options, uc: int): seq<int> {
    if IsNewline(o, uc) then [Newline(o)]
    else if o.stripcc && (uc < 0x0020 || 0x007F <= uc < 0x00A0) then (if uc == 0x0009 then [0x0020] else [])
    else [uc]
  }

  // The conversion of a text: CR LF counts as one newline.
  function Newlines(o: Options, s: seq<int>): seq<int>
    decreases |s|
  {
    if s == [] then []
    else Converted(o, s[0]) + Newlines(o, s[if IsCrLf(s) then 2 else 1..])
  }

  method WriteConverted(o: Options, uc: int, buffer: array<int>, at: nat) returns (wpos: nat)
    requires at < buffer.Length
    modifies buffer
    ensures at <= wpos <= at + 1 && buffer[..wpos] == old(buffer[..at]) + Converted(o, uc)
    ensures forall k :: at < k < buffer.Length ==> buffer[k] == old(buffer[k])
  {
    wpos := at;
    if IsNewline(o, uc) {
      buffer[wpos] := Newline(o);
      wpos := wpos + 1;
    } else if o.stripcc && (uc < 0x0020 || 0x007F <= uc < 0x00A0) {
      if uc == 0x0009 {
        buffer[wpos] := 0x0020;
        wpos := wpos + 1;
      }
    } else {
      buffer[wpos] := uc;
      wpos := wpos + 1;
    }
  }

  lemma NewlinesStep(o: Options, input: seq<int>, rpos: nat, done: seq<int>)
    requires rpos < |input|
    ensures var crlf := rpos < |input| - 1 && input[rpos] == 0x000D && input[rpos + 1] == 0x000A;
            done + Newlines(o, input[rpos..])
            == done + Converted(o, input[rpos]) + Newlines(o, input[if crlf then rpos + 2 else rpos + 1..])
  {}

  // The loop, in place.
  method NewlinesInPlace(o: Options, buffer: array<int>, length: nat) returns (wpos: nat)
    requires length <= buffer.Length
    modifies buffer
    ensures wpos <= length && buffer[..wpos] == Newlines(o, old(buffer[..length]))
    ensures buffer[length..] == old(buffer[length..])
  {
    hide Newlines, Converted;
    ghost var input := buffer[..length];
    wpos := 0;
    var rpos := 0;
    assert input[0..] == input;
    assert buffer[..0] + Newlines(o, input) == Newlines(o, input);
    while rpos < length
      invariant wpos <= rpos <= length
      invariant buffer[..wpos] + Newlines(o, input[rpos..]) == Newlines(o, input)
      invariant forall k :: rpos <= k < buffer.Length ==> buffer[k] == old(buffer[k])
    {
      NewlinesStep(o, input, rpos, buffer[..wpos]);
      var uc := buffer[rpos];
      if uc == 0x000D && rpos < length - 1 && buffer[rpos + 1] == 0x000A { rpos := rpos + 1; }
      wpos := WriteConverted(o, uc, buffer, wpos);
      rpos := rpos + 1;
    }
    NoMoreNewlines(o, input, length);
  }

  lemma NoMoreNewlines(o: Options, input: seq<int>, length: nat)
    requires length == |input|
    ensures Newlines(o, input[length..]) == []
  {}

  // ---------- bytes over words ----------

  function EncodeAll(s: seq<int>): seq<byte>
    decreases |s|
  {
    if s == [] then [] else EncodeAll(s[..|s| - 1]) + Encode(s[|s| - 1])
  }

  // Four bytes as a little-endian int32_t.
  function Int32(b0: int, b1: int, b2: int, b3: int): int {
    var u := b0 + 0x100 * b1 + 0x1_0000 * b2 + 0x100_0000 * b3;
    if u >= 0x8000_0000 then u - 0x1_0000_0000 else u
  }

  function Word(mem: seq<byte>, r: nat): int
    requires 4 * r + 4 <= |mem|
  {
    Int32(mem[4 * r], mem[4 * r + 1], mem[4 * r + 2], mem[4 * r + 3])
  }

  function Words(mem: seq<byte>, length: nat): seq<int>
    requires 4 * length <= |mem|
  {
    if length == 0 then [] else Words(mem, length - 1) + [Word(mem, length - 1)]
  }

  // utf8proc_encode_char, writing at dst + at.
  method EncodeChar(uc: int, dst: array<byte>, at: nat) returns (n: nat)
    requires at + |Encode(uc)| <= dst.Length
    modifies dst
    ensures n == |Encode(uc)| && dst[at..at + n] == Encode(uc)
    ensures forall k :: 0 <= k < dst.Length && !(at <= k < at + n) ==> dst[k] == old(dst[k])
  {
    hide Encode;
    if uc < 0x800 { EncodeIs2(uc); }
    else if uc < 0xFFFE { EncodeIs3(uc); }
    else if 0x10000 <= uc < 0x110000 { EncodeIs4(uc); }
    else { EncodeMarker(uc); }
    if uc < 0 {
      return 0;
    } else if uc < 0x80 {
      dst[at] := uc;
      return 1;
    } else if uc < 0x800 {
      dst[at] := 0xC0 + uc / 64;
      dst[at + 1] := 0x80 + uc % 64;
      return 2;
    } else if uc == 0xFFFF {
      dst[at] := 0xFF;
      return 1;
    } else if uc == 0xFFFE {
      dst[at] := 0xFE;
      return 1;
    } else if uc < 0x10000 {
      dst[at] := 0xE0 + uc / 4096;
      dst[at + 1] := 0x80 + uc / 64 % 64;
      dst[at + 2] := 0x80 + uc % 64;
      return 3;
    } else if uc < 0x110000 {
      dst[at] := 0xF0 + uc / 262144;
      dst[at + 1] := 0x80 + uc / 4096 % 64;
      dst[at + 2] := 0x80 + uc / 64 % 64;
      dst[at + 3] := 0x80 + uc % 64;
      return 4;
    } else {
      return 0;
    }
  }

  lemma WordsNext(mem: seq<byte>, r: nat)
    requires 4 * r + 4 <= |mem|
    ensures Words(mem, r + 1) == Words(mem, r) + [Word(mem, r)]
    ensures EncodeAll(Words(mem, r + 1)) == EncodeAll(Words(mem, r)) + Encode(Word(mem, r))
  {}

  // The last pass of utf8proc_reencode. Each write ends at or before the end of the word just
  // read, so no word is overwritten unread, and the NUL needs one byte beyond the words.
  method EncodeInPlace(mem: array<byte>, length: nat) returns (wpos: nat)
    requires 4 * length + 1 <= mem.Length
    modifies mem
    ensures wpos <= 4 * length
    ensures mem[..wpos] == EncodeAll(Words(old(mem[..]), length)) && mem[wpos] == NUL
    ensures forall k :: wpos < k < mem.Length ==> mem[k] == old(mem[k])
  {
    hide Encode, EncodeAll, Words, Int32;
    ghost var before := mem[..];
    NothingEncoded(before);
    wpos := 0;
    var rpos := 0;
    while rpos < length
      invariant 0 <= rpos <= length && wpos <= 4 * rpos
      invariant mem[..wpos] == EncodeAll(Words(before, rpos))
      invariant forall k :: wpos <= k < mem.Length ==> mem[k] == before[k]
    {
      WordsNext(before, rpos);
      var uc := Word(mem[..], rpos);
      ghost var done := mem[..wpos];
      var n := EncodeChar(uc, mem, wpos);
      assert mem[..wpos + n] == done + mem[wpos..wpos + n];
      wpos := wpos + n;
      rpos := rpos + 1;
    }
    mem[wpos] := NUL;
  }

  lemma NothingEncoded(mem: seq<byte>)
    ensures EncodeAll(Words(mem, 0)) == []
  {}

  // ---------- utf8proc_reencode and utf8proc_map ----------

  // What utf8proc_reencode makes of a text before writing it as bytes.
  function Reworked(tab: Table, o: Options, s: seq<int>): seq<int> {
    var s1 := if HandlesNewlines(o) then Newlines(o, s) else s;
    if o.compose then Compose(tab.props, o.stable, s1) else s1
  }

  predicate FitsWord(c: int) { -0x8000_0000 <= c < 0x8000_0000 }

  lemma Int32Bytes(c: int)
    requires FitsWord(c)
    ensures var u := if c < 0 then c + 0x1_0000_0000 else c;
            && Int32(u % 0x100, u / 0x100 % 0x100, u / 0x1_0000 % 0x100, u / 0x100_0000) == c
            && 0 <= u / 0x100_0000 < 0x100
  {
    var u := if c < 0 then c + 0x1_0000_0000 else c;
    var q := u / 0x100;
    var q2 := q / 0x100;
    assert u / 0x1_0000 == q2 && u / 0x100_0000 == q2 / 0x100;
    assert u == u % 0x100 + 0x100 * q && q == q % 0x100 + 0x100 * q2 && q2 == q2 % 0x100 + 0x100 * (q2 / 0x100);
  }

  // The bytes of a buffer of 32-bit words, and the spare byte behind them. In C the two are one
  // block of memory; here the bytes are laid out next to the words they are read from.
  method ToMemory(buffer: array<int>, length: nat) returns (mem: array<byte>)
    requires length <= buffer.Length && forall i :: 0 <= i < length ==> FitsWord(buffer[i])
    ensures fresh(mem) && mem.Length == 4 * length + 1 && Words(mem[..], length) == buffer[..length]
  {
    hide Int32, Words;
    mem := new byte[4 * length + 1](_ => 0);
    var r := 0;
    while r < length
      invariant 0 <= r <= length
      invariant forall i :: 0 <= i < r ==> Word(mem[..], i) == buffer[i]
    {
      var u := if buffer[r] < 0 then buffer[r] + 0x1_0000_0000 else buffer[r];
      Int32Bytes(buffer[r]);
      mem[4 * r], mem[4 * r + 1] := u % 0x100, u / 0x100 % 0x100;
      mem[4 * r + 2], mem[4 * r + 3] := u / 0x1_0000 % 0x100, u / 0x100_0000;
      r := r + 1;
    }
    WordsAre(mem[..], length, buffer[..length]);
  }

  lemma {:induction false} WordsAre(mem: seq<byte>, length: nat, ws: seq<int>)
    requires 4 * length <= |mem| && |ws| == length && forall i :: 0 <= i < length ==> Word(mem, i) == ws[i]
    ensures Words(mem, length) == ws
  {
    hide Int32;
    if length > 0 {
      WordsAre(mem, length - 1, ws[..length - 1]);
      assert ws == ws[..length - 1] + [ws[length - 1]];
    }
  }

  // ---------- everything fits a word ----------

  predicate AllFit(s: seq<int>) { forall i :: 0 <= i < |s| ==> FitsWord(s[i]) }

  // The compositions of the table are int32_t values.
  ghost predicate FittingTable(tab: Table) { forall i :: FitsWord(tab.props.combinations(i)) }

  lemma {:induction false} NewlinesFit(o: Options, s: seq<int>)
    requires AllFit(s)
    ensures AllFit(Newlines(o, s))
    decreases |s|
  {
    if s != [] {
      NewlinesFit(o, s[if IsCrLf(s) then 2 else 1..]);
    }
  }

  lemma NextFits(tab: Table, stable: bool, st: State, c: int)
    requires FittingTable(tab) && Sound(st) && AllFit(st.out) && FitsWord(c)
    ensures AllFit(Next(tab.props, stable, st, c).out)
  {}

  lemma {:induction false} ComposedFit(tab: Table, stable: bool, s: seq<int>)
    requires FittingTable(tab) && AllFit(s)
    ensures AllFit(Composed(tab.props, stable, s).out)
    decreases |s|
  {
    hide Next, FittingTable;
    if s != [] {
      ComposedFit(tab, stable, s[..|s| - 1]);
      NextFits(tab, stable, Composed(tab.props, stable, s[..|s| - 1]), s[|s| - 1]);
    }
  }

  lemma ReworkedFits(tab: Table, o: Options, s: seq<int>)
    requires FittingTable(tab) && AllFit(s)
    ensures AllFit(Reworked(tab, o, s))
  {
    NewlinesFit(o, s);
    ComposedFit(tab, o.stable, Newlines(o, s));
    ComposedFit(tab, o.stable, s);
  }

  lemma {:induction false} DecompFits(tab: Table, o: Options, uc: int, last: BoundClass)
    requires WellFounded(tab) && InRange(uc)
    ensures AllFit(Decomp(tab, o, uc, last).out)
    decreases o.lump, 2 * tab.rank(uc) + 1, 0
  {
    hide RuleFor, WellFounded, Lower, LumpTarget, BoundClassOf;
    RuleIs(tab, o, uc);
    match RuleFor(tab, o, uc)
    case Hangul =>
    case Nothing =>
    case Lump(target) => DecompFits(tab, o.(lump := false), target, last);
    case Map(entries) => DecompAllFits(tab, o, entries, tab.rank(uc), last);
    case Keep =>
  }

  lemma {:induction false} DecompAllFits(tab: Table, o: Options, entries: seq<int>, r: nat, last: BoundClass)
    requires WellFounded(tab) && Lower(tab, entries, r)
    ensures AllFit(DecompAll(tab, o, entries, r, last).out)
    decreases o.lump, 2 * r, |entries|
  {
    if entries != [] {
      var init := entries[..|entries| - 1];
      DecompAllFits(tab, o, init, r, last);
      DecompFits(tab, o, entries[|entries| - 1], DecompAll(tab, o, init, r, last).last);
    }
  }

  lemma {:induction false} DecompTextFits(tab: Table, o: Options, cps: seq<int>)
    requires WellFounded(tab) && AllInRange(cps)
    ensures AllFit(DecompText(tab, o, cps).out)
    decreases |cps|
  {
    if cps != [] {
      var init := cps[..|cps| - 1];
      DecompTextFits(tab, o, init);
      DecompFits(tab, o, cps[|cps| - 1], DecompText(tab, o, init).last);
    }
  }

  lemma CanonFits(cc: Classes, s: seq<int>)
    requires AllFit(s)
    ensures AllFit(Canon(cc, s))
  {
    CanonStable(cc, s, 0);
    forall i | 0 <= i < |Canon(cc, s)| ensures FitsWord(Canon(cc, s)[i]) {
      assert Canon(cc, s)[i] in multiset(Canon(cc, s));
      assert Canon(cc, s)[i] in multiset(s);
    }
  }

  lemma {:induction false} CodePointsInRange(s: seq<byte>)
    requires CodePoints(s).Some?
    ensures AllInRange(CodePoints(s).value)
    decreases |s|
  {
    if s != [] {
      DecodeSound(s);
      CodePointsInRange(s[CharLen(s)..]);
    }
  }

  // ---------- the two functions ----------

  // utf8proc_reencode
  method Reencode(tab: Table, o: Options, buffer: array<int>, length0: nat) returns (dst: seq<byte>)
    requires FittingTable(tab) && length0 <= buffer.Length && AllFit(buffer[..length0])
    modifies buffer
    ensures dst == EncodeAll(Reworked(tab, o, old(buffer[..length0])))
  {
    ghost var s := buffer[..length0];
    ReworkedFits(tab, o, s);
    var length := length0;
    if HandlesNewlines(o) {
      length := NewlinesInPlace(o, buffer, length);
    }
    if o.compose {
      length := ComposeInPlace(tab.props, o.stable, buffer, length);
    }
    assert buffer[..length] == Reworked(tab, o, s);
    assert forall i :: 0 <= i < length ==> buffer[i] == buffer[..length][i];
    var mem := ToMemory(buffer, length);
    var wpos := EncodeInPlace(mem, length);
    dst := mem[..wpos];
  }

  // The decomposition in the order utf8proc_decompose leaves it.
  ghost function Decomposed(tab: Table, o: Options, cps: seq<int>): seq<int>
    requires WellFounded(tab)
  {
    if Conjoins(o) then Canon(tab.props.cc, DecompText(tab, o, cps).out) else DecompText(tab, o, cps).out
  }

  // utf8proc_map: the size pass without a buffer, the fill pass into a buffer of exactly that
  // size, and the re-encoding in the same memory.
  method Map(tab: Table, o: Options, str: seq<byte>, strlen: nat) returns (result: int, dst: seq<byte>)
    requires WellFounded(tab) && FittingTable(tab)
    requires if o.nullterm then NUL in str else strlen <= |str|
    ensures result >= 0
            <==> !(o.compose && o.decompose) && !(o.stripmark && !Conjoins(o))
                 && match CodePoints(TextOf(o, str, strlen))
                    case None => false
                    case Some(cps) => |DecompText(tab, o, cps).out| <= MAX_COUNT
    ensures result < 0 ==> dst == [] && result in {ERROR_INVALIDOPTS, ERROR_INVALIDUTF8, ERROR_OVERFLOW}
    ensures result >= 0 ==>
              result == |dst|
              && dst == EncodeAll(Reworked(tab, o, Decomposed(tab, o, CodePoints(TextOf(o, str, strlen)).value)))
  {
    hide DecompText, CodePoints, TextOf, WellFounded, FittingTable, Filled, EncodeAll, Reworked, Canon, AllFit,
         AllInRange, MAX_COUNT;
    dst := [];
    var none := new int[0];
    result := Decompose(tab, o, str, strlen, none, 0);
    if result < 0 { return result, []; }
    ghost var cps := CodePoints(TextOf(o, str, strlen)).value;
    var buffer := new int[result];
    result := Decompose(tab, o, str, strlen, buffer, result);
    if result < 0 { return result, []; }
    ghost var d := DecompText(tab, o, cps).out;
    assert buffer[..result] == Decomposed(tab, o, cps) by { WholeBuffer(tab, o, cps, buffer[..], result); }
    assert AllFit(buffer[..result]) by {
      CodePointsInRange(TextOf(o, str, strlen));
      DecompTextFits(tab, o, cps);
      CanonFits(tab.props.cc, d);
    }
    dst := Reencode(tab, o, buffer, result);
    result := |dst|;
  }

  lemma WholeBuffer(tab: Table, o: Options, cps: seq<int>, now: seq<int>, n: nat)
    requires WellFounded(tab) && n == |now| == |DecompText(tab, o, cps).out|
    requires exists before :: Arranged(o, tab.props.cc, before, now, n, DecompText(tab, o, cps).out)
    ensures now[..n] == Decomposed(tab, o, cps)
  {}

  // ---------- round trips through the whole pipeline ----------

  predicate AllValid(cps: seq<int>) { forall i :: 0 <= i < |cps| ==> CodepointValid(cps[i]) }

  lemma OneCodePoint(uc: int)
    requires CodepointValid(uc)
    ensures CodePoints(Encode(uc)) == Some([uc])
  {
    hide CodepointValid;
    var e := Encode(uc);
    DecodeComplete(uc, []);
    assert e + [] == e;
    DecodeSound(e);
    assert e[CharLen(e)..] == [];
    assert CodePoints([]) == Some([]) && [uc] + [] == [uc];
  }

  // Appending bytes leaves the first character as it is.
  lemma FirstStays(s: seq<byte>, more: seq<byte>)
    requires CharLen(s) > 0
    ensures CharLen(s + more) == CharLen(s) && Decode(s + more) == Decode(s)
  {}

  lemma {:induction false} CodePointsAppend(s: seq<byte>, uc: int)
    requires CodePoints(s).Some? && CodepointValid(uc)
    ensures CodePoints(s + Encode(uc)) == Some(CodePoints(s).value + [uc])
    decreases |s|
  {
    hide Decode, Encode, CodepointValid, CharLen;
    var e := Encode(uc);
    OneCodePoint(uc);
    if s == [] {
      assert s + e == e;
      assert CodePoints(s).value + [uc] == [uc];
    } else {
      var n := CharLen(s);
      FirstStays(s, e);
      assert (s + e)[n..] == s[n..] + e;
      CodePointsAppend(s[n..], uc);
      var first, rest := Decode(s).value, CodePoints(s[n..]).value;
      assert [first] + (rest + [uc]) == [first] + rest + [uc];
    }
  }

  lemma NoCodePoints()
    ensures CodePoints([]) == Some([])
  {}

  // Decoding what EncodeAll wrote gives the code points back.
  lemma {:induction false} CodePointsOfEncoding(cps: seq<int>)
    requires AllValid(cps)
    ensures CodePoints(EncodeAll(cps)) == Some(cps)
    decreases |cps|
  {
    hide CodepointValid, Encode, CodePoints;
    if cps == [] {
      NoCodePoints();
    } else {
      var init := cps[..|cps| - 1];
      CodePointsOfEncoding(init);
      CodePointsAppend(EncodeAll(init), cps[|cps| - 1]);
      assert init + [cps[|cps| - 1]] == cps;
    }
  }

  lemma {:induction false} DecompHangul(tab: Table, o: Options, h: seq<int>)
    requires WellFounded(tab) && Conjoins(o) && AllSyllables(h)
    ensures DecompText(tab, o, h) == Written(Expand(h), Start)
    decreases |h|
  {
    if h != [] {
      DecompHangul(tab, o, h[..|h| - 1]);
    }
  }

  lemma {:induction false} ExpandedAreStarters(props: Properties, h: seq<int>)
    requires HangulClasses(props) && AllSyllables(h)
    ensures forall i :: 0 <= i < |Expand(h)| ==> props.cc(Expand(h)[i]) == 0
    decreases |h|
  {
    if h != [] {
      ExpandedAreStarters(props, h[..|h| - 1]);
      SyllableParts(h[|h| - 1]);
    }
  }

  // Normalising a text of precomposed Hangul syllables with COMPOSE returns its own bytes.
  lemma HangulIsComposed(tab: Table, o: Options, h: seq<int>)
    requires WellFounded(tab) && HangulClasses(tab.props) && NoTable(tab.props, h) && AllSyllables(h)
    requires o.compose && !HandlesNewlines(o)
    ensures CodePoints(EncodeAll(h)) == Some(h)
    ensures EncodeAll(Reworked(tab, o, Decomposed(tab, o, h))) == EncodeAll(h)
  {
    SyllablesAreValid(h);
    CodePointsOfEncoding(h);
    HangulReworked(tab, o, h);
  }

  lemma SyllablesAreValid(h: seq<int>)
    requires AllSyllables(h)
    ensures AllValid(h)
  {}

  lemma HangulReworked(tab: Table, o: Options, h: seq<int>)
    requires WellFounded(tab) && HangulClasses(tab.props) && NoTable(tab.props, h) && AllSyllables(h)
    requires o.compose && !HandlesNewlines(o)
    ensures Reworked(tab, o, Decomposed(tab, o, h)) == h
  {
    hide DecompText, Expand, Canon, WellFounded, Compose;
    DecompHangul(tab, o, h);
    ExpandedAreStarters(tab.props, h);
    OrderedIsCanon(tab.props.cc, Expand(h));
    HangulRoundTrip(tab.props, o.stable, h);
  }
}
