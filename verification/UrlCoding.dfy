/**
 UrlEncode and UrlDecode of src/isdk_utils.c:584-709 (percent-encoding, section 2.1 of RFC 3986).
 */
module UrlCoding {
  import opened Bytes

  const PERCENT: byte := 0x25

  predicate IsPrintable(c: byte) { 32 <= c <= 126 && c != PERCENT }

  predicate IsSafe(c: byte, unsafe: seq<byte>) { c !in unsafe && IsPrintable(c) }

  function UpperHex(d: int): byte
    requires 0 <= d < 16
  {
    if d < 10 then 0x30 + d else 0x41 + (d - 10)
  }

  // What an escape shows of a byte. The source passes a signed char to %X: from 128 on it is
  // printed as FFFFFFxx, of which the bounded snprintf keeps two digits.
  function Seen(c: byte): byte { if c < 128 then c else 255 }

  function EncodeByte(c: byte, unsafe: seq<byte>): seq<byte> {
    if IsSafe(c, unsafe) then [c] else [PERCENT, UpperHex(Seen(c) / 16), UpperHex(Seen(c) % 16)]
  }

  function Encoded(s: seq<byte>, unsafe: seq<byte>): seq<byte>
    decreases |s|
  {
    if s == [] then [] else Encoded(s[..|s| - 1], unsafe) + EncodeByte(s[|s| - 1], unsafe)
  }

  lemma EncodedAppend(s: seq<byte>, c: byte, unsafe: seq<byte>)
    ensures Encoded(s + [c], unsafe) == Encoded(s, unsafe) + EncodeByte(c, unsafe)
  {}

  lemma {:induction false} EncodedGrows(s: seq<byte>, n: nat, unsafe: seq<byte>)
    requires n <= |s|
    ensures |Encoded(s[..n], unsafe)| <= |Encoded(s, unsafe)|
    ensures n < |s| ==> |Encoded(s[..n], unsafe)| + |EncodeByte(s[n], unsafe)| <= |Encoded(s, unsafe)|
    decreases |s| - n
  {
    if n == |s| {
      assert s[..n] == s;
    } else {
      assert s[..n + 1][..n] == s[..n];
      EncodedGrows(s, n + 1, unsafe);
    }
  }

  // snprintf(ct, 4, "%%%02X", c): the first three characters and a NUL.
  method PrintEscape(ct: array<byte>, at: nat, c: byte)
    requires at + 4 <= ct.Length
    modifies ct
    ensures ct[at..at + 3] == [PERCENT, UpperHex(Seen(c) / 16), UpperHex(Seen(c) % 16)] && ct[at + 3] == NUL
    ensures forall k :: 0 <= k < ct.Length && !(at <= k < at + 4) ==> ct[k] == old(ct[k])
  {
    var value: int := if c < 128 then c else c - 256 + 0x1_0000_0000;
    var digits := if value < 0x100 then value else value / 0x100_0000;
    ct[at], ct[at + 1], ct[at + 2], ct[at + 3] := PERCENT, UpperHex(digits / 16), UpperHex(digits % 16), NUL;
  }

  lemma NextEncoded(s: seq<byte>, i: nat, unsafe: seq<byte>)
    requires i < |s|
    ensures Encoded(s[..i + 1], unsafe) == Encoded(s[..i], unsafe) + EncodeByte(s[i], unsafe)
    ensures |Encoded(s[..i + 1], unsafe)| <= |Encoded(s, unsafe)|
  {
    assert s[..i + 1] == s[..i] + [s[i]];
    EncodedAppend(s[..i], s[i], unsafe);
    EncodedGrows(s, i + 1, unsafe);
  }

  lemma EncodedEnds(s: seq<byte>, unsafe: seq<byte>)
    ensures Encoded(s[..0], unsafe) == [] && Encoded(s[..|s|], unsafe) == Encoded(s, unsafe)
  {
    assert s[..0] == [] && s[..|s|] == s;
  }

  // One character of the filling pass. The NUL that snprintf adds must still fit.
  method PutEncoded(ct: array<byte>, at: nat, c: byte, unsafe: seq<byte>) returns (n: nat)
    requires at + |EncodeByte(c, unsafe)| < ct.Length
    modifies ct
    ensures n == |EncodeByte(c, unsafe)| && ct[at..at + n] == EncodeByte(c, unsafe) && ct[..at] == old(ct[..at])
  {
    if IsSafe(c, unsafe) {
      ct[at] := c;
      n := 1;
    } else {
      PrintEscape(ct, at, c);
      n := 3;
    }
  }

  // UrlEncode: the counting pass, then the filling pass into exactly that many bytes.
  method UrlEncode(s: seq<byte>, unsafe: seq<byte>) returns (ret: array<byte>)
    requires NUL !in s
    ensures fresh(ret) && ret[..] == Encoded(s, unsafe) + [NUL]
  {
    hide IsSafe, Encoded, UpperHex;
    EncodedEnds(s, unsafe);
    var len, i := 0, 0;
    while i < |s|
      invariant 0 <= i <= |s| && len == |Encoded(s[..i], unsafe)|
    {
      NextEncoded(s, i, unsafe);
      if IsSafe(s[i], unsafe) { len := len + 1; } else { len := len + 3; }
      i := i + 1;
    }
    len := len + 1;
    ret := new byte[len](_ => 0);
    var ct := 0;
    i := 0;
    while i < |s|
      invariant 0 <= i <= |s| && ct == |Encoded(s[..i], unsafe)| && ct < ret.Length == |Encoded(s, unsafe)| + 1
      invariant fresh(ret) && ret[..ct] == Encoded(s[..i], unsafe)
    {
      NextEncoded(s, i, unsafe);
      ghost var done := ret[..ct];
      var n := PutEncoded(ret, ct, s[i], unsafe);
      assert ret[..ct + n] == done + ret[ct..ct + n];
      ct := ct + n;
      i := i + 1;
    }
    ret[ct] := NUL;
    assert ret[..] == ret[..ct] + [NUL];
  }

  // ---------- decoding ----------

  predicate IsXDigit(c: byte) { 0x30 <= c <= 0x39 || 0x61 <= c <= 0x66 || 0x41 <= c <= 0x46 }

  function ToLower(c: byte): byte { if 0x41 <= c <= 0x5A then c + 32 else c }

  function HexValue(c: byte): (v: int)
    requires IsXDigit(c)
    ensures 0 <= v < 16
  {
    var l := ToLower(c);
    if 0x30 <= l <= 0x39 then l - 0x30 else l - 0x61 + 10
  }

  // '%' and two hex digits at position i.
  predicate EscapeAt(s: seq<byte>, i: nat) {
    i + 2 < |s| && s[i] == PERCENT && IsXDigit(s[i + 1]) && IsXDigit(s[i + 2])
  }

  // '%u' and four hex digits at position i: a form whose decoding is not modelled.
  predicate UnicodeAt(s: seq<byte>, i: nat) {
    i + 5 < |s| && s[i] == PERCENT && s[i + 1] in {0x75, 0x55}
    && IsXDigit(s[i + 2]) && IsXDigit(s[i + 3]) && IsXDigit(s[i + 4]) && IsXDigit(s[i + 5])
  }

  // Decoding from position i with `out` already written. A '%' that begins no escape writes
  // nothing: the byte that stood at the write position stays there.
  function DecodedFrom(s: seq<byte>, i: nat, out: seq<byte>): seq<byte>
    requires |out| <= i
    decreases |s| - i
  {
    if i >= |s| then out
    else if EscapeAt(s, i) then DecodedFrom(s, i + 3, out + [HexValue(s[i + 1]) * 16 + HexValue(s[i + 2])])
    else if s[i] == PERCENT then DecodedFrom(s, i + 1, out + [s[|out|]])
    else DecodedFrom(s, i + 1, out + [s[i]])
  }

  function Decoded(s: seq<byte>): seq<byte> { DecodedFrom(s, 0, []) }

  // UrlDecode, in place on a buffer of len bytes and a NUL. The write position never passes the
  // read position.
  method UrlDecode(vStr: array<byte>, len0: nat) returns (n: nat)
    requires len0 < vStr.Length
    requires forall i: nat :: !UnicodeAt(vStr[..len0], i)
    modifies vStr
    ensures n <= len0 && vStr[..n] == Decoded(old(vStr[..len0])) && vStr[n] == NUL
    ensures forall k :: n < k < vStr.Length && k > len0 ==> vStr[k] == old(vStr[k])
  {
    hide HexValue;
    ghost var s := vStr[..len0];
    var dest, data, len := 0, 0, len0;
    while len > 0
      invariant dest <= data && data + len == len0
      invariant forall k :: dest <= k < vStr.Length ==> vStr[k] == old(vStr[k])
      invariant DecodedFrom(s, data, vStr[..dest]) == Decoded(s)
    {
      len := len - 1;
      ghost var done := vStr[..dest];
      assert forall k :: data <= k < len0 ==> vStr[k] == s[k];
      if vStr[data] == PERCENT {
        if len >= 2 && IsXDigit(vStr[data + 1]) && IsXDigit(vStr[data + 2]) {
          assert EscapeAt(s, data);
          var value: byte := HexValue(vStr[data + 1]) * 16 + HexValue(vStr[data + 2]);
          vStr[dest] := value;
          data := data + 2;
          len := len - 2;
        } else {
          assert !UnicodeAt(s, data);
          assert vStr[dest] == s[dest];
        }
      } else {
        vStr[dest] := vStr[data];
      }
      data := data + 1;
      dest := dest + 1;
      assert vStr[..dest] == done + [vStr[dest - 1]];
    }
    vStr[dest] := NUL;
    return dest;
  }

  // ---------- the round trip ----------

  lemma HexInverse(c: byte)
    ensures IsXDigit(UpperHex(c / 16)) && IsXDigit(UpperHex(c % 16))
    ensures HexValue(UpperHex(c / 16)) * 16 + HexValue(UpperHex(c % 16)) == c
  {}

  // The part of an encoded text still to be decoded, and what was decoded before it.
  lemma {:induction false} DecodedStep(e: seq<byte>, i: nat, c: byte, unsafe: seq<byte>, out: seq<byte>)
    requires |out| <= i && i + |EncodeByte(c, unsafe)| <= |e| && e[i..i + |EncodeByte(c, unsafe)|] == EncodeByte(c, unsafe)
    ensures DecodedFrom(e, i, out) == DecodedFrom(e, i + |EncodeByte(c, unsafe)|, out + [Seen(c)])
  {
    var b := EncodeByte(c, unsafe);
    var w := e[i..i + |b|];
    if IsSafe(c, unsafe) {
      assert w[0] == e[i];
      DecodedPlain(e, i, out);
    } else {
      assert w[0] == e[i] && w[1] == e[i + 1] && w[2] == e[i + 2];
      HexInverse(Seen(c));
      DecodedEscape(e, i, out);
    }
  }

  lemma DecodedPlain(s: seq<byte>, i: nat, out: seq<byte>)
    requires |out| <= i < |s| && s[i] != PERCENT
    ensures DecodedFrom(s, i, out) == DecodedFrom(s, i + 1, out + [s[i]])
  {}

  lemma DecodedEscape(s: seq<byte>, i: nat, out: seq<byte>)
    requires |out| <= i && EscapeAt(s, i)
    ensures DecodedFrom(s, i, out) == DecodedFrom(s, i + 3, out + [HexValue(s[i + 1]) * 16 + HexValue(s[i + 2])])
  {}

  function AllSeen(s: seq<byte>): seq<byte> { seq(|s|, i requires 0 <= i < |s| => Seen(s[i])) }

  lemma {:induction false} DecodedPrefix(s: seq<byte>, n: nat, unsafe: seq<byte>)
    requires n <= |s|
    ensures |Encoded(s[..n], unsafe)| >= n
    ensures Decoded(Encoded(s, unsafe)) == DecodedFrom(Encoded(s, unsafe), |Encoded(s[..n], unsafe)|, AllSeen(s[..n]))
    decreases n
  {
    hide EncodeByte, DecodedFrom, Encoded;
    EncodedEnds(s, unsafe);
    if n == 0 {
      assert s[..0] == [] && AllSeen(s[..0]) == [];
    } else {
      var e, b := Encoded(s, unsafe), EncodeByte(s[n - 1], unsafe);
      var before, after := Encoded(s[..n - 1], unsafe), Encoded(s[..n], unsafe);
      DecodedPrefix(s, n - 1, unsafe);
      NextEncoded(s, n - 1, unsafe);
      EncodedPrefix(s, n, unsafe);
      EncodeByteSize(s[n - 1], unsafe);
      assert e[..|after|] == after;
      assert e[|before|..|after|] == after[|before|..] == b;
      DecodedStep(e, |before|, s[n - 1], unsafe, AllSeen(s[..n - 1]));
      assert s[..n] == s[..n - 1] + [s[n - 1]];
      AllSeenAppend(s[..n - 1], s[n - 1]);
    }
  }

  lemma AllSeenAppend(s: seq<byte>, c: byte)
    ensures AllSeen(s + [c]) == AllSeen(s) + [Seen(c)]
  {}

  lemma EncodeByteSize(c: byte, unsafe: seq<byte>)
    ensures |EncodeByte(c, unsafe)| >= 1
  {}

  lemma {:induction false} EncodedPrefix(s: seq<byte>, n: nat, unsafe: seq<byte>)
    requires n <= |s|
    ensures Encoded(s[..n], unsafe) <= Encoded(s, unsafe)
    decreases |s| - n
  {
    if n == |s| {
      assert s[..n] == s;
    } else {
      assert s[..n + 1][..n] == s[..n];
      EncodedPrefix(s, n + 1, unsafe);
    }
  }

  // Every '%' of an encoded text begins a two-digit escape.
  lemma {:induction false} PercentBeginsEscape(s: seq<byte>, unsafe: seq<byte>, i: nat)
    requires i < |Encoded(s, unsafe)| && Encoded(s, unsafe)[i] == PERCENT
    ensures EscapeAt(Encoded(s, unsafe), i)
    decreases |s|
  {
    var init, c := s[..|s| - 1], s[|s| - 1];
    HexInverse(Seen(c));
    var e, b := Encoded(init, unsafe), EncodeByte(c, unsafe);
    assert Encoded(s, unsafe) == e + b;
    if i < |e| {
      PercentBeginsEscape(init, unsafe, i);
    } else {
      assert b[i - |e|] == PERCENT;
      assert (e + b)[i + 1] == b[i - |e| + 1] && (e + b)[i + 2] == b[i - |e| + 2];
    }
  }

  // So an encoded text is one that UrlDecode accepts.
  lemma NoUnicodeEscape(s: seq<byte>, unsafe: seq<byte>, i: nat)
    ensures !UnicodeAt(Encoded(s, unsafe), i)
  {
    if UnicodeAt(Encoded(s, unsafe), i) {
      PercentBeginsEscape(s, unsafe, i);
    }
  }

  // For every unsafe set, decoding an encoded string gives it back exactly when it has no byte from
  // 128 to 254; those come back as 255.
  lemma DecodeInvertsEncode(s: seq<byte>, unsafe: seq<byte>)
    ensures Decoded(Encoded(s, unsafe)) == AllSeen(s)
    ensures Decoded(Encoded(s, unsafe)) == s <==> forall i :: 0 <= i < |s| ==> s[i] < 128 || s[i] == 255
  {
    DecodedPrefix(s, |s|, unsafe);
    assert s[..|s|] == s;
    assert forall i :: 0 <= i < |s| ==> AllSeen(s)[i] == Seen(s[i]);
  }

  // The byte 128 is written "%FF" and comes back as 255.
  lemma HighByteLost(unsafe: seq<byte>)
    ensures Encoded([128], unsafe) == [PERCENT, 0x46, 0x46] && Decoded(Encoded([128], unsafe)) == [255]
  {
    DecodeInvertsEncode([128], unsafe);
    assert [128][..0] == [];
    assert Encoded([128], unsafe) == Encoded([], unsafe) + EncodeByte(128, unsafe);
  }

  // ---------- what the encoded form looks like ----------

  // "0123456789ABCDEF"
  const UPPER_DIGITS: seq<byte> :=
    [0x30, 0x31, 0x32, 0x33, 0x34, 0x35, 0x36, 0x37, 0x38, 0x39, 0x41, 0x42, 0x43, 0x44, 0x45, 0x46]

  // The value of a hex digit of either case.
  const DIGIT_VALUES: map<byte, int> := map[
    0x30 := 0, 0x31 := 1, 0x32 := 2, 0x33 := 3, 0x34 := 4, 0x35 := 5, 0x36 := 6, 0x37 := 7, 0x38 := 8, 0x39 := 9,
    0x41 := 10, 0x42 := 11, 0x43 := 12, 0x44 := 13, 0x45 := 14, 0x46 := 15,
    0x61 := 10, 0x62 := 11, 0x63 := 12, 0x64 := 13, 0x65 := 14, 0x66 := 15
  ]

  // '%' and two upper-case hex digits.
  predicate UpperEscapeAt(e: seq<byte>, i: int) {
    0 <= i && i + 2 < |e| && e[i] == 0x25 && e[i + 1] in UPPER_DIGITS && e[i + 2] in UPPER_DIGITS
  }

  // A byte that needs no escape.
  predicate Unreserved(c: byte, unsafe: seq<byte>) { 32 <= c <= 126 && c != 0x25 && c !in unsafe }

  // Texts are encoded piece by piece.
  lemma {:induction false} EncodedConcat(a: seq<byte>, b: seq<byte>, unsafe: seq<byte>)
    ensures Encoded(a + b, unsafe) == Encoded(a, unsafe) + Encoded(b, unsafe)
    decreases |b|
  {
    if b == [] {
      assert a + b == a;
    } else {
      assert (a + b)[..|a + b| - 1] == a + b[..|b| - 1];
      EncodedConcat(a, b[..|b| - 1], unsafe);
    }
  }

  // One byte is itself or its escape, exactly as it is unreserved or not.
  lemma EncodedByte(c: byte, unsafe: seq<byte>)
    ensures Encoded([c], unsafe)
            == if Unreserved(c, unsafe) then [c]
               else [0x25, UPPER_DIGITS[(if c < 128 then c else 255) / 16], UPPER_DIGITS[(if c < 128 then c else 255) % 16]]
  {
    assert [c][..0] == [];
  }

  // Every byte of an encoded text is unreserved, or part of an escape.
  lemma {:induction false} EncodedBytes(s: seq<byte>, unsafe: seq<byte>, i: nat)
    requires i < |Encoded(s, unsafe)|
    ensures var e := Encoded(s, unsafe);
            Unreserved(e[i], unsafe) || UpperEscapeAt(e, i) || UpperEscapeAt(e, i - 1) || UpperEscapeAt(e, i - 2)
    decreases |s|
  {
    hide Encoded, Unreserved, UPPER_DIGITS;
    EncodedNothing(unsafe);
    var init, c := s[..|s| - 1], s[|s| - 1];
    var e, d, b := Encoded(s, unsafe), Encoded(init, unsafe), Encoded([c], unsafe);
    assert s == init + [c];
    EncodedConcat(init, [c], unsafe);
    if i < |d| {
      EncodedBytes(init, unsafe, i);
      EscapeStays(d, b, i);
      EscapeStays(d, b, i - 1);
      EscapeStays(d, b, i - 2);
    } else {
      NewBytes(d, c, unsafe, i - |d|);
    }
  }

  lemma EncodedNothing(unsafe: seq<byte>)
    ensures Encoded([], unsafe) == []
  {}

  lemma EscapeStays(d: seq<byte>, b: seq<byte>, i: int)
    ensures UpperEscapeAt(d, i) ==> UpperEscapeAt(d + b, i)
  {}

  lemma NewBytes(d: seq<byte>, c: byte, unsafe: seq<byte>, k: nat)
    requires k < |Encoded([c], unsafe)|
    ensures var e := d + Encoded([c], unsafe);
            || Unreserved(e[|d| + k], unsafe)
            || (k == 0 && UpperEscapeAt(e, |d|)) || (k == 1 && UpperEscapeAt(e, |d|)) || (k == 2 && UpperEscapeAt(e, |d|))
  {
    hide Encoded;
    EncodedByte(c, unsafe);
    var b := Encoded([c], unsafe);
    if !Unreserved(c, unsafe) {
      var e := d + b;
      assert e[|d|] == b[0] && e[|d| + 1] == b[1] && e[|d| + 2] == b[2];
    }
  }

  // A text of unreserved bytes is its own encoding.
  lemma {:induction false} UnreservedIsItself(s: seq<byte>, unsafe: seq<byte>)
    requires forall i :: 0 <= i < |s| ==> Unreserved(s[i], unsafe)
    ensures Encoded(s, unsafe) == s
    decreases |s|
  {
    if s != [] {
      var init, c := s[..|s| - 1], s[|s| - 1];
      assert s == init + [c];
      UnreservedIsItself(init, unsafe);
      EncodedConcat(init, [c], unsafe);
      EncodedByte(c, unsafe);
    }
  }

  // ---------- what decoding does ----------

  lemma {:induction false} PlainDecoded(s: seq<byte>, i: nat, n: nat, out: seq<byte>)
    requires |out| <= i <= n <= |s| && forall k :: i <= k < n ==> s[k] != 0x25
    ensures DecodedFrom(s, i, out) == DecodedFrom(s, n, out + s[i..n])
    decreases n - i
  {
    if i == n {
      assert out + s[i..n] == out;
    } else {
      DecodedPlain(s, i, out);
      PlainDecoded(s, i + 1, n, out + [s[i]]);
      assert out + [s[i]] + s[i + 1..n] == out + s[i..n];
    }
  }

  lemma DecodedEnds(s: seq<byte>, out: seq<byte>)
    requires |out| <= |s|
    ensures DecodedFrom(s, |s|, out) == out
  {}

  // A text without percent signs is left alone.
  lemma PlainIsDecoded(s: seq<byte>)
    requires 0x25 !in s
    ensures Decoded(s) == s
  {
    PlainDecoded(s, 0, |s|, []);
    assert [] + s[0..|s|] == s;
  }

  // Up to position m, s is p, an escape and q.
  predicate Front(s: seq<byte>, p: seq<byte>, high: byte, low: byte, q: seq<byte>, m: int) {
    var n := |p|;
    && m == n + 3 + |q| <= |s|
    && s[0..n] == p && s[n] == 0x25 && s[n + 1] == high && s[n + 2] == low && s[n + 3..m] == q
    && (forall k :: 0 <= k < n ==> s[k] != 0x25) && (forall k :: n + 3 <= k < m ==> s[k] != 0x25)
  }

  lemma FrontDecoded(s: seq<byte>, p: seq<byte>, high: byte, low: byte, q: seq<byte>, m: int)
    requires Front(s, p, high, low, q, m) && high in DIGIT_VALUES && low in DIGIT_VALUES
    ensures var v := DIGIT_VALUES[high] * 16 + DIGIT_VALUES[low];
            0 <= v < 256 && Decoded(s) == DecodedFrom(s, m, p + [v] + q)
  {
    hide DIGIT_VALUES, HexValue, IsXDigit, DecodedFrom, EscapeAt;
    var n := |p|;
    PlainDecoded(s, 0, n, []);
    NothingBefore(p);
    EscapeStep(s, n, high, low, p);
    var v: byte := DIGIT_VALUES[high] * 16 + DIGIT_VALUES[low];
    PlainDecoded(s, n + 3, m, p + [v]);
  }

  lemma FrontOf(p: seq<byte>, high: byte, low: byte, q: seq<byte>, r: seq<byte>)
    requires 0x25 !in p && 0x25 !in q
    ensures Front(p + [0x25, high, low] + q + r, p, high, low, q, |p| + 3 + |q|)
  {
    var s, n, m := p + [0x25, high, low] + q + r, |p|, |p| + 3 + |q|;
    assert forall k :: 0 <= k < n ==> s[k] == p[k];
    assert forall k :: n + 3 <= k < m ==> s[k] == q[k - n - 3];
  }

  // An escape stands for the byte of its two digits, of either case.
  lemma EscapeIsDecoded(p: seq<byte>, high: byte, low: byte, r: seq<byte>)
    requires 0x25 !in p && 0x25 !in r && high in DIGIT_VALUES && low in DIGIT_VALUES
    ensures Decoded(p + [0x25, high, low] + r) == p + [DIGIT_VALUES[high] * 16 + DIGIT_VALUES[low]] + r
  {
    hide *;
    var s := p + [0x25, high, low] + r;
    FrontOf(p, high, low, r, []);
    assert s + [] == s;
    FrontDecoded(s, p, high, low, r, |s|);
    DecodedEnds(s, p + [DIGIT_VALUES[high] * 16 + DIGIT_VALUES[low]] + r);
  }

  lemma NothingBefore(p: seq<byte>)
    ensures [] + p == p
  {}

  lemma EscapeStep(s: seq<byte>, n: nat, high: byte, low: byte, out: seq<byte>)
    requires |out| <= n && n + 2 < |s| && s[n] == 0x25 && s[n + 1] == high && s[n + 2] == low
    requires high in DIGIT_VALUES && low in DIGIT_VALUES
    ensures var v := DIGIT_VALUES[high] * 16 + DIGIT_VALUES[low];
            0 <= v < 256 && DecodedFrom(s, n, out) == DecodedFrom(s, n + 3, out + [v])
  {
    hide DIGIT_VALUES, HexValue, IsXDigit, DecodedFrom;
    DigitValues(high);
    DigitValues(low);
    DecodedEscape(s, n, out);
  }

  lemma DigitValues(d: byte)
    ensures d in DIGIT_VALUES <==> IsXDigit(d)
    ensures d in DIGIT_VALUES ==> 0 <= DIGIT_VALUES[d] == HexValue(d) < 16
  {}

  // A first percent sign that begins no escape stays.
  lemma LonePercentStays(p: seq<byte>, r: seq<byte>)
    requires 0x25 !in p && 0x25 !in r && !(|r| >= 2 && r[0] in DIGIT_VALUES && r[1] in DIGIT_VALUES)
    ensures Decoded(p + [0x25] + r) == p + [0x25] + r
  {
    var s, n := p + [0x25] + r, |p|;
    assert s[..n] == p && s[n + 1..] == r && s[n] == 0x25;
    assert forall k :: 0 <= k < n ==> s[k] == p[k];
    assert forall k :: n + 1 <= k < |s| ==> s[k] == r[k - n - 1];
    PlainDecoded(s, 0, n, []);
    assert [] + s[0..n] == p;
    if |r| >= 2 { DigitValues(r[0]); DigitValues(r[1]); }
    assert !EscapeAt(s, n);
    assert DecodedFrom(s, n, p) == DecodedFrom(s, n + 1, p + [s[|p|]]);
    PlainDecoded(s, n + 1, |s|, p + [0x25]);
    assert s[n + 1..|s|] == r;
  }

  // Behind an escape the positions differ: such a percent sign then stands for the byte that was at
  // the write position.
  lemma LatePercent(p: seq<byte>, high: byte, low: byte, q: seq<byte>, r: seq<byte>)
    requires 0x25 !in p && 0x25 !in q && 0x25 !in r && high in DIGIT_VALUES && low in DIGIT_VALUES
    requires !(|r| >= 2 && r[0] in DIGIT_VALUES && r[1] in DIGIT_VALUES)
    ensures var s := p + [0x25, high, low] + q + [0x25] + r;
            var v := DIGIT_VALUES[high] * 16 + DIGIT_VALUES[low];
            0 <= v < 256 && Decoded(s) == p + [v] + q + [s[|p| + 1 + |q|]] + r
  {
    hide *;
    var s, m := p + [0x25, high, low] + q + [0x25] + r, |p| + 3 + |q|;
    LatePercentParts(p, high, low, q, r);
    FrontDecoded(s, p, high, low, q, m);
    NoEscapeHere(s, m, r);
    var v: byte := DIGIT_VALUES[high] * 16 + DIGIT_VALUES[low];
    var out := p + [v] + q;
    LoneDecoded(s, m, out);
    PlainDecoded(s, m + 1, |s|, out + [s[|out|]]);
    DecodedEnds(s, out + [s[|out|]] + r);
  }

  lemma LatePercentParts(p: seq<byte>, high: byte, low: byte, q: seq<byte>, r: seq<byte>)
    requires 0x25 !in p && 0x25 !in q && 0x25 !in r
    ensures var s, m := p + [0x25, high, low] + q + [0x25] + r, |p| + 3 + |q|;
            && Front(s, p, high, low, q, m)
            && s[m] == 0x25 && s[m + 1..|s|] == r && s[m + 1..] == r && forall k :: m + 1 <= k < |s| ==> s[k] != 0x25
  {
    var s, m := p + [0x25, high, low] + q + [0x25] + r, |p| + 3 + |q|;
    FrontOf(p, high, low, q, [0x25] + r);
    assert p + [0x25, high, low] + q + ([0x25] + r) == s;
    assert forall k :: m + 1 <= k < |s| ==> s[k] == r[k - m - 1];
  }

  lemma NoEscapeHere(s: seq<byte>, m: nat, r: seq<byte>)
    requires m < |s| && s[m + 1..] == r && !(|r| >= 2 && r[0] in DIGIT_VALUES && r[1] in DIGIT_VALUES)
    ensures !EscapeAt(s, m)
  {
    if |r| >= 2 {
      DigitValues(r[0]);
      DigitValues(r[1]);
      assert s[m + 1..][0] == s[m + 1] && s[m + 1..][1] == s[m + 2];
    }
  }

  lemma LoneDecoded(s: seq<byte>, i: nat, out: seq<byte>)
    requires |out| <= i < |s| && s[i] == 0x25 && !EscapeAt(s, i)
    ensures DecodedFrom(s, i, out) == DecodedFrom(s, i + 1, out + [s[|out|]])
  {}
}
