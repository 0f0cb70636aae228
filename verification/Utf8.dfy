/**
 The UTF-8 codec of src/deps/utf8proc.c and the helpers built on it.
 Masks and shifts are written as division and remainder by the same powers of two.
 */
module Utf8 {
  import opened Bytes

  const ERROR_INVALIDUTF8 := -3

  // The 256-entry table utf8proc_utf8class: the length announced by a lead byte, 0 for none.
  function Utf8Class(b: byte): nat {
    if b < 0x80 then 1
    else if b < 0xC0 then 0
    else if b < 0xE0 then 2
    else if b < 0xF0 then 3
    else if b < 0xF8 then 4
    else 0
  }

  predicate CodepointValid(uc: int) {
    !(uc < 0 || uc >= 0x110000 || uc % 0x10000 >= 0xFFFE || 0xD800 <= uc < 0xE000 || 0xFDD0 <= uc < 0xFDF0)
  }

  // The bytes utf8proc_encode_char writes; its result is their number.
  // U+FFFF and U+FFFE are the markers the decomposer emits, written as one byte each.
  function Encode(uc: int): (s: seq<byte>)
    ensures |s| <= 4
    ensures 0 <= uc < 0x110000 <==> s != []
  {
    if uc < 0 then []
    else if uc < 0x80 then [uc]
    else if uc < 0x800 then [0xC0 + uc / 64, 0x80 + uc % 64]
    else if uc == 0xFFFF then [0xFF]
    else if uc == 0xFFFE then [0xFE]
    else if uc < 0x10000 then [0xE0 + uc / 4096, 0x80 + uc / 64 % 64, 0x80 + uc % 64]
    else if uc < 0x110000 then [0xF0 + uc / 262144, 0x80 + uc / 4096 % 64, 0x80 + uc / 64 % 64, 0x80 + uc % 64]
    else []
  }

  predicate Continuation(b: byte) { 0x80 <= b < 0xC0 }

  // The first code point of s, as utf8proc_iterate computes it.
  function Decode(s: seq<byte>): Option<int> {
    if s == [] then None else
    var n := Utf8Class(s[0]);
    if n == 0 || n > |s| || exists i :: 1 <= i < n && !Continuation(s[i]) then None else
    var uc := Assemble(s, n);
    if uc < 0 || uc % 0x10000 >= 0xFFFE then None else Some(uc)
  }

  // Payload bits of a lead byte and its continuation bytes, put together.
  function Join2(a: int, b: int): int { a % 32 * 64 + b % 64 }
  function Join3(a: int, b: int, c: int): int { a % 16 * 4096 + b % 64 * 64 + c % 64 }
  function Join4(a: int, b: int, c: int, d: int): int { a % 8 * 262144 + b % 64 * 4096 + c % 64 * 64 + d % 64 }

  // The switch over the announced length; -1 stands for an overlong or excluded form.
  function Assemble(s: seq<byte>, n: nat): int
    requires 1 <= n <= 4 && n <= |s|
  {
    if n == 1 then s[0]
    else if n == 2 then
      var uc := Join2(s[0], s[1]);
      if uc < 0x80 then -1 else uc
    else if n == 3 then
      var uc := Join3(s[0], s[1], s[2]);
      if uc < 0x800 || 0xD800 <= uc < 0xE000 || 0xFDD0 <= uc < 0xFDF0 then -1 else uc
    else
      var uc := Join4(s[0], s[1], s[2], s[3]);
      if uc < 0x10000 || uc >= 0x110000 then -1 else uc
  }

  // Base-64 digits: y and z below 64 are recovered from x * 4096 + y * 64 + z, and so on.
  lemma Digits2(x: int, y: int)
    requires 0 <= x && 0 <= y < 64
    ensures (x * 64 + y) / 64 == x && (x * 64 + y) % 64 == y
  {}

  lemma Digits3(x: int, y: int, z: int)
    requires 0 <= x && 0 <= y < 64 && 0 <= z < 64
    ensures var uc := x * 4096 + y * 64 + z; uc / 4096 == x && uc / 64 % 64 == y && uc % 64 == z
  {
    Digits2(x * 64 + y, z);
    Digits2(x, y);
  }

  lemma Digits4(w: int, x: int, y: int, z: int)
    requires 0 <= w && 0 <= x < 64 && 0 <= y < 64 && 0 <= z < 64
    ensures var uc := w * 262144 + x * 4096 + y * 64 + z;
            uc / 262144 == w && uc / 4096 % 64 == x && uc / 64 % 64 == y && uc % 64 == z
  {
    Digits3(w * 64 + x, y, z);
    Digits2(w, x);
  }

  // The remainders of Join3 and Join4 take the offsets off the digits.
  lemma JoinIs3(x: int, y: int, z: int)
    requires 0 <= x < 16 && 0 <= y < 64 && 0 <= z < 64
    ensures Join3(0xE0 + x, 0x80 + y, 0x80 + z) == x * 4096 + y * 64 + z
  {}

  lemma JoinIs4(w: int, x: int, y: int, z: int)
    requires 0 <= w < 8 && 0 <= x < 64 && 0 <= y < 64 && 0 <= z < 64
    ensures Join4(0xF0 + w, 0x80 + x, 0x80 + y, 0x80 + z) == w * 262144 + x * 4096 + y * 64 + z
  {}

  lemma EncodeIs3(uc: int)
    requires 0x800 <= uc < 0xFFFE
    ensures Encode(uc) == [0xE0 + uc / 4096, 0x80 + uc / 64 % 64, 0x80 + uc % 64]
  {}

  lemma EncodeIs2(uc: int)
    requires uc < 0x800
    ensures Encode(uc) == if uc < 0 then [] else if uc < 0x80 then [uc] else [0xC0 + uc / 64, 0x80 + uc % 64]
  {}

  // What is neither a code point nor negative is written in one byte, or not at all.
  lemma EncodeMarker(uc: int)
    requires uc in {0xFFFE, 0xFFFF} || uc >= 0x110000
    ensures Encode(uc) == if uc == 0xFFFF then [0xFF] else if uc == 0xFFFE then [0xFE] else []
  {}

  lemma EncodeIs4(uc: int)
    requires 0x10000 <= uc < 0x110000
    ensures Encode(uc) == [0xF0 + uc / 262144, 0x80 + uc / 4096 % 64, 0x80 + uc / 64 % 64, 0x80 + uc % 64]
  {}

  lemma Split3(a: byte, b: byte, c: byte)
    requires 0xE0 <= a < 0xF0 && Continuation(b) && Continuation(c)
    requires 0x800 <= Join3(a, b, c) && Join3(a, b, c) % 0x10000 < 0xFFFE
    requires !(0xD800 <= Join3(a, b, c) < 0xE000) && !(0xFDD0 <= Join3(a, b, c) < 0xFDF0)
    ensures CodepointValid(Join3(a, b, c))
    ensures Encode(Join3(a, b, c)) == [a, b, c]
  {
    hide Join3, Encode;
    var x, y, z := a - 0xE0, b - 0x80, c - 0x80;
    JoinIs3(x, y, z);
    Digits3(x, y, z);
    EncodeIs3(Join3(a, b, c));
  }

  lemma Split4(a: byte, b: byte, c: byte, d: byte)
    requires 0xF0 <= a < 0xF8 && Continuation(b) && Continuation(c) && Continuation(d)
    requires 0x10000 <= Join4(a, b, c, d) < 0x110000 && Join4(a, b, c, d) % 0x10000 < 0xFFFE
    ensures CodepointValid(Join4(a, b, c, d))
    ensures Encode(Join4(a, b, c, d)) == [a, b, c, d]
  {
    hide Join4, Encode;
    var w, x, y, z := a - 0xF0, b - 0x80, c - 0x80, d - 0x80;
    JoinIs4(w, x, y, z);
    Digits4(w, x, y, z);
    EncodeIs4(Join4(a, b, c, d));
  }

  lemma DecodeSound(s: seq<byte>)
    requires Decode(s).Some?
    ensures CodepointValid(Decode(s).value)
    ensures Encode(Decode(s).value) <= s
    ensures |Encode(Decode(s).value)| == Utf8Class(s[0])
  {
    hide Join3, Join4, Encode, CodepointValid;
    var n := Utf8Class(s[0]);
    assert forall i :: 1 <= i < n ==> Continuation(s[i]);
    if n == 3 {
      Split3(s[0], s[1], s[2]);
      assert [s[0], s[1], s[2]] <= s;
    } else if n == 4 {
      Split4(s[0], s[1], s[2], s[3]);
      assert [s[0], s[1], s[2], s[3]] <= s;
    } else {
      SplitShort(s, n);
    }
  }

  lemma SplitShort(s: seq<byte>, n: nat)
    requires 1 <= n <= 2 && n <= |s| && n == Utf8Class(s[0]) && (n == 2 ==> Continuation(s[1]))
    requires Assemble(s, n) >= 0
    ensures CodepointValid(Assemble(s, n)) && Encode(Assemble(s, n)) == s[..n]
  {}

  lemma Digits(uc: int)
    requires 0 <= uc < 0x110000
    ensures var w, x, y, z := uc / 262144, uc / 4096 % 64, uc / 64 % 64, uc % 64;
            uc == w * 262144 + x * 4096 + y * 64 + z && 0 <= w < 5 && 0 <= x < 64 && 0 <= y < 64 && 0 <= z < 64
  {
    var q := uc / 64;
    var r := q / 64;
    assert uc == q * 64 + uc % 64 && q == r * 64 + q % 64 && r == r / 64 * 64 + r % 64;
    assert uc / 4096 == r && uc / 262144 == r / 64;
  }

  lemma EncodeShape4(uc: int)
    requires CodepointValid(uc) && uc >= 0x10000
    ensures var e := Encode(uc); |e| == 4 && Utf8Class(e[0]) == 4 && Assemble(e, 4) == uc
    ensures forall i :: 1 <= i < 4 ==> Continuation(Encode(uc)[i])
  {
    hide Join4, Encode;
    EncodeIs4(uc);
    Digits(uc);
    JoinIs4(uc / 262144, uc / 4096 % 64, uc / 64 % 64, uc % 64);
  }

  lemma EncodeShape3(uc: int)
    requires CodepointValid(uc) && 0x800 <= uc < 0x10000
    ensures var e := Encode(uc); |e| == 3 && Utf8Class(e[0]) == 3 && Assemble(e, 3) == uc
    ensures forall i :: 1 <= i < 3 ==> Continuation(Encode(uc)[i])
  {
    hide Join3, Encode;
    EncodeIs3(uc);
    Digits(uc);
    assert uc / 4096 < 16 && uc / 262144 == 0;
    JoinIs3(uc / 4096, uc / 64 % 64, uc % 64);
  }

  lemma EncodeShape2(uc: int)
    requires 0x80 <= uc < 0x800
    ensures var e := Encode(uc); |e| == 2 && Utf8Class(e[0]) == 2 && Continuation(e[1]) && Assemble(e, 2) == uc
  {
    assert uc == uc / 64 * 64 + uc % 64;
    assert (0xC0 + uc / 64) % 32 == uc / 64 && (0x80 + uc % 64) % 64 == uc % 64;
  }

  // The bytes of a valid code point announce their own number and carry its value.
  lemma EncodeShape(uc: int)
    requires CodepointValid(uc)
    ensures var e := Encode(uc); e != [] && Utf8Class(e[0]) == |e| && Assemble(e, |e|) == uc
    ensures forall i :: 1 <= i < |Encode(uc)| ==> Continuation(Encode(uc)[i])
  {
    if uc < 0x80 {
    } else {
      hide Encode, Utf8Class, Assemble, Continuation;
      if uc >= 0x10000 {
        EncodeShape4(uc);
      } else if uc >= 0x800 {
        EncodeShape3(uc);
      } else {
        EncodeShape2(uc);
      }
    }
  }

  lemma DecodeComplete(uc: int, rest: seq<byte>)
    requires CodepointValid(uc)
    ensures Decode(Encode(uc) + rest) == Some(uc)
  {
    EncodeShape(uc);
    var e := Encode(uc);
    var s := e + rest;
    assert forall i :: 0 <= i < |e| ==> s[i] == e[i];
    assert Assemble(s, |e|) == Assemble(e, |e|);
  }

  // Encoding and decoding are mutual inverses on exactly the valid code points: a byte string
  // decodes to uc just when uc is valid and the encoding of uc begins the string.
  lemma {:induction false} DecodeExact(s: seq<byte>, uc: int)
    ensures Decode(s) == Some(uc) <==> CodepointValid(uc) && Encode(uc) <= s
  {
    hide Decode, Encode, CodepointValid;
    if Decode(s) == Some(uc) {
      DecodeSound(s);
    }
    if CodepointValid(uc) && Encode(uc) <= s {
      DecodeComplete(uc, s[|Encode(uc)|..]);
      assert Encode(uc) + s[|Encode(uc)|..] == s;
    }
  }

  lemma ClassBounds(b: byte)
    ensures Utf8Class(b) <= 4 && (b == NUL ==> Utf8Class(b) == 1)
  {}

  // utf8proc_iterate. A negative strlen asks for a NUL-terminated string: the NUL is not a
  // continuation byte, so the loop never reads beyond it.
  method Iterate(str: seq<byte>, strlen: int) returns (length: int, dst: int)
    requires strlen <= |str|
    requires strlen < 0 ==> NUL in str
    ensures length == 0 <==> strlen == 0
    ensures length > 0 ==> CodepointValid(dst) && length == |Encode(dst)| && Encode(dst) <= str
    ensures length > 0 && strlen > 0 ==> length <= strlen
    ensures length <= 0 ==> dst == -1 && (strlen != 0 ==> length == ERROR_INVALIDUTF8)
    ensures strlen >= 0 && length <= 0 ==> forall uc :: CodepointValid(uc) ==> !(Encode(uc) <= str[..strlen])
    ensures strlen < 0 && length <= 0 ==> forall uc :: CodepointValid(uc) ==> !(Encode(uc) <= str)
    ensures Decode(if strlen < 0 then str else str[..strlen]) == if length > 0 then Some(dst) else None
  {
    hide Encode, CodepointValid, Utf8Class;
    ghost var seen := if strlen < 0 then str else str[..strlen];
    forall uc ensures Decode(seen) == Some(uc) <==> CodepointValid(uc) && Encode(uc) <= seen {
      DecodeExact(seen, uc);
    }
    dst := -1;
    if strlen == 0 { return 0, -1; }
    length := Utf8Class(str[0]);
    ClassBounds(str[0]);
    if length == 0 { return ERROR_INVALIDUTF8, -1; }
    if strlen >= 0 && length > strlen { return ERROR_INVALIDUTF8, -1; }
    var i := 1;
    while i < length
      invariant 1 <= i <= length
      invariant i <= |seen|
      invariant strlen < 0 && i < length ==> NUL in str[i..]
      invariant forall k :: 1 <= k < i ==> Continuation(seen[k])
    {
      if !Continuation(str[i]) { return ERROR_INVALIDUTF8, -1; }
      i := i + 1;
    }
    var uc := Assemble(str, length);
    if uc < 0 || uc % 0x10000 >= 0xFFFE { return ERROR_INVALIDUTF8, -1; }
    assert Assemble(seen, length) == uc;
    DecodeSound(seen);
    dst := uc;
  }

  // Byte length of the first character, 0 when there is none: what IterateUtf8Char reports.
  function CharLen(s: seq<byte>): (n: nat)
    ensures n <= |s|
    ensures n > 0 <==> Decode(s).Some?
  {
    if Decode(s).None? then 0 else
      DecodeSound(s);
      |Encode(Decode(s).value)|
  }

  // IterateUtf8Char decodes one character and encodes it again; what it copies out is exactly
  // what stood in the string.
  method IterateUtf8Char(str: seq<byte>, strLen: int) returns (length: int, result: seq<byte>)
    requires 0 <= strLen <= |str|
    ensures length > 0 ==> length == CharLen(str[..strLen]) && result == str[..length]
    ensures length <= 0 <==> CharLen(str[..strLen]) == 0
    ensures length == (if strLen == 0 then 0 else if length > 0 then |result| else ERROR_INVALIDUTF8)
  {
    var uc;
    length, uc := Iterate(str, strLen);
    result := [];
    if length > 0 {
      result := Encode(uc);
      length := |result|;
    }
  }

  predicate ValidUtf8(s: seq<byte>) {
    s == [] || (CharLen(s) > 0 && ValidUtf8(s[CharLen(s)..]))
  }

  // The number of decoding steps a valid text takes.
  function NumChars(s: seq<byte>): nat
    requires ValidUtf8(s)
  {
    if s == [] then 0 else 1 + NumChars(s[CharLen(s)..])
  }

  // The first character alone is a valid text of one character.
  lemma FirstCharAlone(s: seq<byte>)
    requires CharLen(s) > 0
    ensures CharLen(s[..CharLen(s)]) == CharLen(s) && ValidUtf8(s[..CharLen(s)])
    ensures ValidUtf8(s) <==> ValidUtf8(s[CharLen(s)..])
  {
    hide Decode, Encode, CodepointValid;
    var n := CharLen(s);
    DecodeSound(s);
    var uc := Decode(s).value;
    DecodeComplete(uc, []);
    assert s[..n] == Encode(uc) + [];
    assert s[..n][n..] == [];
  }

  lemma ValidStarts(s: seq<byte>)
    requires ValidUtf8(s) && s != []
    ensures CharLen(s) > 0
  {}

  // utf8StrLen: it counts every byte that is not a continuation byte (nor 0xF8 and above).
  function LeadBytes(s: seq<byte>): nat {
    if s == [] then 0
    else (if Utf8Class(s[0]) > 0 then 1 else 0) + LeadBytes(s[1..])
  }

  method StrLen(str: seq<byte>) returns (cnt: nat)
    requires NUL in str
    ensures exists k :: 0 <= k < |str| && str[k] == NUL && NUL !in str[..k] && cnt == LeadBytes(str[..k])
  {
    cnt := 0;
    var rp := 0;
    while str[rp] != NUL
      invariant 0 <= rp < |str| && NUL !in str[..rp] && NUL in str[rp..]
      invariant cnt == LeadBytes(str[..rp])
      decreases |str| - rp
    {
      LeadBytesAppend(str[..rp], [str[rp]]);
      assert str[..rp + 1] == str[..rp] + [str[rp]];
      if str[rp] < 0x80 || 0xC0 <= str[rp] < 0xE0 || 0xE0 <= str[rp] < 0xF0 || 0xF0 <= str[rp] < 0xF8 {
        cnt := cnt + 1;
      }
      rp := rp + 1;
    }
  }

  lemma {:induction false} LeadBytesAppend(a: seq<byte>, b: seq<byte>)
    ensures LeadBytes(a + b) == LeadBytes(a) + LeadBytes(b)
  {
    if a == [] {
      assert a + b == b;
    } else {
      LeadBytesAppend(a[1..], b);
      assert (a + b)[1..] == a[1..] + b;
    }
  }

  // Bytes that begin a sequence of one to four bytes are counted.
  lemma LeadBytesOne(b: byte)
    ensures LeadBytes([b]) == if b < 0x80 || 0xC0 <= b < 0xF8 then 1 else 0
  {
    assert [b][1..] == [];
  }

  // On valid text utf8StrLen counts the decoding steps.
  lemma {:induction false} StrLenCountsCharacters(s: seq<byte>)
    requires ValidUtf8(s)
    ensures LeadBytes(s) == NumChars(s)
  {
    if s != [] {
      var n := CharLen(s);
      DecodeSound(s);
      var e := s[..n];
      EncodeShape(Decode(s).value);
      NoLeadByte(e[1..]);
      LeadBytesAppend(e, s[n..]);
      assert e + s[n..] == s;
      StrLenCountsCharacters(s[n..]);
    }
  }

  lemma NoLeadByte(t: seq<byte>)
    requires forall i :: 0 <= i < |t| ==> Continuation(t[i])
    ensures LeadBytes(t) == 0
  {}
}
