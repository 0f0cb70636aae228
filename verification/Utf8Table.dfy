/**
 The UTF-8 decoder (src/deps/utf8proc.c:119-157) byte by byte: which sequences it accepts (the table of
 section 4 of RFC 3629, without noncharacters) and what value they have.
 */
module Utf8Table {
  import opened Bytes
  import opened Utf8

  predicate Tail(b: byte) { 0x80 <= b < 0xC0 }

  // s begins with a sequence of the table.
  predicate InTable(s: seq<byte>) {
    || (|s| >= 1 && s[0] < 0x80)
    || (|s| >= 2 && 0xC2 <= s[0] < 0xE0 && Tail(s[1]))
    || (|s| >= 3 && Tail(s[1]) && Tail(s[2]) && 0xE0 <= s[0] < 0xF0
        && (s[0] == 0xE0 ==> s[1] >= 0xA0)    // no overlong form
        && (s[0] == 0xED ==> s[1] < 0xA0))    // no surrogate
    || (|s| >= 4 && Tail(s[1]) && Tail(s[2]) && Tail(s[3]) && 0xF0 <= s[0] < 0xF5
        && (s[0] == 0xF0 ==> s[1] >= 0x90)    // no overlong form
        && (s[0] == 0xF4 ==> s[1] < 0x90))    // nothing beyond U+10FFFF
  }

  // s begins with U+FDD0 to U+FDEF, or with one of the last two code points of a plane.
  predicate NoncharacterBytes(s: seq<byte>) {
    || (|s| >= 3 && s[0] == 0xEF && s[1] == 0xB7 && 0x90 <= s[2] < 0xB0)
    || (|s| >= 3 && s[0] == 0xEF && s[1] == 0xBF && s[2] >= 0xBE)
    || (|s| >= 4 && s[0] >= 0xF0 && s[1] % 16 == 15 && s[2] == 0xBF && s[3] >= 0xBE)
  }

  function Value2(a: int, b: int): int { (a - 0xC0) * 64 + (b - 0x80) }
  function Value3(a: int, b: int, c: int): int { (a - 0xE0) * 4096 + (b - 0x80) * 64 + (c - 0x80) }
  function Value4(a: int, b: int, c: int, d: int): int {
    (a - 0xF0) * 262144 + (b - 0x80) * 4096 + (c - 0x80) * 64 + (d - 0x80)
  }

  function ValueOf(s: seq<byte>): int
    requires InTable(s)
  {
    if s[0] < 0x80 then s[0]
    else if s[0] < 0xE0 then Value2(s[0], s[1])
    else if s[0] < 0xF0 then Value3(s[0], s[1], s[2])
    else Value4(s[0], s[1], s[2], s[3])
  }

  // The decoder accepts exactly the sequences of the table that are no noncharacters.
  lemma DecodesTheTable(s: seq<byte>)
    ensures Decode(s) == if InTable(s) && !NoncharacterBytes(s) then Some(ValueOf(s)) else None
  {
    hide Assemble;
    if s != [] {
      if s[0] < 0x80 {
        OneByte(s);
      } else if 0xC0 <= s[0] < 0xE0 && |s| >= 2 && Tail(s[1]) {
        TwoBytes(s);
      } else if 0xE0 <= s[0] < 0xF0 && |s| >= 3 && Tail(s[1]) && Tail(s[2]) {
        ThreeBytes(s);
      } else if 0xF0 <= s[0] < 0xF8 && |s| >= 4 && Tail(s[1]) && Tail(s[2]) && Tail(s[3]) {
        FourBytes(s);
      }
    }
  }

  lemma OneByte(s: seq<byte>)
    requires |s| >= 1
    ensures Assemble(s, 1) == s[0]
  {}

  lemma TwoBytes(s: seq<byte>)
    requires |s| >= 2 && 0xC0 <= s[0] < 0xE0 && Tail(s[1])
    ensures Assemble(s, 2) == if s[0] < 0xC2 then -1 else Value2(s[0], s[1])
    ensures 0 <= Value2(s[0], s[1]) < 0x800
  {
    assert s[0] % 32 == s[0] - 0xC0 && s[1] % 64 == s[1] - 0x80;
  }

  lemma ThreeBytes(s: seq<byte>)
    requires |s| >= 3 && 0xE0 <= s[0] < 0xF0 && Tail(s[1]) && Tail(s[2])
    ensures var uc, v := Assemble(s, 3), Value3(s[0], s[1], s[2]);
            && (uc < 0 || uc % 0x10000 >= 0xFFFE <==> !InTable(s) || NoncharacterBytes(s))
            && (uc >= 0 ==> uc == v)
  {
    hide Join3;
    JoinIs3(s[0] - 0xE0, s[1] - 0x80, s[2] - 0x80);
  }

  lemma FourBytes(s: seq<byte>)
    requires |s| >= 4 && 0xF0 <= s[0] < 0xF8 && Tail(s[1]) && Tail(s[2]) && Tail(s[3])
    ensures var uc, v := Assemble(s, 4), Value4(s[0], s[1], s[2], s[3]);
            && (uc < 0 || uc % 0x10000 >= 0xFFFE <==> !InTable(s) || NoncharacterBytes(s))
            && (uc >= 0 ==> uc == v)
  {
    hide Join4;
    var w, x, y, z := s[0] - 0xF0, s[1] - 0x80, s[2] - 0x80, s[3] - 0x80;
    JoinIs4(w, x, y, z);
    LastOfPlane(w, x, y, z);
    assert s[1] % 16 == x % 16;
  }

  lemma LastOfPlane(w: int, x: int, y: int, z: int)
    requires 0 <= w < 8 && 0 <= x < 64 && 0 <= y < 64 && 0 <= z < 64
    ensures var v := w * 262144 + x * 4096 + y * 64 + z;
            && (v % 0x10000 >= 0xFFFE <==> x % 16 == 15 && y == 63 && z >= 62)
            && (v < 0x10000 <==> w == 0 && x < 16) && (v >= 0x110000 <==> w > 4 || (w == 4 && x >= 16))
  {
    var low, plane := x % 16 * 4096 + y * 64 + z, w * 4 + x / 16;
    var v := w * 262144 + x * 4096 + y * 64 + z;
    assert v == plane * 0x10000 + low && 0 <= low < 0x10000;
    assert v % 0x10000 == low;
  }

  // Surrogates in particular, and U+FDD0 to U+FDEF, are refused.
  lemma ExcludedRangesRefused(b: byte, c: byte, rest: seq<byte>)
    ensures 0xA0 <= b ==> Decode([0xED, b, c] + rest) == None
    ensures 0x90 <= c < 0xB0 ==> Decode([0xEF, 0xB7, c] + rest) == None
  {
    DecodesTheTable([0xED, b, c] + rest);
    DecodesTheTable([0xEF, 0xB7, c] + rest);
  }
}
