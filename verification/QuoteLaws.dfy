/**
 The notation of sdscatrepr and sdssplitargs (src/deps/sds.c:423-606), each side on its own: how a
 byte is printed, and how words, quotes and escapes are read.
 */
module QuoteLaws {
  import opened Bytes
  import opened QuotedArgs

  // The bytes printed as a backslash and a letter: bell, backspace, tab, newline, carriage return,
  // quote and backslash.
  const ESCAPES: map<byte, byte> :=
    map[7 := 0x61, 8 := 0x62, 9 := 0x74, 10 := 0x6E, 13 := 0x72, 0x22 := 0x22, 0x5C := 0x5C]

  // "0123456789abcdef"
  const LOWER_DIGITS: seq<byte> :=
    [0x30, 0x31, 0x32, 0x33, 0x34, 0x35, 0x36, 0x37, 0x38, 0x39, 0x61, 0x62, 0x63, 0x64, 0x65, 0x66]

  // The value of a hex digit of either case.
  const DIGIT_VALUES: map<byte, int> := map[
    0x30 := 0, 0x31 := 1, 0x32 := 2, 0x33 := 3, 0x34 := 4, 0x35 := 5, 0x36 := 6, 0x37 := 7, 0x38 := 8, 0x39 := 9,
    0x41 := 10, 0x42 := 11, 0x43 := 12, 0x44 := 13, 0x45 := 14, 0x46 := 15,
    0x61 := 10, 0x62 := 11, 0x63 := 12, 0x64 := 13, 0x65 := 14, 0x66 := 15
  ]

  // ---------- printing ----------

  function Form(c: byte): seq<byte> {
    if c in ESCAPES then [0x5C, ESCAPES[c]]
    else if c >= 0x20 then [c]
    else [0x5C, 0x78, LOWER_DIGITS[c / 16], LOWER_DIGITS[c % 16]]
  }

  function Forms(s: seq<byte>): seq<byte> {
    if s == [] then [] else Form(s[0]) + Forms(s[1..])
  }

  lemma FormIs(c: byte)
    ensures ReprByte(c) == Form(c)
  {}

  // What is printed: the forms of the bytes between quotes.
  lemma ReprIsForms(s: seq<byte>)
    ensures Repr(s) == [0x22] + Forms(s) + [0x22]
  {
    ReprBytesAreForms(s);
  }

  lemma {:induction false} ReprBytesAreForms(s: seq<byte>)
    ensures ReprBytes(s) == Forms(s)
  {
    if s != [] {
      hide ReprByte, Form;
      FormIs(s[0]);
      ReprBytesAreForms(s[1..]);
    }
  }

  // ---------- reading between double quotes ----------

  // One turn that takes n bytes and yields c.
  lemma TokenTakes(s: seq<byte>, mode: Mode, cur: seq<byte>, c: byte, n: nat)
    requires n <= |s| && TurnAt(s, mode) == Append(c, n, mode)
    ensures Token(s, mode, cur) == Token(s[n..], mode, cur + [c])
  {
    hide TurnAt;
  }

  // Backslash and letter are the byte of the table; any other byte behind a backslash is itself.
  lemma EscapeIsRead(letter: byte, rest: seq<byte>, cur: seq<byte>)
    requires letter != 0
    requires letter == 0x78 ==> !(|rest| >= 2 && rest[0] in DIGIT_VALUES && rest[1] in DIGIT_VALUES)
    ensures (forall c :: c in ESCAPES && ESCAPES[c] == letter ==>
              Token([0x5C, letter] + rest, InQuotes, cur) == Token(rest, InQuotes, cur + [c]))
    ensures letter !in ESCAPES.Values ==>
              Token([0x5C, letter] + rest, InQuotes, cur) == Token(rest, InQuotes, cur + [letter])
  {
    var s := [0x5C, letter] + rest;
    assert s[2..] == rest;
    EscapeTurn(letter, rest);
    hide Token, TurnAt;
    forall c | c in ESCAPES && ESCAPES[c] == letter ensures Token(s, InQuotes, cur) == Token(rest, InQuotes, cur + [c]) {
      TokenTakes(s, InQuotes, cur, c, 2);
    }
    if letter !in ESCAPES.Values { TokenTakes(s, InQuotes, cur, letter, 2); }
  }

  lemma EscapeTurn(letter: byte, rest: seq<byte>)
    requires letter != 0
    requires letter == 0x78 ==> !(|rest| >= 2 && rest[0] in DIGIT_VALUES && rest[1] in DIGIT_VALUES)
    ensures forall c :: c in ESCAPES && ESCAPES[c] == letter ==>
              TurnAt([0x5C, letter] + rest, InQuotes) == Append(c, 2, InQuotes)
    ensures letter !in ESCAPES.Values ==> TurnAt([0x5C, letter] + rest, InQuotes) == Append(letter, 2, InQuotes)
  {
    var s := [0x5C, letter] + rest;
    assert Peek(s, 0) == 0x5C && Peek(s, 1) == letter && Peek(s, 2) == Peek(rest, 0) && Peek(s, 3) == Peek(rest, 1);
    Digits(Peek(rest, 0));
    Digits(Peek(rest, 1));
    assert 7 in ESCAPES && 8 in ESCAPES && 9 in ESCAPES && 10 in ESCAPES && 13 in ESCAPES;
  }

  lemma Digits(d: byte)
    ensures d in DIGIT_VALUES <==> IsHexDigit(d)
    ensures d in DIGIT_VALUES ==> DIGIT_VALUES[d] == HexDigitToInt(d)
  {}

  // Backslash, x and two hex digits are the byte of the digits.
  lemma HexIsRead(high: byte, low: byte, rest: seq<byte>, cur: seq<byte>)
    requires high in DIGIT_VALUES && low in DIGIT_VALUES
    ensures 0 <= DIGIT_VALUES[high] * 16 + DIGIT_VALUES[low] < 256
    ensures Token([0x5C, 0x78, high, low] + rest, InQuotes, cur)
            == Token(rest, InQuotes, cur + [DIGIT_VALUES[high] * 16 + DIGIT_VALUES[low]])
  {
    var s := [0x5C, 0x78, high, low] + rest;
    assert Peek(s, 0) == 0x5C && Peek(s, 1) == 0x78 && Peek(s, 2) == high && Peek(s, 3) == low;
    Digits(high);
    Digits(low);
    assert s[4..] == rest;
    TokenTakes(s, InQuotes, cur, DIGIT_VALUES[high] * 16 + DIGIT_VALUES[low], 4);
  }

  // Every other byte is literal, in either kind of quotes.
  lemma LiteralIsRead(c: byte, rest: seq<byte>, cur: seq<byte>)
    requires c != 0
    ensures c != 0x22 && c != 0x5C ==> Token([c] + rest, InQuotes, cur) == Token(rest, InQuotes, cur + [c])
    ensures c != 0x27 && !(c == 0x5C && rest != [] && rest[0] == 0x27) ==>
              Token([c] + rest, InApostrophes, cur) == Token(rest, InApostrophes, cur + [c])
  {
    var s := [c] + rest;
    assert Peek(s, 0) == c && Peek(s, 1) == Peek(rest, 0);
    assert s[1..] == rest;
    hide Token;
    if c != 0x22 && c != 0x5C { TokenTakes(s, InQuotes, cur, c, 1); }
    if c != 0x27 && !(c == 0x5C && rest != [] && rest[0] == 0x27) { TokenTakes(s, InApostrophes, cur, c, 1); }
  }

  // Between apostrophes a backslash escapes an apostrophe only.
  lemma ApostropheIsRead(rest: seq<byte>, cur: seq<byte>)
    ensures Token([0x5C, 0x27] + rest, InApostrophes, cur) == Token(rest, InApostrophes, cur + [0x27])
  {
    var s := [0x5C, 0x27] + rest;
    assert s[2..] == rest;
    TokenTakes(s, InApostrophes, cur, 0x27, 2);
  }

  // A closing quote ends the token if a blank or the end follows; otherwise the line is refused.
  lemma QuoteCloses(rest: seq<byte>, cur: seq<byte>)
    requires 0 !in rest
    ensures var r := if rest == [] || rest[0] == 0x20 || 9 <= rest[0] <= 13 then Some((cur, rest)) else None;
            Token([0x22] + rest, InQuotes, cur) == r && Token([0x27] + rest, InApostrophes, cur) == r
  {
    assert ([0x22] + rest)[1..] == rest && ([0x27] + rest)[1..] == rest;
    assert rest != [] ==> rest[0] in rest;
  }

  // A quote opens wherever it stands in a word.
  lemma QuoteOpens(rest: seq<byte>, cur: seq<byte>)
    ensures Token([0x22] + rest, Plain, cur) == Token(rest, InQuotes, cur)
    ensures Token([0x27] + rest, Plain, cur) == Token(rest, InApostrophes, cur)
  {
    assert ([0x22] + rest)[1..] == rest && ([0x27] + rest)[1..] == rest;
  }

  // ---------- words ----------

  // The blanks that end a word: space, tab, newline, carriage return.
  predicate Ends(c: byte) { c in {0x20, 9, 10, 13} }

  predicate Word(w: seq<byte>) {
    w != [] && !IsSpace(w[0]) && forall i :: 0 <= i < |w| ==> !Ends(w[i]) && w[i] !in {0, 0x22, 0x27}
  }

  // Outside quotes bytes are literal, backslashes included, up to a blank that ends the word.
  lemma {:induction false} WordIsRead(w: seq<byte>, rest: seq<byte>, cur: seq<byte>)
    requires forall i :: 0 <= i < |w| ==> !Ends(w[i]) && w[i] !in {0, 0x22, 0x27}
    requires rest == [] || Ends(rest[0])
    ensures Token(w + rest, Plain, cur) == Some((cur + w, if rest == [] then [] else rest[1..]))
    decreases |w|
  {
    var s := w + rest;
    if w == [] {
      assert s == rest && cur + w == cur;
    } else {
      assert s[0] == w[0] && s[1..] == w[1..] + rest;
      WordIsRead(w[1..], rest, cur + [w[0]]);
      TokenTakes(s, Plain, cur, w[0], 1);
      assert cur + [w[0]] + w[1..] == cur + w;
    }
  }

  // The words, each behind its gap, and the last gap.
  function WordLayout(words: seq<seq<byte>>, gaps: seq<seq<byte>>): seq<byte>
    requires |gaps| == |words| + 1
  {
    if words == [] then gaps[0] else gaps[0] + (words[0] + WordLayout(words[1..], gaps[1..]))
  }

  // A gap behind a word begins with a blank that ends it; between words there is one.
  ghost predicate Gapped(words: seq<seq<byte>>, gaps: seq<seq<byte>>) {
    && |gaps| == |words| + 1
    && (forall i :: 0 <= i < |gaps| ==> Blank(gaps[i]))
    && (forall i :: 0 < i < |gaps| ==> if gaps[i] == [] then i == |words| else Ends(gaps[i][0]))
  }

  // Words without quotes are split at the blanks and nowhere else.
  lemma {:induction false} WordsAreSplit(words: seq<seq<byte>>, gaps: seq<seq<byte>>)
    requires Gapped(words, gaps) && forall i :: 0 <= i < |words| ==> Word(words[i])
    ensures Split(WordLayout(words, gaps)) == Some(words)
    decreases |words|, 0
  {
    hide Token, Blank;
    if words == [] {
      assert gaps[0] == gaps[0] + [];
      SkipBlanksOver(gaps[0], []);
    } else {
      var w, rest := words[0], WordLayout(words[1..], gaps[1..]);
      SkipBlanksOver(gaps[0], w + rest);
      RestEnds(words[1..], gaps[1..]);
      WordIsRead(w, rest, []);
      assert [] + w == w;
      assert (w + rest)[0] == w[0];
      Behind(words[1..], gaps[1..]);
      assert [w] + words[1..] == words;
    }
  }

  lemma RestEnds(words: seq<seq<byte>>, gaps: seq<seq<byte>>)
    requires |gaps| == |words| + 1 && (if gaps[0] == [] then words == [] else Ends(gaps[0][0]))
    ensures WordLayout(words, gaps) == [] || Ends(WordLayout(words, gaps)[0])
  {}

  // The blank that ended a word is gone; the rest splits all the same.
  lemma {:induction false} Behind(words: seq<seq<byte>>, gaps: seq<seq<byte>>)
    requires |gaps| == |words| + 1 && (if gaps[0] == [] then words == [] else Ends(gaps[0][0]))
    requires (forall i :: 0 <= i < |gaps| ==> Blank(gaps[i]))
    requires (forall i :: 0 < i < |gaps| ==> if gaps[i] == [] then i == |words| else Ends(gaps[i][0]))
    requires forall i :: 0 <= i < |words| ==> Word(words[i])
    ensures var rest := WordLayout(words, gaps); Split(if rest == [] then [] else rest[1..]) == Some(words)
    decreases |words|, 1
  {
    if gaps[0] == [] {
      NothingSplit();
    } else {
      var gaps' := [gaps[0][1..]] + gaps[1..];
      ShorterGap(words, gaps);
      WordsAreSplit(words, gaps');
    }
  }

  lemma NothingSplit()
    ensures Split([]) == Some([])
  {}

  lemma ShorterGap(words: seq<seq<byte>>, gaps: seq<seq<byte>>)
    requires |gaps| == |words| + 1 && gaps[0] != [] && Blank(gaps[0])
    ensures var gaps' := [gaps[0][1..]] + gaps[1..];
            && WordLayout(words, gaps') == WordLayout(words, gaps)[1..] && Blank(gaps'[0])
            && gaps'[1..] == gaps[1..]
  {
    var gaps' := [gaps[0][1..]] + gaps[1..];
    assert gaps'[1..] == gaps[1..];
    if words != [] {
      var rest := words[0] + WordLayout(words[1..], gaps[1..]);
      assert (gaps[0] + rest)[1..] == gaps[0][1..] + rest;
    }
  }
}
