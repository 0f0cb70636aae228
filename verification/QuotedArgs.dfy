/**
 sdscatrepr and sdssplitargs of src/deps/sds.c: printing byte strings in quotes, and splitting a
 line into quoted or plain arguments.
 */
module QuotedArgs {
  import opened Bytes

  const QUOTE: byte := 0x22
  const APOSTROPHE: byte := 0x27
  const BACKSLASH: byte := 0x5C
  const SPACE: byte := 0x20
  const LOWER_X: byte := 0x78

  // ---------- printing ----------

  function HexDigit(d: int): byte
    requires 0 <= d < 16
  {
    if d < 10 then 0x30 + d else 0x61 + (d - 10)
  }

  // What sdscatrepr prints for one byte.
  function ReprByte(c: byte): seq<byte> {
    if c == BACKSLASH || c == QUOTE then [BACKSLASH, c]
    else if c == 10 then [BACKSLASH, 0x6E]
    else if c == 13 then [BACKSLASH, 0x72]
    else if c == 9 then [BACKSLASH, 0x74]
    else if c == 7 then [BACKSLASH, 0x61]
    else if c == 8 then [BACKSLASH, 0x62]
    else if c >= 0x20 then [c]
    else [BACKSLASH, LOWER_X, HexDigit(c / 16), HexDigit(c % 16)]
  }

  function ReprBytes(s: seq<byte>): seq<byte> {
    if s == [] then [] else ReprByte(s[0]) + ReprBytes(s[1..])
  }

  function Repr(s: seq<byte>): seq<byte> { [QUOTE] + ReprBytes(s) + [QUOTE] }

  lemma {:induction false} ReprBytesAppend(a: seq<byte>, b: seq<byte>)
    ensures ReprBytes(a + b) == ReprBytes(a) + ReprBytes(b)
  {
    if a == [] {
      assert a + b == b;
    } else {
      assert (a + b)[1..] == a[1..] + b;
      ReprBytesAppend(a[1..], b);
    }
  }

  lemma NothingPrinted()
    ensures ReprBytes([]) == []
  {}

  lemma ReprBytesTake(p: seq<byte>, i: nat)
    requires i < |p|
    ensures ReprBytes(p[..i + 1]) == ReprBytes(p[..i]) + ReprByte(p[i])
  {
    hide ReprByte;
    assert p[..i + 1] == p[..i] + [p[i]];
    ReprBytesAppend(p[..i], [p[i]]);
    assert ReprBytes([p[i]]) == ReprByte(p[i]) + ReprBytes([]) == ReprByte(p[i]);
  }

  // Nothing printed holds a NUL: printed strings are C strings, whatever was printed.
  lemma {:induction false} PrintedWithoutNul(s: seq<byte>)
    ensures NUL !in ReprBytes(s) && NUL !in Repr(s)
  {
    if s != [] {
      PrintedWithoutNul(s[1..]);
      assert NUL !in ReprByte(s[0]);
    }
  }

  // sdscatrepr: the string quoted and escaped, behind s0.
  method CatRepr(s0: seq<byte>, p: seq<byte>) returns (s: seq<byte>)
    ensures s == s0 + Repr(p)
  {
    hide ReprBytes, ReprByte;
    s := s0 + [QUOTE];
    NothingPrinted();
    var i := 0;
    while i < |p|
      invariant 0 <= i <= |p| && s == s0 + [QUOTE] + ReprBytes(p[..i])
    {
      ReprBytesTake(p, i);
      s := s + ReprByte(p[i]);
      i := i + 1;
    }
    assert p[..|p|] == p;
    s := s + [QUOTE];
  }

  // ---------- parsing ----------

  // The byte k places ahead in a NUL-terminated string.
  function Peek(s: seq<byte>, k: nat): byte { if k < |s| then s[k] else NUL }

  predicate IsSpace(c: byte) { c == SPACE || 9 <= c <= 13 }

  predicate IsHexDigit(c: byte) { 0x30 <= c <= 0x39 || 0x61 <= c <= 0x66 || 0x41 <= c <= 0x46 }

  function HexDigitToInt(c: byte): (d: int)
    ensures 0 <= d < 16
  {
    if 0x30 <= c <= 0x39 then c - 0x30
    else if 0x61 <= c <= 0x66 then c - 0x61 + 10
    else if 0x41 <= c <= 0x46 then c - 0x41 + 10
    else 0
  }

  function Unescaped(c: byte): byte {
    if c == 0x6E then 10 else if c == 0x72 then 13 else if c == 0x74 then 9 else if c == 0x62 then 8
    else if c == 0x61 then 7 else c
  }

  datatype Mode = Plain | InQuotes | InApostrophes

  // One turn of the inner loop: the bytes it appends, how far it moves, the mode after it.
  datatype Turn = Append(c: byte, step: nat, mode: Mode) | Switch(mode: Mode) | Finish(step: nat) | Fail

  function TurnAt(s: seq<byte>, mode: Mode): Turn {
    var c := Peek(s, 0);
    match mode
    case InQuotes =>
      if c == BACKSLASH && Peek(s, 1) == LOWER_X && IsHexDigit(Peek(s, 2)) && IsHexDigit(Peek(s, 3))
      then Append(HexDigitToInt(Peek(s, 2)) * 16 + HexDigitToInt(Peek(s, 3)), 4, mode)
      else if c == BACKSLASH && Peek(s, 1) != NUL then Append(Unescaped(Peek(s, 1)), 2, mode)
      else if c == QUOTE then (if Peek(s, 1) != NUL && !IsSpace(Peek(s, 1)) then Fail else Finish(1))
      else if c == NUL then Fail
      else Append(c, 1, mode)
    case InApostrophes =>
      if c == BACKSLASH && Peek(s, 1) == APOSTROPHE then Append(APOSTROPHE, 2, mode)
      else if c == APOSTROPHE then (if Peek(s, 1) != NUL && !IsSpace(Peek(s, 1)) then Fail else Finish(1))
      else if c == NUL then Fail
      else Append(c, 1, mode)
    case Plain =>
      if c == NUL then Finish(0)
      else if c in {SPACE, 10, 13, 9} then Finish(1)
      else if c == QUOTE then Switch(InQuotes)
      else if c == APOSTROPHE then Switch(InApostrophes)
      else Append(c, 1, mode)
  }

  lemma TurnMoves(s: seq<byte>, mode: Mode)
    ensures match TurnAt(s, mode)
            case Append(_, step, _) => 1 <= step <= |s|
            case Switch(_) => 1 <= |s|
            case Finish(step) => step <= |s| && (s != [] && Peek(s, 0) != NUL ==> step == 1)
            case Fail => true
  {}

  // The rest of a token that has collected cur: the token and what follows it.
  function Token(s: seq<byte>, mode: Mode, cur: seq<byte>): (r: Option<(seq<byte>, seq<byte>)>)
    ensures r.Some? ==> |r.value.1| <= |s|
    decreases |s|
  {
    TurnMoves(s, mode);
    match TurnAt(s, mode)
    case Append(c, step, m) => Token(s[step..], m, cur + [c])
    case Switch(m) => Token(s[1..], m, cur)
    case Finish(step) => Some((cur, s[step..]))
    case Fail => None
  }

  function SkipBlanks(s: seq<byte>): (r: seq<byte>)
    ensures |r| <= |s|
    ensures r != [] ==> !IsSpace(r[0])
  {
    if s != [] && IsSpace(s[0]) then SkipBlanks(s[1..]) else s
  }

  // A token that starts at a byte other than a blank or the end takes at least that byte.
  lemma TokenMoves(s: seq<byte>)
    requires s != [] && s[0] != NUL
    ensures Token(s, Plain, []).Some? ==> |Token(s, Plain, []).value.1| < |s|
  {}

  // sdssplitargs, as a function of the line.
  function Split(s: seq<byte>): Option<seq<seq<byte>>>
    decreases |s|
  {
    var t := SkipBlanks(s);
    if Peek(t, 0) == NUL then Some([]) else
      TokenMoves(t);
      match Token(t, Plain, [])
      case None => None
      case Some((tok, rest)) =>
        match Split(rest)
        case None => None
        case Some(toks) => Some([tok] + toks)
  }

  // sdssplitargs; None is the NULL returned for unbalanced or badly closed quotes.
  method SplitArgs(line: seq<byte>) returns (vector: Option<seq<seq<byte>>>)
    requires NUL !in line
    ensures vector == Split(line)
  {
    hide Split, Token, TurnAt, SkipBlanks, Before;
    var tokens: seq<seq<byte>> := [];
    var p := 0;
    assert line[0..] == line;
    BeforeNothing(Split(line));
    while true
      invariant 0 <= p <= |line| && Split(line) == Before(tokens, Split(line[p..]))
      decreases |line| - p
    {
      ghost var p0 := p;
      while p < |line| && IsSpace(line[p])
        invariant p0 <= p <= |line| && SkipBlanks(line[p0..]) == SkipBlanks(line[p..])
      {
        SkipOne(line, p);
        p := p + 1;
      }
      SplitFirst(line, p0, p);
      if p == |line| {
        BeforeNone(tokens);
        return Some(tokens);
      }
      var ok, current, p1 := ScanToken(line, p);
      if !ok {
        BeforeNone(tokens);
        return None;
      }
      BeforeOne(tokens, current, Split(line[p1..]));
      tokens := tokens + [current];
      p := p1;
    }
  }

  // Tokens already found, and what the rest of the line gives.
  function Before(tokens: seq<seq<byte>>, rest: Option<seq<seq<byte>>>): Option<seq<seq<byte>>> {
    match rest
    case None => None
    case Some(toks) => Some(tokens + toks)
  }

  lemma BeforeNothing(rest: Option<seq<seq<byte>>>)
    ensures Before([], rest) == rest
  {
    if rest.Some? { assert [] + rest.value == rest.value; }
  }

  lemma BeforeNone(tokens: seq<seq<byte>>)
    ensures Before(tokens, None) == None && Before(tokens, Some([])) == Some(tokens)
  {
    assert tokens + [] == tokens;
  }

  lemma BeforeOne(tokens: seq<seq<byte>>, token: seq<byte>, rest: Option<seq<seq<byte>>>)
    ensures Before(tokens, Before([token], rest)) == Before(tokens + [token], rest)
  {
    if rest.Some? { assert tokens + ([token] + rest.value) == tokens + [token] + rest.value; }
  }

  lemma SkipOne(line: seq<byte>, p: nat)
    requires p < |line| && IsSpace(line[p])
    ensures SkipBlanks(line[p..]) == SkipBlanks(line[p + 1..])
  {
    assert line[p..][1..] == line[p + 1..];
  }

  // Behind the blanks: nothing, or one token and the rest.
  lemma SplitFirst(line: seq<byte>, p0: nat, p: nat)
    requires NUL !in line && p0 <= p <= |line| && (p < |line| ==> !IsSpace(line[p]))
    requires SkipBlanks(line[p0..]) == SkipBlanks(line[p..])
    ensures p == |line| ==> Split(line[p0..]) == Some([])
    ensures p < |line| ==>
              match Token(line[p..], Plain, [])
              case None => Split(line[p0..]) == None
              case Some((tok, rest)) => |rest| < |line| - p && Split(line[p0..]) == Before([tok], Split(rest))
  {
    hide Token, TurnAt;
    var t := line[p..];
    assert SkipBlanks(t) == t;
    if p < |line| {
      assert t[0] == line[p] && line[p] in line;
      TokenMoves(t);
    }
  }

  function ModeOf(inq: bool, insq: bool): Mode { if inq then InQuotes else if insq then InApostrophes else Plain }

  // What the inner loop has after one turn that did not fail.
  datatype Scan = Scan(done: bool, mode: Mode, current: seq<byte>, p: nat)

  // The outcome of one turn at line[p..]; None stands for the error exit.
  function After(line: seq<byte>, p: nat, mode: Mode, cur: seq<byte>): Option<Scan>
    requires p <= |line|
  {
    match TurnAt(line[p..], mode)
    case Append(c, step, m) => Some(Scan(false, m, cur + [c], p + step))
    case Switch(m) => Some(Scan(false, m, cur, p + 1))
    case Finish(step) => Some(Scan(true, mode, cur, p + step))
    case Fail => None
  }

  lemma TokenTurn(line: seq<byte>, p: nat, mode: Mode, cur: seq<byte>)
    requires NUL !in line && p <= |line|
    ensures match After(line, p, mode, cur)
            case None => Token(line[p..], mode, cur) == None
            case Some(next) =>
              && p <= next.p <= |line| && (next.p == p ==> next.done)
              && Token(line[p..], mode, cur)
                 == if next.done then Some((next.current, line[next.p..])) else Token(line[next.p..], next.mode, next.current)
  {
    hide TurnAt;
    TurnMoves(line[p..], mode);
    Ahead(line, p);
  }

  // One turn between double quotes.
  method TurnQuoted(line: seq<byte>, p0: nat, cur: seq<byte>) returns (next: Option<Scan>)
    requires NUL !in line && p0 <= |line|
    ensures next == After(line, p0, InQuotes, cur)
  {
    Ahead(line, p0);
    var p, current, done := p0, cur, false;
    var c := Peek(line, p);
    if c == BACKSLASH && Peek(line, p + 1) == LOWER_X && IsHexDigit(Peek(line, p + 2)) && IsHexDigit(Peek(line, p + 3)) {
      var b: byte := HexDigitToInt(Peek(line, p + 2)) * 16 + HexDigitToInt(Peek(line, p + 3));
      current := current + [b];
      p := p + 3;
    } else if c == BACKSLASH && Peek(line, p + 1) != NUL {
      p := p + 1;
      current := current + [Unescaped(line[p])];
    } else if c == QUOTE {
      if Peek(line, p + 1) != NUL && !IsSpace(Peek(line, p + 1)) { return None; }
      done := true;
    } else if c == NUL {
      return None;
    } else {
      current := current + [c];
    }
    return Some(Scan(done, InQuotes, current, if Peek(line, p) != NUL then p + 1 else p));
  }

  // One turn between single quotes.
  method TurnApostrophes(line: seq<byte>, p0: nat, cur: seq<byte>) returns (next: Option<Scan>)
    requires NUL !in line && p0 <= |line|
    ensures next == After(line, p0, InApostrophes, cur)
  {
    Ahead(line, p0);
    var p, current, done := p0, cur, false;
    var c := Peek(line, p);
    if c == BACKSLASH && Peek(line, p + 1) == APOSTROPHE {
      p := p + 1;
      current := current + [APOSTROPHE];
    } else if c == APOSTROPHE {
      if Peek(line, p + 1) != NUL && !IsSpace(Peek(line, p + 1)) { return None; }
      done := true;
    } else if c == NUL {
      return None;
    } else {
      current := current + [c];
    }
    return Some(Scan(done, InApostrophes, current, if Peek(line, p) != NUL then p + 1 else p));
  }

  // One turn outside quotes.
  method TurnPlain(line: seq<byte>, p0: nat, cur: seq<byte>) returns (next: Option<Scan>)
    requires NUL !in line && p0 <= |line|
    ensures next == After(line, p0, Plain, cur)
  {
    Ahead(line, p0);
    var mode, current, done := Plain, cur, false;
    var c := Peek(line, p0);
    if c in {SPACE, 10, 13, 9, NUL} {
      done := true;
    } else if c == QUOTE {
      mode := InQuotes;
    } else if c == APOSTROPHE {
      mode := InApostrophes;
    } else {
      current := current + [c];
    }
    return Some(Scan(done, mode, current, if Peek(line, p0) != NUL then p0 + 1 else p0));
  }

  // The inner loop, from the first byte of a token.
  method ScanToken(line: seq<byte>, p0: nat) returns (ok: bool, current: seq<byte>, p: nat)
    requires NUL !in line && p0 < |line|
    ensures match Token(line[p0..], Plain, [])
            case None => !ok
            case Some((tok, rest)) => ok && current == tok && p <= |line| && rest == line[p..]
  {
    hide Token, TurnAt, After;
    p, current, ok := p0, [], true;
    var inq, insq, done := false, false, false;
    while !done
      invariant p0 <= p <= |line|
      invariant Token(line[p0..], Plain, [])
                == if done then Some((current, line[p..])) else Token(line[p..], ModeOf(inq, insq), current)
      decreases !done, |line| - p
    {
      TokenTurn(line, p, ModeOf(inq, insq), current);
      var next;
      if inq {
        next := TurnQuoted(line, p, current);
      } else if insq {
        next := TurnApostrophes(line, p, current);
      } else {
        next := TurnPlain(line, p, current);
      }
      if next.None? { return false, current, p; }
      inq, insq, done := next.value.mode == InQuotes, next.value.mode == InApostrophes, next.value.done;
      current, p := next.value.current, next.value.p;
    }
  }

  lemma Ahead(line: seq<byte>, p: nat)
    requires p <= |line| && NUL !in line
    ensures forall k: nat :: Peek(line[p..], k) == Peek(line, p + k)
    ensures forall k: nat :: p + k <= |line| ==> line[p..][k..] == line[p + k..]
    ensures forall k: nat :: Peek(line, k) == NUL <==> k >= |line|
  {}

  // ---------- printing and parsing ----------

  lemma TurnReprByte(c: byte, more: seq<byte>)
    ensures TurnAt(ReprByte(c) + more, InQuotes) == Append(c, |ReprByte(c)|, InQuotes)
  {}

  lemma TokenQuoteEnds(rest: seq<byte>, cur: seq<byte>)
    requires rest == [] || IsSpace(rest[0])
    ensures Token([QUOTE] + rest, InQuotes, cur) == Some((cur, rest))
  {}

  lemma TokenReprByte(c: byte, more: seq<byte>, cur: seq<byte>)
    ensures Token(ReprByte(c) + more, InQuotes, cur) == Token(more, InQuotes, cur + [c])
  {
    hide TurnAt, ReprByte, IsSpace;
    TurnReprByte(c, more);
    assert (ReprByte(c) + more)[|ReprByte(c)|..] == more;
  }

  lemma Regroup3(a: seq<byte>, b: seq<byte>, c: seq<byte>, d: seq<byte>)
    ensures (a + b) + c + d == a + (b + c + d)
  {}

  lemma ReprBytesFirst(u: seq<byte>)
    ensures ReprBytes(u) == if u == [] then [] else ReprByte(u[0]) + ReprBytes(u[1..])
  {}

  lemma {:induction false} TokenReprBytes(u: seq<byte>, rest: seq<byte>, cur: seq<byte>)
    requires rest == [] || IsSpace(rest[0])
    ensures Token(ReprBytes(u) + [QUOTE] + rest, InQuotes, cur) == Some((cur + u, rest))
    decreases |u|
  {
    hide *;
    ReprBytesFirst(u);
    if u == [] {
      TokenQuoteEnds(rest, cur);
      assert [] + [QUOTE] + rest == [QUOTE] + rest && cur + u == cur;
    } else {
      var c, s := u[0], ReprBytes(u[1..]);
      Regroup3(ReprByte(c), s, [QUOTE], rest);
      TokenReprByte(c, s + [QUOTE] + rest, cur);
      TokenReprBytes(u[1..], rest, cur + [c]);
      assert cur + [c] + u[1..] == cur + u;
    }
  }

  lemma TurnQuote(s: seq<byte>)
    requires s != [] && s[0] == QUOTE
    ensures TurnAt(s, Plain) == Switch(InQuotes)
  {}

  // A printed string is one token, whatever blank or end follows it.
  lemma TokenRepr(u: seq<byte>, rest: seq<byte>)
    requires rest == [] || IsSpace(rest[0])
    ensures Token(Repr(u) + rest, Plain, []) == Some((u, rest))
  {
    hide TurnAt, ReprBytes, IsSpace;
    var s := Repr(u) + rest;
    assert s[1..] == ReprBytes(u) + [QUOTE] + rest;
    TurnQuote(s);
    TokenReprBytes(u, rest, []);
    assert [] + u == u;
  }

  predicate Blank(s: seq<byte>) { forall i :: 0 <= i < |s| ==> IsSpace(s[i]) }

  lemma {:induction false} SkipBlanksOver(gap: seq<byte>, s: seq<byte>)
    requires Blank(gap) && (s == [] || !IsSpace(s[0]))
    ensures SkipBlanks(gap + s) == s
  {
    if gap == [] {
      assert gap + s == s;
    } else {
      assert (gap + s)[1..] == gap[1..] + s;
      SkipBlanksOver(gap[1..], s);
    }
  }

  // The printed strings of args, each behind its gap, and the last gap.
  function Layout(args: seq<seq<byte>>, gaps: seq<seq<byte>>): seq<byte>
    requires |gaps| == |args| + 1
  {
    if args == [] then gaps[0] else gaps[0] + (Repr(args[0]) + Layout(args[1..], gaps[1..]))
  }

  // Printing any byte strings and splitting the line gives them back, whatever blanks stand
  // before, between and behind them.
  lemma {:induction false} SplitInvertsRepr(args: seq<seq<byte>>, gaps: seq<seq<byte>>)
    requires |gaps| == |args| + 1
    requires forall i :: 0 <= i < |gaps| ==> Blank(gaps[i])
    requires forall i :: 0 < i < |args| ==> gaps[i] != []
    ensures Split(Layout(args, gaps)) == Some(args)
    decreases |args|
  {
    var s := Layout(args, gaps);
    if args == [] {
      assert s == gaps[0] + [];
      SkipBlanksOver(gaps[0], []);
    } else {
      var rest := Layout(args[1..], gaps[1..]);
      SkipBlanksOver(gaps[0], Repr(args[0]) + rest);
      RestIsBlank(args[1..], gaps[1..]);
      TokenRepr(args[0], rest);
      SplitInvertsRepr(args[1..], gaps[1..]);
      assert [args[0]] + args[1..] == args;
    }
  }

  lemma RestIsBlank(args: seq<seq<byte>>, gaps: seq<seq<byte>>)
    requires |gaps| == |args| + 1 && Blank(gaps[0]) && (args != [] ==> gaps[0] != [])
    ensures Layout(args, gaps) == [] || IsSpace(Layout(args, gaps)[0])
  {}

  // The same for strings joined by single spaces.
  function Joined(args: seq<seq<byte>>): seq<byte> {
    if args == [] then [] else if |args| == 1 then Repr(args[0]) else Repr(args[0]) + [SPACE] + Joined(args[1..])
  }

  function SpacesBetween(n: nat): (r: seq<seq<byte>>)
    ensures |r| == n + 1 && r[n] == [] && forall i :: 0 <= i < n ==> r[i] == [SPACE]
  {
    if n == 0 then [[]] else [[SPACE]] + SpacesBetween(n - 1)
  }

  lemma JoinedFirst(args: seq<seq<byte>>)
    requires args != []
    ensures Joined(args) == if |args| == 1 then Repr(args[0]) else Repr(args[0]) + [SPACE] + Joined(args[1..])
  {}

  lemma SpacesAgain(n: nat)
    requires n > 0
    ensures SpacesBetween(n)[0] == [SPACE] && SpacesBetween(n)[1..] == SpacesBetween(n - 1)
  {}

  lemma Regroup(a: seq<byte>, b: seq<byte>, c: seq<byte>)
    ensures a + (b + c) == a + b + c
  {}

  lemma {:induction false} JoinedLayout(args: seq<seq<byte>>)
    requires args != []
    ensures [SPACE] + Joined(args) == Layout(args, SpacesBetween(|args|))
    decreases |args|
  {
    hide *;
    var gaps := SpacesBetween(|args|);
    SpacesAgain(|args|);
    JoinedFirst(args);
    LayoutFirst(args, gaps);
    if |args| == 1 {
      LayoutLast(args[1..], gaps[1..]);
    } else {
      JoinedLayout(args[1..]);
      Regroup(Repr(args[0]), [SPACE], Joined(args[1..]));
    }
  }

  lemma LayoutLast(args: seq<seq<byte>>, gaps: seq<seq<byte>>)
    requires args == [] && gaps == [[]]
    ensures Layout(args, gaps) == [] && forall s: seq<byte> :: s + Layout(args, gaps) == s
  {}

  lemma JoinedIsLayout(args: seq<seq<byte>>)
    requires args != []
    ensures Joined(args) == Layout(args, [[]] + SpacesBetween(|args|)[1..])
  {
    var gaps := SpacesBetween(|args|);
    var tight := [[]] + gaps[1..];
    JoinedLayout(args);
    hide Layout, Joined, Repr;
    LayoutFirst(args, gaps);
    LayoutFirst(args, tight);
    assert tight[1..] == gaps[1..];
    assert Layout(args, tight) == Repr(args[0]) + Layout(args[1..], gaps[1..]);
    assert [SPACE] + Layout(args, tight) == [SPACE] + Joined(args);
    assert ([SPACE] + Layout(args, tight))[1..] == ([SPACE] + Joined(args))[1..];
  }

  lemma LayoutFirst(args: seq<seq<byte>>, gaps: seq<seq<byte>>)
    requires |gaps| == |args| + 1 && args != []
    ensures Layout(args, gaps) == gaps[0] + (Repr(args[0]) + Layout(args[1..], gaps[1..]))
  {}

  lemma TightGaps(n: nat)
    requires n > 0
    ensures var gaps := [[]] + SpacesBetween(n)[1..];
            && |gaps| == n + 1 && (forall i :: 0 <= i < |gaps| ==> Blank(gaps[i])) && (forall i :: 0 < i < n ==> gaps[i] != [])
  {}

  lemma SplitNothing()
    ensures Split(Joined([])) == Some([])
  {}

  lemma SplitInvertsJoined(args: seq<seq<byte>>)
    ensures Split(Joined(args)) == Some(args)
  {
    hide *;
    if args == [] {
      SplitNothing();
    } else {
      JoinedIsLayout(args);
      TightGaps(|args|);
      SplitInvertsRepr(args, [[]] + SpacesBetween(|args|)[1..]);
    }
  }

  // A line of printed strings is one that sdssplitargs reads to its end.
  lemma {:induction false} LayoutWithoutNul(args: seq<seq<byte>>, gaps: seq<seq<byte>>)
    requires |gaps| == |args| + 1 && forall i :: 0 <= i < |gaps| ==> Blank(gaps[i])
    ensures NUL !in Layout(args, gaps)
    decreases |args|
  {
    assert Blank(gaps[0]);
    if args != [] {
      PrintedWithoutNul(args[0]);
      LayoutWithoutNul(args[1..], gaps[1..]);
    }
  }

  // ---------- which lines are refused ----------

  // Behind an opening quote: the position of its closing one, |s| for none. In double quotes a
  // backslash takes the next byte with it, in single quotes only an apostrophe.
  function ClosingQuote(s: seq<byte>, quote: byte): (e: nat)
    ensures e <= |s|
  {
    if s == [] || s[0] == quote then 0
    else if s[0] == BACKSLASH && |s| >= 2 && (quote == QUOTE || s[1] == quote) then 2 + ClosingQuote(s[2..], quote)
    else 1 + ClosingQuote(s[1..], quote)
  }

  // Every quote is closed, and what follows the closing one is a blank or the end.
  predicate WellQuoted(s: seq<byte>)
    decreases |s|
  {
    if s == [] then true
    else if s[0] == QUOTE || s[0] == APOSTROPHE then Closes(s[1..], s[0])
    else WellQuoted(s[1..])
  }

  // The same for what stands behind an opening quote.
  predicate Closes(s: seq<byte>, quote: byte)
    decreases |s|
  {
    var e := ClosingQuote(s, quote);
    e < |s| && (e + 1 == |s| || IsSpace(s[e + 1])) && WellQuoted(s[e + 1..])
  }

  predicate WellQuotedIn(s: seq<byte>, mode: Mode) {
    match mode
    case Plain => WellQuoted(s)
    case InQuotes => Closes(s, QUOTE)
    case InApostrophes => Closes(s, APOSTROPHE)
  }

  // Bytes before the closing quote do not matter.
  lemma ClosesLater(s: seq<byte>, quote: byte, n: nat)
    requires n <= |s| && ClosingQuote(s, quote) == n + ClosingQuote(s[n..], quote)
    ensures Closes(s, quote) <==> Closes(s[n..], quote)
  {
    var e := ClosingQuote(s[n..], quote);
    if e < |s[n..]| { assert s[n..][e + 1..] == s[n + e + 1..]; }
  }

  // A turn keeps well-quotedness.
  predicate TurnFits(s: seq<byte>, mode: Mode, turn: Turn) {
    match turn
    case Append(_, step, m) => 1 <= step <= |s| && m == mode && (WellQuotedIn(s, mode) <==> WellQuotedIn(s[step..], mode))
    case Switch(m) => s != [] && (WellQuotedIn(s, mode) <==> WellQuotedIn(s[1..], m))
    case Finish(step) => step <= |s| && (WellQuotedIn(s, mode) <==> WellQuoted(s[step..]))
    case Fail => !WellQuotedIn(s, mode)
  }

  lemma TurnQuotes(s: seq<byte>, mode: Mode)
    requires NUL !in s
    ensures TurnFits(s, mode, TurnAt(s, mode))
  {
    match mode
    case Plain => PeekNul(s);
    case InQuotes => TurnInQuotes(s);
    case InApostrophes => TurnInApostrophes(s);
  }

  lemma TurnInQuotes(s: seq<byte>)
    requires NUL !in s
    ensures TurnFits(s, InQuotes, TurnAt(s, InQuotes))
  {
    hide WellQuoted, Unescaped, HexDigitToInt;
    PeekNul(s);
    if s != [] {
      if s[0] == BACKSLASH && |s| >= 2 {
        ClosesLater(s, QUOTE, 2);
        if s[1] == LOWER_X && IsHexDigit(Peek(s, 2)) && IsHexDigit(Peek(s, 3)) {
          HexSkipped(s);
          ClosesLater(s, QUOTE, 4);
        }
      } else if s[0] != QUOTE {
        ClosesLater(s, QUOTE, 1);
      }
    }
  }

  lemma PeekNul(s: seq<byte>)
    requires NUL !in s
    ensures forall k: nat :: Peek(s, k) == NUL <==> k >= |s|
  {}

  lemma HexSkipped(s: seq<byte>)
    requires |s| >= 4 && s[0] == BACKSLASH && IsHexDigit(s[2]) && IsHexDigit(s[3])
    ensures ClosingQuote(s, QUOTE) == 4 + ClosingQuote(s[4..], QUOTE)
  {
    assert s[2..][0] == s[2] && s[2..][1..] == s[3..];
    assert s[3..][0] == s[3] && s[3..][1..] == s[4..];
    assert ClosingQuote(s[2..], QUOTE) == 1 + ClosingQuote(s[3..], QUOTE);
  }

  lemma TurnInApostrophes(s: seq<byte>)
    requires NUL !in s
    ensures TurnFits(s, InApostrophes, TurnAt(s, InApostrophes))
  {
    hide WellQuoted;
    PeekNul(s);
    if s != [] {
      if s[0] == BACKSLASH && |s| >= 2 && s[1] == APOSTROPHE {
        ClosesLater(s, APOSTROPHE, 2);
      } else if s[0] != APOSTROPHE {
        ClosesLater(s, APOSTROPHE, 1);
      }
    }
  }

  lemma {:induction false} TokenQuotes(s: seq<byte>, mode: Mode, cur: seq<byte>)
    requires NUL !in s
    ensures match Token(s, mode, cur)
            case None => !WellQuotedIn(s, mode)
            case Some((_, rest)) => NUL !in rest && (WellQuotedIn(s, mode) <==> WellQuoted(rest))
    decreases |s|
  {
    hide TurnAt, WellQuotedIn, WellQuoted;
    TurnMoves(s, mode);
    TurnQuotes(s, mode);
    match TurnAt(s, mode)
    case Append(c, step, m) => TokenQuotes(s[step..], m, cur + [c]);
    case Switch(m) => TokenQuotes(s[1..], m, cur);
    case _ =>
  }

  lemma {:induction false} BlanksQuoteNothing(s: seq<byte>)
    ensures WellQuoted(s) <==> WellQuoted(SkipBlanks(s))
    ensures NUL !in s ==> NUL !in SkipBlanks(s)
    decreases |s|
  {
    if s != [] && IsSpace(s[0]) { BlanksQuoteNothing(s[1..]); }
  }

  // sdssplitargs returns NULL for exactly the lines in which some quote is not closed, or closed
  // with something else than a blank or the end behind it.
  lemma {:induction false} SplitSucceeds(line: seq<byte>)
    requires NUL !in line
    ensures Split(line).Some? <==> WellQuoted(line)
    decreases |line|
  {
    hide Token, WellQuoted, SkipBlanks;
    BlanksQuoteNothing(line);
    var t := SkipBlanks(line);
    if t == [] {
      NothingQuoted();
    } else {
      assert t[0] in t;
      TokenMoves(t);
      TokenQuotes(t, Plain, []);
      if Token(t, Plain, []).Some? { SplitSucceeds(Token(t, Plain, []).value.1); }
    }
  }

  lemma NothingQuoted()
    ensures WellQuoted([])
  {}
}
