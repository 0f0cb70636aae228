/**
 sdssplitlen of src/deps/sds.c:352-399: splitting a string at every separator.
 */
module SplitLen {
  import opened Bytes

  type Str = seq<byte>

  predicate MatchAt(s: Str, sep: Str, j: int) { 0 <= j <= |s| - |sep| && s[j..j + |sep|] == sep }

  ghost predicate Contains(s: Str, sep: Str) { exists j :: MatchAt(s, sep, j) }

  function Join(tokens: seq<Str>, sep: Str): Str
    requires tokens != []
    decreases |tokens|
  {
    if |tokens| == 1 then tokens[0] else Join(tokens[..|tokens| - 1], sep) + sep + tokens[|tokens| - 1]
  }

  // A token is cut at the first separator: with the separator behind it, it has no earlier one.
  predicate FirstAtEnd(token: Str, sep: Str) {
    forall j :: 0 <= j < |token| ==> !MatchAt(token + sep, sep, j)
  }

  // The tokens of s: they join to s, each but the last stops at the first separator reached, and
  // the last contains none.
  ghost predicate IsSplit(s: Str, sep: Str, tokens: seq<Str>) {
    && tokens != [] && Join(tokens, sep) == s
    && (forall i :: 0 <= i < |tokens| - 1 ==> FirstAtEnd(tokens[i], sep))
    && !Contains(tokens[|tokens| - 1], sep)
  }

  // No token contains the separator.
  lemma TokensAreClean(s: Str, sep: Str, tokens: seq<Str>, i: nat)
    requires sep != [] && IsSplit(s, sep, tokens) && i < |tokens|
    ensures !Contains(tokens[i], sep)
  {
    if i < |tokens| - 1 {
      var token := tokens[i];
      forall j ensures !MatchAt(token, sep, j) {
        if MatchAt(token, sep, j) {
          assert (token + sep)[j..j + |sep|] == token[j..j + |sep|];
          assert MatchAt(token + sep, sep, j);
        }
      }
    }
  }

  // ---------- the tokens are determined ----------

  lemma {:induction false} JoinFirst(tokens: seq<Str>, sep: Str)
    requires |tokens| >= 2
    ensures Join(tokens, sep) == tokens[0] + sep + Join(tokens[1..], sep)
    decreases |tokens|
  {
    var init := tokens[..|tokens| - 1];
    if |tokens| > 2 {
      JoinFirst(init, sep);
      assert tokens[1..][..|tokens| - 2] == init[1..];
      var mid, last := Join(init[1..], sep), tokens[|tokens| - 1];
      assert tokens[0] + sep + mid + sep + last == tokens[0] + sep + (mid + sep + last);
    }
  }

  // Two splits of one string cut the same first token.
  lemma FirstTokensAgree(a: Str, ra: Str, b: Str, rb: Str, sep: Str)
    requires sep != [] && FirstAtEnd(a, sep) && FirstAtEnd(b, sep) && a + sep + ra == b + sep + rb
    ensures a == b && ra == rb
  {
    var s := a + sep + ra;
    if |a| < |b| {
      CutEarlier(a, ra, b, rb, sep);
    } else if |b| < |a| {
      CutEarlier(b, rb, a, ra, sep);
    } else {
      assert a == s[..|a|] == b;
      assert ra == s[|a| + |sep|..] == rb;
    }
  }

  lemma CutEarlier(a: Str, ra: Str, b: Str, rb: Str, sep: Str)
    requires a + sep + ra == b + sep + rb && |a| < |b|
    ensures !FirstAtEnd(b, sep)
  {
    var s := a + sep + ra;
    var bs := b + sep;
    assert bs == s[..|bs|];
    assert s[|a|..|a| + |sep|] == sep;
    assert bs[|a|..|a| + |sep|] == s[|a|..|a| + |sep|];
    assert MatchAt(bs, sep, |a|);
  }

  lemma {:induction false} SplitUnique(s: Str, sep: Str, ts: seq<Str>, us: seq<Str>)
    requires sep != [] && IsSplit(s, sep, ts) && IsSplit(s, sep, us)
    ensures ts == us
    decreases |ts|
  {
    if |ts| == 1 && |us| == 1 {
    } else if |ts| == 1 {
      LoneToken(s, sep, us);
    } else if |us| == 1 {
      LoneToken(s, sep, ts);
    } else {
      JoinFirst(ts, sep);
      JoinFirst(us, sep);
      FirstTokensAgree(ts[0], Join(ts[1..], sep), us[0], Join(us[1..], sep), sep);
      SplitUnique(Join(ts[1..], sep), sep, ts[1..], us[1..]);
    }
  }

  // A string with a cut in it contains the separator.
  lemma LoneToken(s: Str, sep: Str, ts: seq<Str>)
    requires IsSplit(s, sep, ts) && |ts| >= 2
    ensures Contains(s, sep)
  {
    JoinFirst(ts, sep);
    assert MatchAt(s, sep, |ts[0]|);
  }

  // ---------- the scan ----------

  // tokens cover s[..start]; no separator starts in start..j.
  ghost predicate SoFar(s: Str, sep: Str, tokens: seq<Str>, start: int, j: int) {
    && 0 <= start <= j && start <= |s|
    && (forall k :: start <= k < j ==> !MatchAt(s, sep, k))
    && (forall i :: 0 <= i < |tokens| ==> FirstAtEnd(tokens[i], sep))
    && (if tokens == [] then start == 0 else Join(tokens, sep) + sep == s[..start])
  }

  lemma MatchInside(s: Str, sep: Str, a: nat, b: nat, k: nat)
    requires a <= b <= |s|
    ensures MatchAt(s[a..b], sep, k) ==> MatchAt(s, sep, a + k)
  {
    if MatchAt(s[a..b], sep, k) {
      var part := s[a..b];
      assert forall i :: k <= i < k + |sep| ==> part[i] == s[a + i];
      assert s[a + k..a + k + |sep|] == part[k..k + |sep|];
    }
  }

  lemma CutHere(s: Str, sep: Str, tokens: seq<Str>, start: int, j: int)
    requires SoFar(s, sep, tokens, start, j) && MatchAt(s, sep, j)
    ensures SoFar(s, sep, tokens + [s[start..j]], j + |sep|, j + |sep|)
  {
    var token := s[start..j];
    assert token + sep == s[start..j + |sep|];
    forall k | 0 <= k < |token| ensures !MatchAt(token + sep, sep, k) {
      assert !MatchAt(s, sep, start + k);
      MatchInside(s, sep, start, j + |sep|, k);
    }
    var more := tokens + [token];
    assert more[..|tokens|] == tokens;
    assert s[..start] + token + sep == s[..j + |sep|];
  }

  lemma CutLast(s: Str, sep: Str, tokens: seq<Str>, start: int, j: int)
    requires SoFar(s, sep, tokens, start, j) && j >= |s| - |sep| + 1
    ensures IsSplit(s, sep, tokens + [s[start..]])
  {
    var token := s[start..];
    forall k ensures !MatchAt(token, sep, k) {
      if 0 <= k <= |token| - |sep| {
        assert !MatchAt(s, sep, start + k);
        assert token[k..k + |sep|] == s[start + k..start + k + |sep|];
      }
    }
    var more := tokens + [token];
    assert more[..|tokens|] == tokens;
    assert s[..start] + token == s;
  }

  // zrealloc: a bigger array with the same first elements.
  method Realloc(tokens: array<Str>, slots: nat) returns (newtokens: array<Str>)
    requires slots >= tokens.Length
    ensures fresh(newtokens) && newtokens.Length == slots && newtokens[..tokens.Length] == tokens[..]
  {
    newtokens := new Str[slots](_ => []);
    var i := 0;
    while i < tokens.Length
      invariant 0 <= i <= tokens.Length && newtokens[..i] == tokens[..i]
    {
      newtokens[i] := tokens[i];
      i := i + 1;
    }
  }

  // sdssplitlen; None is the NULL for an empty separator. Every write is inside the slots.
  method SplitLen(s: Str, sep: Str) returns (r: Option<seq<Str>>)
    ensures r == None <==> sep == []
    ensures sep != [] && s == [] ==> r == Some([])
    ensures sep != [] && s != [] ==> IsSplit(s, sep, r.value)
  {
    hide SoFar, IsSplit;
    var elements, slots, start := 0, 5, 0;
    if |sep| < 1 { return None; }
    var tokens := new Str[slots](_ => []);
    if |s| == 0 { return Some([]); }
    NothingYet(s, sep);
    assert tokens[..0] == [];
    var j := 0;
    while j < |s| - (|sep| - 1)
      invariant 0 <= start <= j && start <= |s| && slots == tokens.Length && slots >= elements + 1
      invariant fresh(tokens) && SoFar(s, sep, tokens[..elements], start, j)
      decreases |s| - j
    {
      ghost var cut := tokens[..elements];
      if slots < elements + 2 {
        slots := slots * 2;
        tokens := Realloc(tokens, slots);
      }
      assert tokens[..elements] == cut;
      if s[j..j + |sep|] == sep {
        CutHere(s, sep, cut, start, j);
        tokens[elements] := s[start..j];
        assert tokens[..elements + 1] == cut + [s[start..j]];
        elements := elements + 1;
        start := j + |sep|;
        j := j + |sep| - 1;
      } else {
        NoCut(s, sep, cut, start, j);
      }
      j := j + 1;
    }
    CutLast(s, sep, tokens[..elements], start, j);
    ghost var before := tokens[..elements];
    tokens[elements] := s[start..];
    assert tokens[..elements + 1] == before + [s[start..]];
    elements := elements + 1;
    return Some(tokens[..elements]);
  }

  lemma NothingYet(s: Str, sep: Str)
    ensures SoFar(s, sep, [], 0, 0)
  {}

  lemma NoCut(s: Str, sep: Str, tokens: seq<Str>, start: int, j: int)
    requires SoFar(s, sep, tokens, start, j) && 0 <= j <= |s| - |sep| && s[j..j + |sep|] != sep
    ensures SoFar(s, sep, tokens, start, j + 1)
  {}
}
