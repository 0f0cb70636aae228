/**
 GetRelativePath of src/idb_helpers.c:730-783, the path given to the symbolic link of a key alias.
 */
module RelativePath {
  import opened Bytes

  type Str = seq<byte>

  const DOTDOT: Str := [DOT, DOT]

  // ---------- paths as segments ----------

  function Segs(s: Str): (r: seq<Str>)
    ensures r != []
  {
    if s == [] then [[]]
    else var r := Segs(s[1..]);
      if s[0] == SLASH then [[]] + r else [[s[0]] + r[0]] + r[1..]
  }

  function JoinSegs(segs: seq<Str>): Str {
    if segs == [] then [] else if |segs| == 1 then segs[0] else segs[0] + [SLASH] + JoinSegs(segs[1..])
  }

  lemma {:induction false} SegsAtSlash(a: Str, rest: Str)
    requires SLASH !in a
    ensures Segs(a) == [a]
    ensures Segs(a + [SLASH] + rest) == [a] + Segs(rest)
  {
    var s := a + [SLASH] + rest;
    if a == [] {
      assert s[1..] == rest;
    } else {
      SegsAtSlash(a[1..], rest);
      assert s[1..] == a[1..] + [SLASH] + rest;
      assert a == [a[0]] + a[1..];
    }
  }

  predicate NoSlashes(segs: seq<Str>) { forall i :: 0 <= i < |segs| ==> SLASH !in segs[i] }

  lemma {:induction false} SegsOfJoin(segs: seq<Str>)
    requires segs != [] && NoSlashes(segs)
    ensures Segs(JoinSegs(segs)) == segs
  {
    SegsAtSlash(segs[0], JoinSegs(segs[1..]));
    if |segs| > 1 {
      SegsOfJoin(segs[1..]);
    }
  }

  lemma {:induction false} JoinOfSegs(s: Str)
    ensures JoinSegs(Segs(s)) == s && NoSlashes(Segs(s))
  {
    if s != [] {
      JoinOfSegs(s[1..]);
      var r := Segs(s[1..]);
      if s[0] == SLASH {
        assert Segs(s)[1..] == r;
      } else {
        assert Segs(s)[1..] == r[1..];
      }
    }
  }

  // A path without empty, "." or ".." segments.
  predicate Proper(segs: seq<Str>) {
    forall i :: 0 <= i < |segs| ==> segs[i] != [] && segs[i] != [DOT] && segs[i] != DOTDOT
  }

  // The directory reached from dir by following segs.
  function Resolve(dir: seq<Str>, segs: seq<Str>): seq<Str>
    decreases |segs|
  {
    if segs == [] then dir
    else if segs[0] == DOTDOT then Resolve(if dir == [] then [] else dir[..|dir| - 1], segs[1..])
    else if segs[0] == [] || segs[0] == [DOT] then Resolve(dir, segs[1..])
    else Resolve(dir + [segs[0]], segs[1..])
  }

  // ---------- the result ----------

  function StripLeading(s: Str): Str {
    if s != [] && s[0] == SLASH then StripLeading(s[1..]) else s
  }

  // Leading segments that both paths share, their last ones excepted.
  function Common(f: seq<Str>, t: seq<Str>): nat {
    if |f| >= 2 && |t| >= 2 && f[0] == t[0] then 1 + Common(f[1..], t[1..]) else 0
  }

  function Ups(n: nat): seq<Str> { if n == 0 then [] else [DOTDOT] + Ups(n - 1) }

  lemma {:induction false} CommonBounds(f: seq<Str>, t: seq<Str>)
    requires f != [] && t != []
    ensures var k := Common(f, t); k < |f| && k < |t| && f[..k] == t[..k]
  {
    if |f| >= 2 && |t| >= 2 && f[0] == t[0] {
      CommonBounds(f[1..], t[1..]);
      var k := Common(f[1..], t[1..]);
      assert f[..k + 1] == [f[0]] + f[1..][..k] && t[..k + 1] == [t[0]] + t[1..][..k];
    }
  }

  // How far up from the directory of `from` to the shared part, and the way down to `to`.
  function Steps(f: seq<Str>, t: seq<Str>): (nat, seq<Str>)
    requires f != [] && t != []
  {
    CommonBounds(f, t);
    (|f| - 1 - Common(f, t), t[Common(f, t)..])
  }

  function Relative(f: seq<Str>, t: seq<Str>): seq<Str>
    requires f != [] && t != []
  {
    Ups(Steps(f, t).0) + Steps(f, t).1
  }

  lemma {:induction false} ResolveUps(dir: seq<Str>, n: nat, rest: seq<Str>)
    requires n <= |dir|
    ensures Resolve(dir, Ups(n) + rest) == Resolve(dir[..|dir| - n], rest)
    decreases n
  {
    if n == 0 {
      assert Ups(n) + rest == rest && dir[..|dir|] == dir;
    } else {
      assert (Ups(n) + rest)[1..] == Ups(n - 1) + rest;
      ResolveUps(dir[..|dir| - 1], n - 1, rest);
      assert dir[..|dir| - 1][..|dir| - n] == dir[..|dir| - n];
    }
  }

  lemma {:induction false} ResolveProper(dir: seq<Str>, segs: seq<Str>)
    requires Proper(segs)
    ensures Resolve(dir, segs) == dir + segs
    decreases |segs|
  {
    if segs == [] {
      assert dir + segs == dir;
    } else {
      ResolveProper(dir + [segs[0]], segs[1..]);
      assert dir + [segs[0]] + segs[1..] == dir + segs;
    }
  }

  // Followed from the directory of `from`, the relative path leads to `to`.
  lemma RelativeLeadsThere(f: seq<Str>, t: seq<Str>)
    requires f != [] && t != [] && Proper(t)
    ensures Resolve(f[..|f| - 1], Relative(f, t)) == t
  {
    CommonBounds(f, t);
    var k := Common(f, t);
    var dir := f[..|f| - 1];
    ResolveUps(dir, |f| - 1 - k, t[k..]);
    assert dir[..k] == f[..k] == t[..k];
    ResolveProper(dir[..k], t[k..]);
    assert t[..k] + t[k..] == t;
  }

  // ---------- the function ----------

  // strchr(s + i, PATH_SEP): the next separator, -1 for none.
  method NextSep(s: Str, i: nat) returns (p: int)
    requires i <= |s|
    ensures p == -1 ==> SLASH !in s[i..]
    ensures p != -1 ==> i <= p < |s| && s[p] == SLASH && SLASH !in s[i..p]
    ensures Segs(s[i..]) == if p == -1 then [s[i..]] else [s[i..p]] + Segs(s[p + 1..])
  {
    p := i;
    while p < |s| && s[p] != SLASH
      invariant i <= p <= |s| && SLASH !in s[i..p]
    {
      p := p + 1;
    }
    if p == |s| {
      assert s[i..p] == s[i..];
      SegsAtSlash(s[i..], []);
      p := -1;
    } else {
      SegsAtSlash(s[i..p], s[p + 1..]);
      assert s[i..] == s[i..p] + [SLASH] + s[p + 1..];
    }
  }

  method SkipSeps(s: Str) returns (i: nat)
    ensures i <= |s| && s[i..] == StripLeading(s)
  {
    i := 0;
    while i < |s| && s[i] == SLASH
      invariant i <= |s| && StripLeading(s) == StripLeading(s[i..])
    {
      assert s[i..][1..] == s[i + 1..];
      i := i + 1;
    }
  }

  // One shared leading segment changes nothing.
  lemma DropCommon(a: Str, f: seq<Str>, t: seq<Str>)
    requires f != [] && t != []
    ensures Steps([a] + f, [a] + t) == Steps(f, t)
  {
    assert ([a] + f)[1..] == f && ([a] + t)[1..] == t;
    CommonBounds(f, t);
    var k := Common(f, t);
    assert ([a] + t)[k + 1..] == t[k..];
  }

  lemma {:induction false} JoinUps(n: nat, t: seq<Str>)
    requires n > 0 && t != []
    ensures JoinSegs(Ups(n) + t) == DOTDOT + [SLASH] + JoinSegs(Ups(n - 1) + t)
  {
    assert (Ups(n) + t)[1..] == Ups(n - 1) + t;
  }

  // p is the next separator of s from i on.
  ghost predicate SepAt(s: Str, i: int, p: int) {
    && 0 <= i <= |s| && (p == -1 || i <= p < |s|)
    && Segs(s[i..]) == if p == -1 then [s[i..]] else [s[i..p]] + Segs(s[p + 1..])
  }

  // The paths from i and j on, told apart from the whole by what they share.
  ghost predicate Remaining(aFrom: Str, i: int, aTo: Str, j: int, goal: (nat, seq<Str>)) {
    0 <= i <= |aFrom| && 0 <= j <= |aTo| && Steps(Segs(aFrom[i..]), Segs(aTo[j..])) == goal
  }

  lemma StepOver(aFrom: Str, i: int, p: int, aTo: Str, j: int, q: int, goal: (nat, seq<Str>))
    requires SepAt(aFrom, i, p) && SepAt(aTo, j, q) && p != -1 && q != -1 && Remaining(aFrom, i, aTo, j, goal)
    requires aFrom[i..p] == aTo[j..q]
    ensures Remaining(aFrom, p + 1, aTo, q + 1, goal)
  {
    hide Segs, Steps;
    DropCommon(aFrom[i..p], Segs(aFrom[p + 1..]), Segs(aTo[q + 1..]));
  }

  lemma StopHere(aFrom: Str, i: int, p: int, aTo: Str, j: int, q: int, goal: (nat, seq<Str>))
    requires SepAt(aFrom, i, p) && SepAt(aTo, j, q) && Remaining(aFrom, i, aTo, j, goal)
    requires p == -1 || q == -1 || aFrom[i..p] != aTo[j..q]
    ensures goal == (|Segs(aFrom[i..])| - 1, Segs(aTo[j..]))
  {}

  // The first loop: shared leading segments are passed over.
  method SkipCommon(aFrom: Str, aTo: Str) returns (vFromPart: int, vToPart: int)
    ensures 0 <= vFromPart <= |aFrom| && 0 <= vToPart <= |aTo|
    ensures Steps(Segs(StripLeading(aFrom)), Segs(StripLeading(aTo)))
            == (|Segs(aFrom[vFromPart..])| - 1, Segs(aTo[vToPart..]))
  {
    hide Segs, Steps, StripLeading;
    vFromPart := SkipSeps(aFrom);
    vToPart := SkipSeps(aTo);
    ghost var goal := Steps(Segs(StripLeading(aFrom)), Segs(StripLeading(aTo)));
    var vFromSep := NextSep(aFrom, vFromPart);
    var vToSep := NextSep(aTo, vToPart);
    while vFromSep != -1 && vToSep != -1 && aFrom[vFromPart..vFromSep] == aTo[vToPart..vToSep]
      invariant SepAt(aFrom, vFromPart, vFromSep) && SepAt(aTo, vToPart, vToSep)
      invariant Remaining(aFrom, vFromPart, aTo, vToPart, goal)
      decreases |aFrom| - vFromPart
    {
      StepOver(aFrom, vFromPart, vFromSep, aTo, vToPart, vToSep, goal);
      vFromPart := vFromSep + 1;
      vToPart := vToSep + 1;
      vFromSep := NextSep(aFrom, vFromPart);
      vToSep := NextSep(aTo, vToPart);
    }
    StopHere(aFrom, vFromPart, vFromSep, aTo, vToPart, vToSep, goal);
  }

  // With a separator at the end of `from` the segments are g and an empty one.
  lemma {:induction false} CommonWithout(g: seq<Str>, x: Str, t: seq<Str>)
    requires t != []
    ensures var k := Common(g + [x], t);
            && (k == |g| <==> g < t)
            && (g != [] && k < |g| ==> Common(g, t) == k)
    decreases |g|
  {
    if g != [] && |t| >= 2 && g[0] == t[0] {
      assert (g + [x])[1..] == g[1..] + [x];
      CommonWithout(g[1..], x, t[1..]);
      assert g == [g[0]] + g[1..] && t == [t[0]] + t[1..];
      assert g[1..] < t[1..] <==> g < t;
    }
  }

  // The segments that count as those of `from`: a separator at its end is dropped.
  function FromSegs(aFrom: Str): seq<Str>
    requires aFrom != []
  {
    var f := Segs(StripLeading(aFrom));
    if aFrom[|aFrom| - 1] == SLASH then f[..|f| - 1] else f
  }

  // GetRelativePath, for an aFrom that is not empty. None stands for the loop that does not stop:
  // the number of steps up is below zero. That happens exactly when aFrom ends in a separator and
  // aTo lies below it.
  method GetRelativePath(aFrom: Str, aTo: Str) returns (result: Option<Str>)
    requires aFrom != []
    ensures var g, t := FromSegs(aFrom), Segs(StripLeading(aTo));
            && (result == None <==> aFrom[|aFrom| - 1] == SLASH && g < t)
            && (result != None ==> g != [] && result == Some(JoinSegs(Relative(g, t))))
  {
    hide Segs, JoinSegs, Steps, Ups, StripLeading;
    var vFromPart, vToPart := SkipCommon(aFrom, aTo);
    ghost var t := Segs(aTo[vToPart..]);
    var vSepCount: int := CountSeps(aFrom, vFromPart);
    CountIs(aFrom, aTo, vSepCount, t);
    if aFrom[|aFrom| - 1] == SLASH { vSepCount := vSepCount - 1; }
    if vSepCount < 0 { return None; }
    ghost var goal := Ups(vSepCount) + t;
    var path: Str := [];
    while vSepCount > 0
      invariant vSepCount >= 0
      invariant JoinSegs(goal) == path + JoinSegs(Ups(vSepCount) + t)
    {
      JoinUps(vSepCount, t);
      ghost var before := path;
      path := path + DOTDOT;
      path := path + [SLASH];
      vSepCount := vSepCount - 1;
      assert before + (DOTDOT + [SLASH] + JoinSegs(Ups(vSepCount) + t)) == path + JoinSegs(Ups(vSepCount) + t);
    }
    JoinRest(aTo[vToPart..]);
    return Some(path + aTo[vToPart..]);
  }

  lemma CountIs(aFrom: Str, aTo: Str, count: nat, rest: seq<Str>)
    requires aFrom != [] && Steps(Segs(StripLeading(aFrom)), Segs(StripLeading(aTo))) == (count, rest)
    ensures var g, t := FromSegs(aFrom), Segs(StripLeading(aTo));
            if aFrom[|aFrom| - 1] == SLASH
            then (count == 0 <==> g < t) && (count > 0 ==> g != [] && Steps(g, t) == (count - 1, rest))
            else g != [] && Steps(g, t) == (count, rest)
  {
    hide Segs, StripLeading, Steps;
    if aFrom[|aFrom| - 1] == SLASH {
      var f, t := Segs(StripLeading(aFrom)), Segs(StripLeading(aTo));
      var g := f[..|f| - 1];
      assert f == g + [f[|f| - 1]];
      StepsWithout(g, f[|f| - 1], t);
    }
  }

  lemma StepsWithout(g: seq<Str>, x: Str, t: seq<Str>)
    requires t != []
    ensures var (n, rest) := Steps(g + [x], t);
            (n == 0 <==> g < t) && (n > 0 ==> g != [] && Steps(g, t) == (n - 1, rest))
  {
    hide Common;
    CommonBounds(g + [x], t);
    CommonWithout(g, x, t);
  }

  lemma JoinRest(s: Str)
    ensures JoinSegs(Ups(0) + Segs(s)) == s
  {
    JoinOfSegs(s);
    assert Ups(0) + Segs(s) == Segs(s);
  }

  // The counting loop: one separator less than there are segments.
  method CountSeps(s: Str, i: nat) returns (n: nat)
    requires i <= |s|
    ensures n == |Segs(s[i..])| - 1
  {
    n := 0;
    var sep := NextSep(s, i);
    while sep != -1
      invariant sep == -1 || 0 <= sep < |s|
      invariant |Segs(s[i..])| == n + 1 + if sep == -1 then 0 else |Segs(s[sep + 1..])|
      decreases if sep == -1 then 0 else |s| - sep
    {
      n := n + 1;
      sep := NextSep(s, sep + 1);
    }
  }

  // Resolving the result against the directory of aFrom gives aTo, leading separators aside.
  lemma GetRelativePathLeadsThere(aFrom: Str, aTo: Str)
    requires aFrom != [] && FromSegs(aFrom) != [] && Proper(Segs(StripLeading(aTo)))
    ensures var g, t := FromSegs(aFrom), Segs(StripLeading(aTo));
            Resolve(g[..|g| - 1], Segs(JoinSegs(Relative(g, t)))) == t
  {
    hide Segs, JoinSegs, StripLeading, Resolve;
    var g, t := FromSegs(aFrom), Segs(StripLeading(aTo));
    CommonBounds(g, t);
    JoinOfSegs(StripLeading(aTo));
    UpsNoSlashes(Steps(g, t).0);
    SegsOfJoin(Relative(g, t));
    RelativeLeadsThere(g, t);
  }

  lemma {:induction false} UpsNoSlashes(n: nat)
    ensures NoSlashes(Ups(n))
  {
    if n > 0 {
      UpsNoSlashes(n - 1);
    }
  }

  // From "a/" to "a/b" the steps up would be one less than none.
  lemma BelowFrom()
    ensures FromSegs([97, SLASH]) == [[97]] && Segs(StripLeading([97, SLASH, 98])) == [[97], [98]]
    ensures FromSegs([97, SLASH]) < Segs(StripLeading([97, SLASH, 98]))
  {
    var from: Str, to: Str, a: Str, b: Str := [97, SLASH], [97, SLASH, 98], [97], [98];
    assert from == a + [SLASH] + [] && to == a + [SLASH] + b;
    SegsAtSlash(a, []);
    SegsAtSlash(a, b);
    SegsAtSlash(b, []);
    assert StripLeading(from) == from && StripLeading(to) == to;
    assert Segs(from) == [a, []] && Segs(from)[..1] == [a];
  }

  // ---------- what the pieces mean ----------

  // Leading separators are dropped, and nothing else.
  lemma {:induction false} StrippedIs(s: Str) returns (k: nat)
    ensures k <= |s| && StripLeading(s) == s[k..]
    ensures (forall j :: 0 <= j < k ==> s[j] == 0x2F) && (k < |s| ==> s[k] != 0x2F)
  {
    k := 0;
    if s != [] && s[0] == SLASH {
      var rest := s[1..];
      k := StrippedIs(rest);
      k := k + 1;
      assert forall j :: 1 <= j < k ==> s[j] == rest[j - 1];
    }
  }

  // A string is cut at its separators.
  lemma SegmentsAre(a: Str, rest: Str)
    requires 0x2F !in a
    ensures Segs(a) == [a] && Segs(a + [0x2F] + rest) == [a] + Segs(rest)
  {
    SegsAtSlash(a, rest);
  }

  // What is shared is as long as can be, the last segments left aside.
  lemma {:induction false} SharedIsLongest(f: seq<Str>, t: seq<Str>)
    requires f != [] && t != []
    ensures var k := Common(f, t);
            && k < |f| && k < |t| && (forall i :: 0 <= i < k ==> f[i] == t[i])
            && (k == |f| - 1 || k == |t| - 1 || f[k] != t[k])
  {
    CommonBounds(f, t);
    if |f| >= 2 && |t| >= 2 && f[0] == t[0] {
      SharedIsLongest(f[1..], t[1..]);
      var k := Common(f[1..], t[1..]);
      assert forall i :: 1 <= i < k + 1 ==> f[i] == f[1..][i - 1] && t[i] == t[1..][i - 1];
    }
  }

  // No way to the target that goes up first and then down has fewer steps up.
  lemma FewestSteps(f: seq<Str>, t: seq<Str>, n: nat, rest: seq<Str>)
    requires f != [] && t != [] && n < |f| && rest != [] && Proper(rest)
    requires Resolve(f[..|f| - 1], Ups(n) + rest) == t
    ensures Steps(f, t).0 <= n
  {
    var dir := f[..|f| - 1];
    var m := |dir| - n;
    ResolveUps(dir, n, rest);
    ResolveProper(dir[..m], rest);
    assert t == dir[..m] + rest;
    SharedIsLongest(f, t);
    var k := Common(f, t);
    assert forall i :: 0 <= i < m ==> t[i] == dir[i] == f[i];
  }
}
