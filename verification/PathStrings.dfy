/**
 The path strings of the store: ExtractLastPathName (src/isdk_utils.h:357-378) and sdsJoinPathLen
 (src/isdk_utils.c:157-177) on byte strings do what taking the last segment off and adding one do
 on the segment sequences PartitionTree.dfy works with.
 */
module PathStrings {
  import opened Bytes
  import opened RelativePath

  // Names of directories: not empty, without separator, and C strings.
  predicate Names(segs: seq<Str>) {
    forall i :: 0 <= i < |segs| ==> segs[i] != [] && SLASH !in segs[i] && NUL !in segs[i]
  }

  // A path string stands for a directory: its segments joined, perhaps with a separator behind.
  predicate StandsFor(s: Str, dir: seq<Str>) {
    s == JoinSegs(dir) || (dir != [] && s == JoinSegs(dir) + [SLASH])
  }

  // sdsJoinPathLen
  method JoinPathLen(aPath: Str, aPath2: Str) returns (result: Str)
    ensures result == (if aPath == [] || aPath[|aPath| - 1] == SLASH then aPath else aPath + [SLASH]) + aPath2
    ensures forall dir :: Names(dir) && StandsFor(aPath, dir) && aPath2 != [] ==> result == JoinSegs(dir + [aPath2])
    ensures forall dir :: Names(dir) && StandsFor(aPath, dir) && aPath2 == [] ==> StandsFor(result, dir)
  {
    if |aPath| == 0 {
      result := aPath + aPath2;
    } else {
      result := aPath;
      if aPath[|aPath| - 1] != SLASH { result := result + [SLASH]; }
      if |aPath2| > 0 { result := result + aPath2; }
    }
    forall dir | Names(dir) && StandsFor(aPath, dir) && aPath2 != [] ensures result == JoinSegs(dir + [aPath2]) {
      if dir == [] {
        assert dir + [aPath2] == [aPath2];
      } else {
        JoinEnds(dir);
        JoinSnoc(dir, aPath2);
      }
    }
  }

  lemma {:induction false} JoinSnoc(dir: seq<Str>, name: Str)
    requires dir != []
    ensures JoinSegs(dir + [name]) == JoinSegs(dir) + [SLASH] + name
    decreases |dir|
  {
    assert (dir + [name])[1..] == dir[1..] + [name];
    if |dir| == 1 {
      assert dir[1..] + [name] == [name];
    } else {
      JoinSnoc(dir[1..], name);
    }
  }

  lemma {:induction false} JoinEnds(dir: seq<Str>)
    requires Names(dir) && dir != []
    ensures var s := JoinSegs(dir); s != [] && s[|s| - 1] != SLASH
    decreases |dir|
  {
    if |dir| > 1 {
      JoinEnds(dir[1..]);
    }
  }

  // What taking the last name off the path of dir + [key] gives.
  predicate CutsLast(vDir: Str, vLastPath: Option<Str>, dir: seq<Str>, key: Str) {
    vLastPath == Some(key) && StandsFor(vDir, dir)
  }

  // Any path, taken apart: what is kept, the last name, and the separators behind it.
  predicate TakenApart(aDir: Str, vDir: Str, vLastPath: Option<Str>) {
    match vLastPath
    case None => vDir == [] && forall k :: 0 <= k < |aDir| ==> aDir[k] == SLASH
    case Some(name) =>
      && name != [] && SLASH !in name && (vDir == [] || vDir[|vDir| - 1] == SLASH)
      && vDir + name <= aDir && forall k :: |vDir + name| <= k < |aDir| ==> aDir[k] == SLASH
  }

  // ExtractLastPathName: the last name of a path, which is cut off the path in place. The
  // separator before the name stays.
  method ExtractLastPathName(aDir: Str) returns (vDir: Str, vLastPath: Option<Str>)
    ensures TakenApart(aDir, vDir, vLastPath)
    ensures forall dir, key :: Names(dir + [key]) && StandsFor(aDir, dir + [key]) ==>
              CutsLast(vDir, vLastPath, dir, key)
  {
    var vLen := |aDir|;
    while vLen > 0 && aDir[vLen - 1] == SLASH
      invariant 0 <= vLen <= |aDir|
      invariant forall k :: vLen <= k < |aDir| ==> aDir[k] == SLASH
    {
      vLen := vLen - 1;
    }
    vDir := aDir[..vLen];
    // strrchr: the position behind the last separator
    var s := vLen;
    while s > 0 && vDir[s - 1] != SLASH
      invariant 0 <= s <= vLen && SLASH !in vDir[s..]
    {
      s := s - 1;
    }
    ghost var trimmed := vDir;
    vLastPath := None;
    if vLen - s > 0 {
      vLastPath := Some(vDir[s..]);
      vDir := vDir[..s];
      assert vDir + vLastPath.value == trimmed;
    }
    forall dir, key | Names(dir + [key]) && StandsFor(aDir, dir + [key])
      ensures CutsLast(vDir, vLastPath, dir, key)
    {
      LastNameCut(aDir, trimmed, s, dir, key);
    }
  }

  lemma LastNameCut(aDir: Str, trimmed: Str, s: int, dir: seq<Str>, key: Str)
    requires Names(dir + [key]) && StandsFor(aDir, dir + [key])
    requires trimmed <= aDir && (forall k :: |trimmed| <= k < |aDir| ==> aDir[k] == SLASH)
    requires trimmed != [] ==> trimmed[|trimmed| - 1] != SLASH
    requires 0 <= s <= |trimmed| && SLASH !in trimmed[s..] && (s > 0 ==> trimmed[s - 1] == SLASH)
    ensures s < |trimmed| && trimmed[s..] == key && StandsFor(trimmed[..s], dir)
  {
    TrimmedPath(aDir, trimmed, dir + [key]);
    var n := if dir == [] then 0 else |JoinSegs(dir)| + 1;
    LastName(dir, key, trimmed, n);
    CutUnique(trimmed, key, n, s);
  }

  lemma TrimmedPath(aDir: Str, trimmed: Str, segs: seq<Str>)
    requires Names(segs) && segs != [] && StandsFor(aDir, segs)
    requires trimmed <= aDir && (forall k :: |trimmed| <= k < |aDir| ==> aDir[k] == SLASH)
    requires trimmed != [] ==> trimmed[|trimmed| - 1] != SLASH
    ensures trimmed == JoinSegs(segs)
  {
    JoinEnds(segs);
    var joined := JoinSegs(segs);
    assert aDir[|joined| - 1] == joined[|joined| - 1];
    assert |trimmed| >= |joined|;
    assert aDir[..|joined|] == joined;
    assert |trimmed| == |joined|;
  }

  lemma LastName(dir: seq<Str>, key: Str, joined: Str, n: nat)
    requires Names(dir + [key]) && joined == JoinSegs(dir + [key])
    requires n == if dir == [] then 0 else |JoinSegs(dir)| + 1
    ensures n < |joined| && joined[n..] == key && SLASH !in key
    ensures n > 0 ==> joined[n - 1] == SLASH
    ensures StandsFor(joined[..n], dir)
  {
    assert (dir + [key])[|dir|] == key;
    if dir == [] {
      assert dir + [key] == [key];
    } else {
      JoinSnoc(dir, key);
      assert joined[..n] == JoinSegs(dir) + [SLASH];
    }
  }

  // The name behind the last separator starts at one place only.
  lemma CutUnique(joined: Str, key: Str, n: nat, s: nat)
    requires n < |joined| && joined[n..] == key && SLASH !in key && (n > 0 ==> joined[n - 1] == SLASH)
    requires s <= |joined| && SLASH !in joined[s..] && (s > 0 ==> joined[s - 1] == SLASH)
    ensures s == n
  {}

  // Different directories have different path strings.
  lemma PathsAreDistinct(dir: seq<Str>, dir2: seq<Str>)
    requires dir != [] && dir2 != [] && Names(dir) && Names(dir2) && JoinSegs(dir) == JoinSegs(dir2)
    ensures dir == dir2
  {
    SegsOfJoin(dir);
    SegsOfJoin(dir2);
  }
}
