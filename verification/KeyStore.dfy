/**
 The store operations of src/idb_helpers.c in their imperative form, over a file system that the
 operations update. Each is proved against the functions of PartitionTree.dfy.

 System calls are assumed to succeed. Storage is STORE_IN_FILE.
 */
module KeyStore {
  import opened Bytes
  import opened Utf8
  import opened PartitionTree
  import opened AnyTree
  import opened Refinement

  // sdsJoinPathLen on a directory path: joining nothing leaves the directory as it is.
  function Join(dir: Path, name: Name): Path {
    if name == [] then dir else dir + [name]
  }

  // readdir: the entries of a directory in whatever order the file system gives them.
  method ReadDir(t: Tree, dir: Path) returns (entries: seq<Name>)
    ensures Listing(t, dir, entries)
  {
    entries := [];
    ghost var all := Entries(t, dir);
    var rest := Entries(t, dir);
    while rest != {}
      invariant forall n :: n in all <==> n in rest || n in entries
      invariant forall n :: n in entries ==> n !in rest
      invariant forall i, j :: 0 <= i < j < |entries| ==> entries[i] != entries[j]
      decreases |rest|
    {
      var n :| n in rest;
      rest := rest - {n};
      entries := entries + [n];
    }
    forall n ensures n in entries <==> dir + [n] in t { EntriesExactly(t, dir, n); }
  }

  class Store {
    var dirs: Tree                  // the directories and their attribute files
    var maxPageCount: int           // IDBMaxPageCount
    var partitionFull: FullPolicy   // IDBPartitionFullProcess

    constructor (root: Path, maxPageCount: int, partitionFull: FullPolicy)
      ensures dirs == MkDirs(map[], root) && WellFormed(dirs)
      ensures this.maxPageCount == maxPageCount && this.partitionFull == partitionFull
      ensures Serves(root) && Contents(dirs, root) == map[]
    {
      hide Inv, WellFormed, Contents, MkDirs;
      dirs := MkDirs(map[], root);
      this.maxPageCount := maxPageCount;
      this.partitionFull := partitionFull;
      NewTree(root, maxPageCount);
    }

    // The keys of dir behave like a map: its contents.
    ghost predicate Serves(dir: Path)
      reads this
    {
      Inv(dirs, dir, maxPageCount)
    }

    // iSubkeyCount: CountDir with LIST_NORMAL_DIRS.
    method SubkeyCount(dir: Path) returns (vTotal: nat)
      ensures vTotal == |Children(dirs, dir)|
    {
      var entries := ReadDir(dirs, dir);
      ghost var seen: set<Name> := {};
      vTotal := 0;
      for i := 0 to |entries|
        invariant seen == set n | n in entries[..i] && !Hidden(n)
        invariant vTotal == |seen|
      {
        if !Hidden(entries[i]) {
          vTotal := vTotal + 1;
          seen := seen + {entries[i]};
        }
      }
      assert entries[..|entries|] == entries;
      forall n ensures n in seen <==> n in Children(dirs, dir) { ChildrenExactly(dirs, dir, n); }
      assert seen == Children(dirs, dir);
    }

    // iFindKeyDirToPut
    method FindKeyDirToPut(aDir: Path, max: int, policy: FullPolicy) returns (r: Placement)
      requires Closed(dirs) && aDir != [] && aDir[|aDir| - 1] != [] && max > 0
      ensures r == Place(dirs, aDir[..|aDir| - 1], aDir[|aDir| - 1], max, policy)
    {
      var vDir := aDir;
      assert aDir == aDir[..|aDir| - 1] + [aDir[|aDir| - 1]];
      if vDir in dirs { return At(vDir); }
      var vKey := vDir[|vDir| - 1];
      vDir := vDir[..|vDir| - 1];
      var s, vKeySize := 0, |vKey|;
      assert vKey[s..] == vKey;
      ghost var goal := Place(dirs, vDir, vKey, max, policy);
      if vDir in dirs {
        var vCount := SubkeyCount(vDir);
        if vCount >= max {
          var vLen, vUtf8Char;
          while true
            invariant s + vKeySize == |vKey| && vKeySize > 0 && 0 <= s
            invariant goal == Descend(dirs, vDir, vKey[s..], max, policy)
            decreases vKeySize
          {
            ghost var rest := vKey[s..];
            assert rest[..vKeySize] == rest;
            vLen, vUtf8Char := IterateUtf8Char(vKey[s..], vKeySize);
            if vLen > 0 {
              s := s + vLen;
              vKeySize := vKeySize - vLen;
              assert vKey[s..] == Tail(rest);
              if vKeySize <= 0 { assert vUtf8Char == rest; break; }
              vDir := vDir + [[DOT] + vUtf8Char];
              assert goal == Place(dirs, vDir, vKey[s..], max, policy);
              if vDir in dirs {
                if vDir + [vKey[s..]] in dirs { break; }
                vCount := SubkeyCount(vDir);
                if vCount < max { break; }
              } else {
                assert (vDir + [vKey[s..]])[..|vDir|] == vDir;
                break;
              }
            } else {
              return Refused(vLen);
            }
          }
          if vKeySize <= 0 {
            match policy
            case Ignored => vDir := vDir + [vUtf8Char];
            case Stopped => return Refused(ERR_PART_FULL);
          }
        }
      }
      if vKeySize > 0 {
        vDir := vDir + [vKey[s..]];
      }
      return At(vDir);
    }

    // iIsKeyDirExists
    method IsKeyDirExists(aDir: Path) returns (r: Option<Path>)
      requires aDir != [] && aDir[|aDir| - 1] != []
      ensures r == Find(dirs, aDir[..|aDir| - 1], aDir[|aDir| - 1])
    {
      var vKey := aDir[|aDir| - 1];
      var vDir := aDir[..|aDir| - 1];
      var s, vKeySize := 0, |vKey|;
      assert vKey[s..] == vKey;
      ghost var goal := Find(dirs, vDir, vKey);
      while true
        invariant s + vKeySize == |vKey| && vKeySize > 0 && 0 <= s
        invariant goal == Find(dirs, vDir, vKey[s..])
        decreases vKeySize
      {
        ghost var rest := vKey[s..];
        assert rest[..vKeySize] == rest;
        var vLen, vUtf8Char := IterateUtf8Char(vKey[s..], vKeySize);
        if vLen > 0 {
          vDir := vDir + [[DOT] + vUtf8Char];
          if vDir in dirs {
            s := s + vLen;
            vKeySize := vKeySize - vLen;
            assert vKey[s..] == Tail(rest);
            if Join(vDir, vKey[s..]) in dirs { break; }
          } else {
            return None;
          }
        } else {
          return None;
        }
      }
      return Some(Join(vDir, vKey[s..]));
    }

    // ForceDirectories: create the missing directories from the top down.
    method ForceDirectories(path: Path)
      modifies this`dirs
      ensures dirs == MkDirs(old(dirs), path)
    {
      var i := 0;
      while i <= |path|
        invariant 0 <= i <= |path| + 1
        invariant forall q :: q in dirs <==> q in old(dirs) || exists k :: 0 <= k < i && q == path[..k]
        invariant forall q :: q in dirs ==> dirs[q] == if q in old(dirs) then old(dirs)[q] else map[]
      {
        if path[..i] !in dirs {
          dirs := dirs[path[..i] := map[]];
        }
        i := i + 1;
      }
      forall q ensures q in dirs <==> q in old(dirs) || q in Prefixes(path) {}
    }

    // iPut; the result is 0 or the error number.
    method Put(aDir: Path, aKey: Name, aValue: Value, aAttribute: Name) returns (result: int)
      requires Closed(dirs) && aKey != []
      modifies this`dirs
      ensures (dirs, result)
              == PartitionTree.Put(old(dirs), aDir, aKey, aAttribute, aValue, maxPageCount, partitionFull)
      ensures Closed(dirs)
      ensures KeyName(aKey) && old(WellFormed(dirs)) ==> WellFormed(dirs)
      ensures KeyName(aKey) && old(Serves(aDir)) ==>
                && Serves(aDir)
                && (result == 0 ==> Contents(dirs, aDir) == old(Contents(dirs, aDir))[(aKey, aAttribute) := aValue])
                && (result != 0 ==> dirs == old(dirs))
    {
      hide Inv, WellFormed, Contents, KeyName, Closed;
      PutKeeps(dirs, aDir, maxPageCount, partitionFull, aKey, aAttribute, aValue);
      var vDir := aDir + [aKey];
      assert vDir[..|vDir| - 1] == aDir && vDir[|vDir| - 1] == aKey;
      if maxPageCount > 0 {
        var r := FindKeyDirToPut(vDir, maxPageCount, partitionFull);
        if r.Refused? { return r.errno; }
        vDir := r.path;
      }
      if vDir in dirs {
        NothingMissing(dirs, vDir);
      } else {
        ForceDirectories(vDir);
      }
      assert vDir in MkDirs(old(dirs), vDir) by { assert vDir[..|vDir|] == vDir; }
      dirs := Write(dirs, vDir, aAttribute, aValue);
      return 0;
    }

    // iGet
    method Get(aDir: Path, aKey: Name, aAttribute: Name) returns (result: Option<Value>)
      requires aKey != []
      ensures result == PartitionTree.Get(dirs, aDir, aKey, aAttribute, maxPageCount)
      ensures KeyName(aKey) && Serves(aDir) ==> result == Lookup(Contents(dirs, aDir), (aKey, aAttribute))
    {
      hide Inv, Contents, KeyName;
      if KeyName(aKey) && Serves(aDir) { GetRefines(dirs, aDir, maxPageCount, aKey, aAttribute); }
      var vDir := aDir + [aKey];
      assert vDir[..|vDir| - 1] == aDir && vDir[|vDir| - 1] == aKey;
      result := Attr(dirs, vDir, aAttribute);
      if result.None? && maxPageCount > 0 {
        var found := IsKeyDirExists(vDir);
        if found.Some? {
          result := Attr(dirs, found.value, aAttribute);
        }
      }
    }

    // iIsExists
    method IsExists(aDir: Path, aKey: Name, aAttribute: Name) returns (result: bool)
      requires aKey != []
      ensures result == PartitionTree.Get(dirs, aDir, aKey, aAttribute, maxPageCount).Some?
      ensures KeyName(aKey) && Serves(aDir) ==> (result <==> (aKey, aAttribute) in Contents(dirs, aDir))
    {
      hide Inv, Contents, KeyName;
      if KeyName(aKey) && Serves(aDir) { GetRefines(dirs, aDir, maxPageCount, aKey, aAttribute); }
      var vDir := aDir + [aKey];
      assert vDir[..|vDir| - 1] == aDir && vDir[|vDir| - 1] == aKey;
      result := Attr(dirs, vDir, aAttribute).Some?;
      if !result && maxPageCount > 0 {
        var found := IsKeyDirExists(vDir);
        result := found.Some?;
        if result {
          result := Attr(dirs, found.value, aAttribute).Some?;
        }
      }
    }

    // The look-up shared by iDelete, iKeyDelete and iKeyIsExists.
    method LocateKey(aDir: Path, aKey: Name) returns (result: Option<Path>)
      requires aKey != []
      ensures result == Locate(dirs, aDir, aKey, maxPageCount)
    {
      var vDir := aDir + [aKey];
      assert vDir[..|vDir| - 1] == aDir && vDir[|vDir| - 1] == aKey;
      if vDir in dirs { return Some(vDir); }
      result := None;
      if maxPageCount > 0 {
        result := IsKeyDirExists(vDir);
      }
    }

    // iDelete
    method Delete(aDir: Path, aKey: Name, aAttribute: Name) returns (result: bool)
      requires aKey != []
      modifies this`dirs
      ensures (dirs, result) == PartitionTree.Delete(old(dirs), aDir, aKey, aAttribute, maxPageCount)
      ensures old(Closed(dirs)) ==> Closed(dirs)
      ensures old(WellFormed(dirs)) ==> WellFormed(dirs)
      ensures KeyName(aKey) && old(Serves(aDir)) ==>
                && Serves(aDir)
                && Contents(dirs, aDir) == old(Contents(dirs, aDir)) - {(aKey, aAttribute)}
                && (result <==> (aKey, aAttribute) in old(Contents(dirs, aDir)))
    {
      hide Inv, WellFormed, Contents, KeyName, Closed;
      DeleteKeeps(dirs, aDir, maxPageCount, aKey, aAttribute);
      result := false;
      var vDir := LocateKey(aDir, aKey);
      if vDir.Some? {
        result := Attr(dirs, vDir.value, aAttribute).Some?;
        dirs := Unlink(dirs, vDir.value, aAttribute);
      }
    }

    // iKeyDelete
    method KeyDelete(aDir: Path, aKey: Name)
      requires aKey != []
      modifies this`dirs
      ensures dirs == PartitionTree.KeyDelete(old(dirs), aDir, aKey, maxPageCount)
      ensures old(Closed(dirs)) ==> Closed(dirs)
      ensures old(WellFormed(dirs)) ==> WellFormed(dirs)
    {
      hide WellFormed, Closed;
      KeyDeleteKeeps(dirs, aDir, maxPageCount, aKey);
      var vDir := LocateKey(aDir, aKey);
      if vDir.Some? {
        dirs := RemoveDir(dirs, vDir.value);
      }
    }

    // iKeyIsExists
    method KeyIsExists(aDir: Path, aKey: Name) returns (result: bool)
      requires aKey != []
      ensures result == Locate(dirs, aDir, aKey, maxPageCount).Some?
    {
      var vDir := LocateKey(aDir, aKey);
      result := vDir.Some?;
    }
  }

  // ---------- what the operations keep ----------

  lemma NewTree(root: Path, max: int)
    ensures var t := MkDirs(map[], root); WellFormed(t) && Inv(t, root, max) && Contents(t, root) == map[]
  {
    NewTreeFormed(root);
    hide *;
    FreshStoreInv(MkDirs(map[], root), root, max);
  }

  lemma NewTreeFormed(root: Path)
    ensures var t := MkDirs(map[], root); WellFormed(t) && forall p :: p in t ==> !(root < p)
  {
    forall p, i | p in MkDirs(map[], root) && 0 <= i <= |p| ensures p[..i] in MkDirs(map[], root) {
      var j :| 0 <= j <= |root| && p == root[..j];
      assert p[..i] == root[..i];
    }
  }

  lemma NothingMissing(t: Tree, p: Path)
    requires Closed(t) && p in t
    ensures MkDirs(t, p) == t
  {}

  lemma PutKeeps(t: Tree, dir: Path, max: int, policy: FullPolicy, key: Name, attr: Name, value: Value)
    requires Closed(t) && key != []
    ensures var (t', result) := PartitionTree.Put(t, dir, key, attr, value, max, policy);
            && Closed(t')
            && (KeyName(key) && WellFormed(t) ==> WellFormed(t'))
            && (KeyName(key) && Inv(t, dir, max) ==>
                  && Inv(t', dir, max)
                  && (result == 0 ==> Contents(t', dir) == Contents(t, dir)[(key, attr) := value])
                  && (result != 0 ==> t' == t))
  {
    hide Inv, WellFormed, Contents, KeyName, Closed, Place, PutAt;
    if Place(t, dir, key, max, policy).At? {
      PutAtClosed(t, Place(t, dir, key, max, policy).path, attr, value);
    }
    if KeyName(key) && WellFormed(t) { PutWellFormed(t, dir, key, attr, value, max, policy); }
    if KeyName(key) && Inv(t, dir, max) { PutRefines(t, dir, max, policy, key, attr, value); }
  }

  lemma PutAtClosed(t: Tree, q: Path, attr: Name, value: Value)
    requires Closed(t)
    ensures Closed(PutAt(t, q, attr, value))
  {
    PutAtEffect(t, q, attr, value);
    hide PutAt;
    var t' := PutAt(t, q, attr, value);
    forall p, i | p in t' && 0 <= i <= |p| ensures p[..i] in t' {
      assert p <= q ==> p[..i] <= q;
    }
  }

  lemma DeleteKeeps(t: Tree, dir: Path, max: int, key: Name, attr: Name)
    requires key != []
    ensures var (t', ok) := PartitionTree.Delete(t, dir, key, attr, max);
            && (Closed(t) ==> Closed(t'))
            && (WellFormed(t) ==> WellFormed(t'))
            && (KeyName(key) && Inv(t, dir, max) ==>
                  && Inv(t', dir, max)
                  && Contents(t', dir) == Contents(t, dir) - {(key, attr)}
                  && ok == ((key, attr) in Contents(t, dir)))
  {
    hide Inv, Contents, KeyName, Find;
    if KeyName(key) && Inv(t, dir, max) { DeleteRefines(t, dir, max, key, attr); }
  }

  lemma KeyDeleteKeeps(t: Tree, dir: Path, max: int, key: Name)
    requires key != []
    ensures var t' := PartitionTree.KeyDelete(t, dir, key, max);
            (Closed(t) ==> Closed(t')) && (WellFormed(t) ==> WellFormed(t'))
  {
    hide Find;
    if Locate(t, dir, key, max).Some? {
      var p := Locate(t, dir, key, max).value;
      if Closed(t) {
        forall q, i | q in RemoveDir(t, p) && 0 <= i <= |q| ensures q[..i] in RemoveDir(t, p) {
          assert p <= q[..i] ==> p <= q;
        }
      }
    }
  }

  // Every name in a directory, once.
  ghost predicate Listing(t: Tree, dir: Path, entries: seq<Name>) {
    && (forall n :: n in entries <==> dir + [n] in t)
    && (forall i, j :: 0 <= i < j < |entries| ==> entries[i] != entries[j])
  }

  lemma ListingNext(t: Tree, dir: Path, entries: seq<Name>, i: nat)
    requires Listing(t, dir, entries) && i < |entries|
    ensures entries[i] !in entries[..i] && dir + [entries[i]] in t
    ensures entries[..i + 1] == entries[..i] + [entries[i]]
  {}

  function Entries(t: Tree, dir: Path): set<Name> {
    set p | p in t && |p| == |dir| + 1 && dir < p :: p[|dir|]
  }

  lemma EntriesExactly(t: Tree, dir: Path, n: Name)
    ensures n in Entries(t, dir) <==> dir + [n] in t
  {
    var p := dir + [n];
    assert dir < p && p[|dir|] == n;
    if q :| q in t && |q| == |dir| + 1 && dir < q && q[|dir|] == n {
      assert q == p;
    }
  }

  lemma ChildrenExactly(t: Tree, dir: Path, n: Name)
    ensures n in Children(t, dir) <==> dir + [n] in t && !Hidden(n)
  {
    var p := dir + [n];
    assert dir < p && p[|dir|] == n;
    if q :| q in t && |q| == |dir| + 1 && dir < q && !Hidden(q[|dir|]) && q[|dir|] == n {
      assert q == p;
    }
  }
}
