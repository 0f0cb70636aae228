/**
 The directory tree of a store and the walks of src/idb_helpers.c over it, as functions.

 A tree maps the path of every directory to its attribute files. A path is the sequence of its
 segments, so `parent/.k0/suffix` is parent + [".k0", "suffix"]. KeyStore.dfy proves the loops
 that update and search the tree against these functions.
 */
module PartitionTree {
  import opened Bytes
  import opened Utf8

  type Name = seq<byte>
  type Path = seq<Name>
  type Value = seq<byte>
  type Attrs = map<Name, Value>
  type Tree = map<Path, Attrs>

  datatype FullPolicy = Ignored | Stopped

  const ERR_PART_FULL := -100

  predicate Hidden(n: Name) { n != [] && n[0] == DOT }

  // The names a caller may use as a flat key.
  predicate KeyName(n: Name) {
    n != [] && ValidUtf8(n) && NUL !in n && SLASH !in n && DOT !in n
  }

  // A partition directory: a dot and one character of the keys below it.
  predicate PartName(n: Name) {
    Hidden(n) && KeyName(n[1..]) && CharLen(n[1..]) == |n| - 1
  }

  function Part(key: Name): Name { [DOT] + key[..CharLen(key)] }
  function Tail(key: Name): Name { key[CharLen(key)..] }
  predicate Single(key: Name) { Tail(key) == [] }

  // iSubkeyCount: directories in dir whose names do not start with a dot.
  function Children(t: Tree, dir: Path): set<Name> {
    set p | p in t && |p| == |dir| + 1 && dir < p && !Hidden(p[|dir|]) :: p[|dir|]
  }

  predicate Full(t: Tree, dir: Path, max: int) {
    max > 0 && dir in t && |Children(t, dir)| >= max
  }

  // ---------- placing (iFindKeyDirToPut) ----------

  datatype Placement = At(path: Path) | Refused(errno: int)

  function Place(t: Tree, dir: Path, key: Name, max: int, policy: FullPolicy): Placement
    requires key != []
    decreases |key|, 1
  {
    if dir + [key] in t || !Full(t, dir, max) then At(dir + [key])
    else Descend(t, dir, key, max, policy)
  }

  // Past a full level that does not hold the key.
  function Descend(t: Tree, dir: Path, key: Name, max: int, policy: FullPolicy): Placement
    requires key != []
    decreases |key|, 0
  {
    if CharLen(key) == 0 then Refused(ERROR_INVALIDUTF8)
    else if Single(key) then
      match policy
      case Ignored => At(dir + [key])
      case Stopped => Refused(ERR_PART_FULL)
    else Place(t, dir + [Part(key)], Tail(key), max, policy)
  }

  // ---------- looking up (iIsKeyDirExists) ----------

  // The search below the partitions of dir. A key consumed whole gives the partition directory.
  function Find(t: Tree, dir: Path, key: Name): Option<Path>
    requires key != []
    decreases |key|
  {
    if CharLen(key) == 0 then None else
    var d := dir + [Part(key)];
    if d !in t then None
    else if Single(key) then Some(d)
    else if d + [Tail(key)] in t then Some(d + [Tail(key)])
    else Find(t, d, Tail(key))
  }

  function Attr(t: Tree, p: Path, attr: Name): Option<Value> {
    if p in t && attr in t[p] then Some(t[p][attr]) else None
  }

  function Get(t: Tree, dir: Path, key: Name, attr: Name, max: int): Option<Value>
    requires key != []
  {
    var direct := Attr(t, dir + [key], attr);
    if direct.None? && max > 0 then
      match Find(t, dir, key)
      case None => None
      case Some(p) => Attr(t, p, attr)
    else direct
  }

  // The directory iDelete, iKeyDelete and iKeyIsExists act on.
  function Locate(t: Tree, dir: Path, key: Name, max: int): Option<Path>
    requires key != []
  {
    if dir + [key] in t then Some(dir + [key])
    else if max > 0 then Find(t, dir, key)
    else None
  }

  // ---------- updates ----------

  function Prefixes(p: Path): set<Path> {
    set i | 0 <= i <= |p| :: p[..i]
  }

  // ForceDirectories: p and every missing directory above it, without attributes.
  function MkDirs(t: Tree, p: Path): Tree {
    t + map q | q in Prefixes(p) - t.Keys :: map[]
  }

  function Write(t: Tree, p: Path, attr: Name, value: Value): Tree
    requires p in t
  {
    t[p := t[p][attr := value]]
  }

  function PutAt(t: Tree, p: Path, attr: Name, value: Value): Tree {
    assert p[..|p|] == p;
    assert p in MkDirs(t, p);
    Write(MkDirs(t, p), p, attr, value)
  }

  function Put(t: Tree, dir: Path, key: Name, attr: Name, value: Value, max: int, policy: FullPolicy): (Tree, int)
    requires key != []
  {
    match Place(t, dir, key, max, policy)
    case At(p) => (PutAt(t, p, attr, value), 0)
    case Refused(errno) => (t, errno)
  }

  // unlink of one attribute file.
  function Unlink(t: Tree, p: Path, attr: Name): Tree {
    if p in t then t[p := t[p] - {attr}] else t
  }

  function Delete(t: Tree, dir: Path, key: Name, attr: Name, max: int): (Tree, bool)
    requires key != []
  {
    match Locate(t, dir, key, max)
    case None => (t, false)
    case Some(p) => (Unlink(t, p, attr), Attr(t, p, attr).Some?)
  }

  // DeleteDir: the directory and everything below it.
  function RemoveDir(t: Tree, p: Path): Tree {
    map q | q in t && !(p <= q) :: t[q]
  }

  function KeyDelete(t: Tree, dir: Path, key: Name, max: int): Tree
    requires key != []
  {
    match Locate(t, dir, key, max)
    case None => t
    case Some(p) => RemoveDir(t, p)
  }

  // ---------- what a path spells ----------

  // From segment i on: hidden directories, then one that is not hidden.
  predicate SlotFrom(p: Path, i: nat) {
    i < |p| && (forall j :: i <= j < |p| - 1 ==> Hidden(p[j])) && !Hidden(p[|p| - 1])
  }

  predicate Slot(dir: Path, p: Path) { dir < p && SlotFrom(p, |dir|) }

  predicate EndsHidden(p: Path) { p != [] && Hidden(p[|p| - 1]) }

  function Bare(n: Name): Name { if n == [] then [] else n[1..] }

  // The key named by the segments from i on: partition characters, then the suffix.
  function Spell(p: Path, i: nat): Name
    decreases |p| - i
  {
    if p == [] then [] else if i >= |p| - 1 then p[|p| - 1] else Bare(p[i]) + Spell(p, i + 1)
  }

  // From segment i on: well-formed partition directories, then a key name or one more of them.
  predicate ShapeFrom(p: Path, i: nat) {
    i < |p|
    && (forall j :: i <= j < |p| - 1 ==> PartName(p[j]))
    && (PartName(p[|p| - 1]) || KeyName(p[|p| - 1]))
  }

  // ---------- well-formed trees ----------

  predicate Closed(t: Tree) {
    forall p, i :: p in t && 0 <= i <= |p| ==> p[..i] in t
  }

  // Partition directories carry no attribute files.
  predicate HiddenBare(t: Tree) {
    forall p :: p in t && EndsHidden(p) ==> t[p] == map[]
  }

  ghost predicate WellFormed(t: Tree) { Closed(t) && HiddenBare(t) }

  // A path of plain segments: what a caller names literally.
  predicate Plain(p: Path) { forall i :: 0 <= i < |p| ==> !Hidden(p[i]) }

  // ---------- keys and characters ----------

  lemma TailIsKey(key: Name)
    requires KeyName(key)
    ensures CharLen(key) > 0
    ensures Tail(key) == [] || KeyName(Tail(key))
    ensures |Tail(key)| < |key|
    ensures PartName(Part(key)) && Bare(Part(key)) + Tail(key) == key
  {
    hide ValidUtf8, CharLen;
    ValidStarts(key);
    FirstCharAlone(key);
    var h := key[..CharLen(key)];
    assert Part(key)[1..] == h;
    assert forall b :: b in h ==> b in key;
    assert forall b :: b in Tail(key) ==> b in key;
    assert h + Tail(key) == key;
  }

  // A partition name followed by a suffix is read back as its character and the suffix.
  lemma PartSplits(n: Name, rest: Name)
    requires PartName(n)
    ensures CharLen(Bare(n) + rest) == |n| - 1
    ensures Part(Bare(n) + rest) == n && Tail(Bare(n) + rest) == rest
  {}

  lemma KeyNotHidden(key: Name)
    requires KeyName(key)
    ensures !Hidden(key)
  {}

  lemma KeyNotEmpty(key: Name)
    requires KeyName(key)
    ensures key != []
  {}

  // ---------- paths ----------

  lemma PrefixesExactly(p: Path, r: Path)
    ensures r in Prefixes(p) <==> r <= p
  {
    if r <= p {
      assert r == p[..|r|];
    }
  }

  lemma ExtendedPrefix(dir: Path, x: Name, q: Path)
    ensures dir + [x] <= q <==> dir < q && q[|dir|] == x
    ensures dir < dir + [x] && (dir + [x])[|dir|] == x
  {}

  // A slot of the partition for x is a slot of dir, and spells the partition character first.
  lemma SlotBelow(dir: Path, x: Name, q: Path)
    requires Hidden(x) && Slot(dir + [x], q)
    ensures Slot(dir, q) && q[|dir|] == x && |q| >= |dir| + 2
    ensures Spell(q, |dir|) == Bare(x) + Spell(q, |dir| + 1)
    ensures PartName(x) && ShapeFrom(q, |dir| + 1) ==> ShapeFrom(q, |dir|)
  {
    ExtendedPrefix(dir, x, q);
  }

  // The slot of a key directly in dir.
  lemma SlotHere(dir: Path, key: Name)
    requires KeyName(key)
    ensures var q := dir + [key]; Slot(dir, q) && ShapeFrom(q, |dir|) && Spell(q, |dir|) == key
  {}
}
