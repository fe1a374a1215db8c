/** When a volume is well formed, what tree it stands for, and where paths lead in it. */
module FileSystem {
  import opened Bytes
  import opened Layout
  import opened Volume
  import opened Crash
  import opened Directory
  import opened Trees
  import opened Errno

  // ---------- from bytes to the tree ----------

  ghost function NodeOf(f: File): (x: Node) {
    if f.mode == MODE_DIRECTORY then Folder(f.links, Entries(f.content)) else Regular(f.links, f.content)
  }

  ghost function TreeOf(fs: map<nat, File>): (t: Tree) {
    map n | n in fs :: NodeOf(fs[n])
  }

  ghost predicate FoldersOK(fs: map<nat, File>) {
    forall n {:trigger DirectoryOK(fs[n].content)} :: n in fs && fs[n].mode == MODE_DIRECTORY ==>
      DirectoryOK(fs[n].content)
  }

  /** Blocks, bitmaps and directory entries are in order; there may be inodes without a name. */
  ghost predicate Consistent(g: Geometry, v: Vol, ow: Owner) {
    Sound(g, v, ow) && FoldersOK(Files(v)) && EntriesOK(TreeOf(Files(v)))
  }

  /** The conditions that the volume checker verifies. */
  ghost predicate Clean(g: Geometry, v: Vol, ow: Owner) {
    Sound(g, v, ow) && FoldersOK(Files(v)) && IsTree(TreeOf(Files(v)), g.root)
  }

  /** A clean volume on which every regular file has one name. */
  ghost predicate Healthy(g: Geometry, v: Vol, ow: Owner) {
    Clean(g, v, ow) && SingleLinks(TreeOf(Files(v)))
  }

  ghost predicate WellFormed(g: Geometry, v: Vol) {
    exists ow :: Healthy(g, v, ow)
  }

  // ---------- what survives an interruption ----------

  ghost predicate Closed(fs: map<nat, File>, root: nat) {
    root in fs && fs[root].mode == MODE_DIRECTORY && FoldersOK(fs) && EntriesOK(TreeOf(fs))
  }

  /** However an update is cut off, a set of files with the root in it can be read off the volume:
      all names in it lead to files of that set, of the kind the name says. */
  ghost predicate CrashSafe(g: Geometry, v: Vol) {
    exists fs :: Closed(fs, g.root) && Shows(g, v, fs)
  }

  ghost predicate CrashSafeSince(g: Geometry, h: seq<Vol>, from: nat) {
    forall j :: from <= j < |h| ==> CrashSafe(g, h[j])
  }

  // ---------- paths ----------

  /** The bytes of a C string, without the terminating NUL. */
  type CString = s: seq<byte> | forall i :: 0 <= i < |s| ==> s[i] != 0

  /** Number of bytes before the first slash. */
  function UpToSlash(s: CString): (n: nat)
    ensures n <= |s| && (n < |s| ==> s[n] == SLASH) && forall i :: 0 <= i < n ==> s[i] != SLASH
  {
    if s == [] || s[0] == SLASH then 0 else 1 + UpToSlash(s[1..])
  }

  /** The names between slashes; empty ones do not count. */
  function Components(s: CString): (cs: seq<CString>)
    decreases |s|
  {
    if s == [] then []
    else if s[0] == SLASH then Components(s[1..])
    else [s[..UpToSlash(s)]] + Components(s[UpToSlash(s)..])
  }

  predicate ComponentOK(c: CString) {
    |c| <= 58 && forall i :: 0 <= i < |c| ==> c[i] <= 0x7F
  }

  datatype Outcome = Found(n: nat) | Failed(st: int)

  /** Follows components from directory `cur`; the first problem met decides the error. */
  function Walk(t: Tree, cur: nat, cs: seq<CString>): (o: Outcome)
    decreases |cs|
  {
    if cs == [] then Found(cur)
    else if !ComponentOK(cs[0]) then Failed(EINVAL)
    else if cur !in t then Failed(EIO)
    else if t[cur].Regular? then Failed(ENOTDIR)
    else if cs[0] == DOT then Walk(t, cur, cs[1..])
    else if cs[0] !in t[cur].entries then Failed(ENOENT)
    else Walk(t, t[cur].entries[cs[0]].child, cs[1..])
  }

  predicate PathOK(path: CString) {
    0 < |path| < 256 && path[0] == SLASH
  }

  function Lookup(t: Tree, root: nat, path: CString): (o: Outcome) {
    if !PathOK(path) then Failed(EINVAL)
    else match Walk(t, root, Components(path))
      case Failed(st) => Failed(st)
      case Found(n) =>
        if |path| > 1 && path[|path| - 1] == SLASH && n in t && t[n].Regular? then Failed(ENOTDIR) else Found(n)
  }

  datatype Place = At(dir: nat, name: CString) | Nowhere(st: int)

  /** The directory and name that the last component stands for. */
  function WalkToParent(t: Tree, cur: nat, cs: seq<CString>): (o: Place)
    requires cs != []
    decreases |cs|
  {
    if !ComponentOK(cs[0]) then Nowhere(EINVAL)
    else if cur !in t then Nowhere(EIO)
    else if t[cur].Regular? then Nowhere(ENOTDIR)
    else if |cs| == 1 then (if Dot(cs[0]) then Nowhere(EINVAL) else At(cur, cs[0]))
    else if cs[0] == DOT then WalkToParent(t, cur, cs[1..])
    else if cs[0] !in t[cur].entries then Nowhere(ENOENT)
    else WalkToParent(t, t[cur].entries[cs[0]].child, cs[1..])
  }

  function Parent(t: Tree, root: nat, path: CString): (o: Place) {
    if !PathOK(path) || |path| <= 1 || path[|path| - 1] == SLASH || Components(path) == [] then Nowhere(EINVAL)
    else WalkToParent(t, root, Components(path))
  }

  /** Looking up a path finds what its parent directory lists under its last name. */
  lemma {:induction false} WalkThroughParent(t: Tree, cur: nat, cs: seq<CString>)
    requires cs != [] && WalkToParent(t, cur, cs).At?
    ensures var o := WalkToParent(t, cur, cs);
            && o.dir in t && t[o.dir].Folder? && !Dot(o.name) && o.name == cs[|cs| - 1] && ComponentOK(o.name)
            && Walk(t, cur, cs) ==
               if o.name in t[o.dir].entries then Found(t[o.dir].entries[o.name].child) else Failed(ENOENT)
    decreases |cs|
  {
    if |cs| > 1 {
      WalkThroughParent(t, if cs[0] == DOT then cur else t[cur].entries[cs[0]].child, cs[1..]);
    }
  }

  lemma {:induction false} ComponentsNonEmpty(s: CString, i: nat)
    requires i < |Components(s)|
    ensures |Components(s)[i]| > 0 && SLASH !in Components(s)[i]
    decreases |s|
  {
    if s[0] == SLASH {
      ComponentsNonEmpty(s[1..], i);
    } else if i > 0 {
      ComponentsNonEmpty(s[UpToSlash(s)..], i - 1);
    }
  }

  /** The name that a path's last component gives is one a directory can hold. */
  lemma ParentNameValid(t: Tree, root: nat, path: CString)
    requires Parent(t, root, path).At?
    ensures ValidName(Parent(t, root, path).name) && !Dot(Parent(t, root, path).name)
    ensures IsFolder(t, Parent(t, root, path).dir)
  {
    var cs := Components(path);
    WalkThroughParent(t, root, cs);
    ComponentsNonEmpty(path, |cs| - 1);
  }
}
