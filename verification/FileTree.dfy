/** The in-memory file tree behind one user's CalDAV collection, and its hydration from stored
    resources. The tree's own operations follow RFC 4918. */
module FileTree {
  import opened Text
  import opened Paths
  import opened EntityTags

  type Path = seq<string>

  datatype Resource = Resource(path: string, content: Bytes)

  datatype Tree = Tree(dirs: set<Path>, files: map<Path, Bytes>)

  const EMPTY := Tree({[]}, map[])

  function Parent(p: Path): Path
    requires p != []
  {
    p[..|p| - 1]
  }

  ghost predicate ValidTree(t: Tree) {
    && [] in t.dirs
    && (forall p :: p in t.dirs && p != [] ==> Parent(p) in t.dirs)
    && (forall p :: p in t.files ==> p != [] && Parent(p) in t.dirs)
    && t.dirs !! t.files.Keys
  }

  predicate ProperPrefix(p: Path, q: Path) {
    |p| < |q| && q[..|p|] == p
  }

  lemma {:induction false} DirsClosed(t: Tree, p: Path, k: nat)
    requires ValidTree(t) && p in t.dirs && k <= |p|
    ensures p[..k] in t.dirs
    decreases |p|
  {
    if k < |p| {
      DirsClosed(t, Parent(p), k);
      assert Parent(p)[..k] == p[..k];
    } else {
      assert p[..k] == p;
    }
  }

  lemma FileAncestors(t: Tree, p: Path, k: nat)
    requires ValidTree(t) && p in t.files && k < |p|
    ensures p[..k] in t.dirs
  {
    DirsClosed(t, Parent(p), k);
    assert Parent(p)[..k] == p[..k];
  }

  // ----- file-system calls -----

  datatype MkdirResult = Made | Exists | Refused

  function MkdirStatus(t: Tree, p: Path): MkdirResult {
    if p == [] || p in t.dirs || p in t.files then Exists
    else if Parent(p) in t.dirs then Made
    else Refused
  }

  function Mkdir(t: Tree, p: Path): Tree {
    if MkdirStatus(t, p) == Made then t.(dirs := t.dirs + {p}) else t
  }

  /** A file can be opened for writing where a collection holds it and no collection is in its place. */
  predicate Writable(t: Tree, p: Path) {
    p != [] && p !in t.dirs && Parent(p) in t.dirs
  }

  function WriteFile(t: Tree, p: Path, content: Bytes): Tree {
    t.(files := t.files[p := content])
  }

  /** Making the first `k` ancestors of `path`, tolerating those that exist. */
  function MkdirAll(t: Tree, path: Path, k: nat): Option<Tree>
    requires k <= |path|
  {
    if k == 0 then Some(t)
    else
      match MkdirAll(t, path, k - 1)
      case None => None
      case Some(u) => if MkdirStatus(u, path[..k]) == Refused then None else Some(Mkdir(u, path[..k]))
  }

  /** `writeResourceToFS` on cleaned segments. */
  function WriteResource(t: Tree, path: Path, content: Bytes): Option<Tree> {
    if path == [] then Some(t)
    else
      match MkdirAll(t, path, |path| - 1)
      case None => None
      case Some(u) => if Writable(u, path) then Some(WriteFile(u, path, content)) else None
  }

  function Hydrate(resources: seq<Resource>): Option<Tree> {
    if resources == [] then Some(EMPTY)
    else
      var r := resources[|resources| - 1];
      match Hydrate(resources[..|resources| - 1])
      case None => None
      case Some(t) => WriteResource(t, TreePath(r.path), r.content)
  }

  // ----- the calls on the mutable file system -----

  class MemFS {
    var tree: Tree

    constructor ()
      ensures tree == EMPTY
    {
      tree := EMPTY;
    }

    method Make(p: Path) returns (status: MkdirResult)
      modifies this
      ensures status == MkdirStatus(old(tree), p) && tree == Mkdir(old(tree), p)
    {
      status := MkdirStatus(tree, p);
      tree := Mkdir(tree, p);
    }

    method Write(p: Path, content: Bytes) returns (ok: bool)
      modifies this
      ensures ok == Writable(old(tree), p)
      ensures tree == if ok then WriteFile(old(tree), p, content) else old(tree)
    {
      ok := Writable(tree, p);
      if ok {
        tree := WriteFile(tree, p, content);
      }
    }

    method MakeAll(path: Path, k: nat) returns (ok: bool)
      requires k <= |path|
      modifies this
      ensures ok <==> MkdirAll(old(tree), path, k).Some?
      ensures ok ==> Some(tree) == MkdirAll(old(tree), path, k)
    {
      var current: Path := [];
      for i := 0 to k
        invariant current == path[..i]
        invariant Some(tree) == MkdirAll(old(tree), path, i)
      {
        current := current + [path[i]];
        assert current == path[..i + 1];
        var status := Make(current);
        if status == Refused {
          MkdirAllFails(old(tree), path, i + 1, k);
          return false;
        }
      }
      return true;
    }

    method WriteStored(resource: Resource) returns (ok: bool)
      modifies this
      ensures ok <==> WriteResource(old(tree), TreePath(resource.path), resource.content).Some?
      ensures ok ==> Some(tree) == WriteResource(old(tree), TreePath(resource.path), resource.content)
    {
      var path := TreePath(resource.path);
      if path == [] {
        return true;
      }
      ok := MakeAll(path, |path| - 1);
      if !ok {
        return false;
      }
      ok := Write(path, resource.content);
    }

    method HydrateFrom(resources: seq<Resource>) returns (ok: bool)
      requires tree == EMPTY
      modifies this
      ensures ok <==> Hydrate(resources).Some?
      ensures ok ==> Some(tree) == Hydrate(resources)
    {
      for i := 0 to |resources|
        invariant Some(tree) == Hydrate(resources[..i])
      {
        assert resources[..i + 1][..i] == resources[..i];
        ok := WriteStored(resources[i]);
        if !ok {
          HydrateFails(resources, i + 1);
          return false;
        }
      }
      assert resources[..|resources|] == resources;
      return true;
    }
  }

  lemma {:induction false} MkdirAllFails(t: Tree, path: Path, i: nat, k: nat)
    requires i <= k <= |path| && MkdirAll(t, path, i).None?
    ensures MkdirAll(t, path, k).None?
    decreases k
  {
    if i < k {
      MkdirAllFails(t, path, i, k - 1);
    }
  }

  lemma {:induction false} HydrateFails(resources: seq<Resource>, i: nat)
    requires i <= |resources| && Hydrate(resources[..i]).None?
    ensures Hydrate(resources).None?
    decreases |resources|
  {
    if i < |resources| {
      var init := resources[..|resources| - 1];
      assert init[..i] == resources[..i];
      HydrateFails(init, i);
    } else {
      assert resources[..i] == resources;
    }
  }

  // ----- when a write succeeds, and what it leaves -----

  function Ancestors(p: Path): set<Path> {
    set k | 0 <= k < |p| :: p[..k]
  }

  lemma {:induction false} MkdirAllFrame(t: Tree, path: Path, k: nat)
    requires ValidTree(t) && k <= |path| && MkdirAll(t, path, k).Some?
    ensures var u := MkdirAll(t, path, k).value; ValidTree(u) && u.files == t.files && t.dirs <= u.dirs
  {
    if k > 0 {
      MkdirAllFrame(t, path, k - 1);
    }
  }

  lemma {:induction false} MkdirAllMakes(t: Tree, path: Path, k: nat)
    requires ValidTree(t) && k <= |path|
    requires forall j :: 0 < j <= k ==> path[..j] !in t.files
    ensures MkdirAll(t, path, k).Some?
    ensures MkdirAll(t, path, k).value.files == t.files
    ensures MkdirAll(t, path, k).value.dirs == t.dirs + set j | 0 <= j <= k :: path[..j]
  {
    if k == 0 {
      assert path[..0] == [];
    } else {
      MkdirAllMakes(t, path, k - 1);
      var u := MkdirAll(t, path, k - 1).value;
      assert Parent(path[..k]) == path[..k - 1];
      assert path[..k - 1] in u.dirs;
    }
  }

  /** Writing a stored resource fails exactly when a collection is in its place or a file is in the
      place of one of its ancestors; otherwise it adds the file and its ancestors and nothing else. */
  lemma WriteResourceExact(t: Tree, path: Path, content: Bytes)
    requires ValidTree(t) && path != []
    ensures WriteResource(t, path, content).Some? <==>
            path !in t.dirs && forall k :: 0 < k < |path| ==> path[..k] !in t.files
    ensures WriteResource(t, path, content).Some? ==>
            WriteResource(t, path, content).value == Tree(t.dirs + Ancestors(path), t.files[path := content])
    ensures WriteResource(t, path, content).Some? ==> ValidTree(WriteResource(t, path, content).value)
  {
    var n := |path| - 1;
    if forall k :: 0 < k < |path| ==> path[..k] !in t.files {
      MkdirAllMakes(t, path, n);
      var u := MkdirAll(t, path, n).value;
      assert u.dirs == t.dirs + Ancestors(path);
      assert path[..n] in u.dirs;
      MkdirAllFrame(t, path, n);
    } else if MkdirAll(t, path, n).Some? {
      MkdirAllFrame(t, path, n);
      var u := MkdirAll(t, path, n).value;
      var k :| 0 < k < |path| && path[..k] in t.files;
      if Parent(path) in u.dirs {
        assert Parent(path)[..k] == path[..k];
        DirsClosed(u, Parent(path), k);
      }
    }
  }

  // ----- hydration -----

  function PathAt(resources: seq<Resource>, i: nat): Path
    requires i < |resources|
  {
    TreePath(resources[i].path)
  }

  /** No stored file sits where another stored file needs a collection. */
  ghost predicate PrefixFree(resources: seq<Resource>) {
    forall i, j :: 0 <= i < |resources| && 0 <= j < |resources| && PathAt(resources, i) != [] ==>
      !ProperPrefix(PathAt(resources, i), PathAt(resources, j))
  }

  /** The shape of the tree hydration builds. */
  ghost predicate Shape(resources: seq<Resource>, t: Tree) {
    && (forall p :: p in t.files <==> p != [] && exists i :: 0 <= i < |resources| && PathAt(resources, i) == p)
    && (forall p :: p in t.dirs <==>
          p == [] || exists i :: 0 <= i < |resources| && ProperPrefix(p, PathAt(resources, i)))
  }

  lemma PathAtInit(resources: seq<Resource>)
    requires resources != []
    ensures var init := resources[..|resources| - 1];
      forall i :: 0 <= i < |init| ==> PathAt(init, i) == PathAt(resources, i)
  {
  }

  lemma ShapeExtends(resources: seq<Resource>, t: Tree)
    requires resources != [] && ValidTree(t) && Shape(resources[..|resources| - 1], t)
    ensures var r := resources[|resources| - 1];
      WriteResource(t, TreePath(r.path), r.content).Some? ==>
        Shape(resources, WriteResource(t, TreePath(r.path), r.content).value)
  {
    var n := |resources| - 1;
    var init, r := resources[..n], resources[n];
    var q := TreePath(r.path);
    PathAtInit(resources);
    assert PathAt(resources, n) == q;
    if q == [] {
      assert forall p: Path :: !ProperPrefix(p, q);
      ShapeSnoc(resources, t, t);
    } else {
      WriteResourceExact(t, q, r.content);
      if WriteResource(t, q, r.content).Some? {
        ShapeSnoc(resources, t, WriteResource(t, q, r.content).value);
      }
    }
  }

  lemma ShapeSnoc(resources: seq<Resource>, t: Tree, u: Tree)
    requires resources != [] && Shape(resources[..|resources| - 1], t)
    requires var q := PathAt(resources, |resources| - 1);
      && u.dirs == t.dirs + Ancestors(q)
      && u.files.Keys == t.files.Keys + (if q == [] then {} else {q})
    ensures Shape(resources, u)
  {
    var q := PathAt(resources, |resources| - 1);
    forall p: Path
      ensures p in u.files <==> p != [] && exists i :: 0 <= i < |resources| && PathAt(resources, i) == p
      ensures p in u.dirs <==> p == [] || exists i :: 0 <= i < |resources| && ProperPrefix(p, PathAt(resources, i))
    {
      assert p in u.files <==> p in t.files || (q != [] && p == q);
      ListedSnoc(resources, p);
      ListedBelowSnoc(resources, p);
    }
  }

  lemma ListedSnoc(resources: seq<Resource>, p: Path)
    requires resources != []
    ensures var n := |resources| - 1;
      (exists i :: 0 <= i < |resources| && PathAt(resources, i) == p) <==>
      PathAt(resources, n) == p || exists i :: 0 <= i < n && PathAt(resources[..n], i) == p
  {
    PathAtInit(resources);
    if i :| 0 <= i < |resources| && PathAt(resources, i) == p {
      assert i < |resources| - 1 ==> PathAt(resources[..|resources| - 1], i) == p;
    }
  }

  lemma ListedBelowSnoc(resources: seq<Resource>, p: Path)
    requires resources != []
    ensures var n := |resources| - 1;
      (exists i :: 0 <= i < |resources| && ProperPrefix(p, PathAt(resources, i))) <==>
      ProperPrefix(p, PathAt(resources, n)) || exists i :: 0 <= i < n && ProperPrefix(p, PathAt(resources[..n], i))
  {
    PathAtInit(resources);
    if i :| 0 <= i < |resources| && ProperPrefix(p, PathAt(resources, i)) {
      assert i < |resources| - 1 ==> ProperPrefix(p, PathAt(resources[..|resources| - 1], i));
    }
  }

  /** Hydration succeeds exactly on prefix-free lists, whatever their order, and then builds a
      well-formed tree holding the listed files and their ancestors. */
  lemma {:induction false} HydrateExact(resources: seq<Resource>)
    ensures Hydrate(resources).Some? <==> PrefixFree(resources)
    ensures Hydrate(resources).Some? ==>
              ValidTree(Hydrate(resources).value) && Shape(resources, Hydrate(resources).value)
    decreases |resources|
  {
    if resources != [] {
      var n := |resources| - 1;
      var init, r := resources[..n], resources[n];
      var q := TreePath(r.path);
      HydrateExact(init);
      PathAtInit(resources);
      if Hydrate(init).None? {
        PrefixFreeSnoc(resources);
      } else {
        var t := Hydrate(init).value;
        ShapeExtends(resources, t);
        if q != [] {
          WriteResourceExact(t, q, r.content);
        }
        PrefixFreeSnoc(resources);
        ConflictExact(resources, t);
      }
    }
  }

  /** The last resource clashes with an earlier one. */
  ghost predicate Conflict(resources: seq<Resource>)
    requires resources != []
  {
    var n := |resources| - 1;
    && PathAt(resources, n) != []
    && (exists i ::
          && 0 <= i < n
          && PathAt(resources, i) != []
          && (ProperPrefix(PathAt(resources, i), PathAt(resources, n)) ||
            ProperPrefix(PathAt(resources, n), PathAt(resources, i))))
  }

  lemma PrefixFreeSnoc(resources: seq<Resource>)
    requires resources != []
    ensures PrefixFree(resources) <==> PrefixFree(resources[..|resources| - 1]) && !Conflict(resources)
  {
    var n := |resources| - 1;
    var init := resources[..n];
    PathAtInit(resources);
    if PrefixFree(init) && !Conflict(resources) {
      forall i, j | 0 <= i < |resources| && 0 <= j < |resources| && PathAt(resources, i) != []
        ensures !ProperPrefix(PathAt(resources, i), PathAt(resources, j))
      {
        if i < n && j < n {
          assert !ProperPrefix(PathAt(init, i), PathAt(init, j));
        }
      }
    }
    if PrefixFree(resources) {
      forall i, j | 0 <= i < |init| && 0 <= j < |init| && PathAt(init, i) != []
        ensures !ProperPrefix(PathAt(init, i), PathAt(init, j))
      {
        assert !ProperPrefix(PathAt(resources, i), PathAt(resources, j));
      }
    }
  }

  lemma ConflictExact(resources: seq<Resource>, t: Tree)
    requires resources != [] && ValidTree(t) && Shape(resources[..|resources| - 1], t)
    ensures var q := PathAt(resources, |resources| - 1);
      Conflict(resources) <==> q != [] && (q in t.dirs || exists k :: 0 < k < |q| && q[..k] in t.files)
  {
    var q := PathAt(resources, |resources| - 1);
    if Conflict(resources) {
      ConflictSeen(resources, t);
    }
    PathAtInit(resources);
    var init := resources[..|resources| - 1];
    if q != [] && q in t.dirs {
      var i :| 0 <= i < |init| && ProperPrefix(q, PathAt(init, i));
      assert ProperPrefix(q, PathAt(resources, i));
    }
    if k :| 0 < k < |q| && q[..k] in t.files {
      var i :| 0 <= i < |init| && PathAt(init, i) == q[..k];
      assert ProperPrefix(PathAt(resources, i), q);
    }
  }

  /** A clash with an earlier resource shows in the tree built so far. */
  lemma ConflictSeen(resources: seq<Resource>, t: Tree)
    requires resources != [] && Shape(resources[..|resources| - 1], t) && Conflict(resources)
    ensures var q := PathAt(resources, |resources| - 1);
      q in t.dirs || exists k :: 0 < k < |q| && q[..k] in t.files
  {
    var n := |resources| - 1;
    var init, q := resources[..n], PathAt(resources, n);
    PathAtInit(resources);
    var i :| 0 <= i < n && PathAt(resources, i) != [] &&
      (ProperPrefix(PathAt(resources, i), q) || ProperPrefix(q, PathAt(resources, i)));
    var p := PathAt(init, i);
    if ProperPrefix(p, q) {
      assert q[..|p|] in t.files;
    } else {
      assert q in t.dirs;
    }
  }

  lemma WriteKeepsOthers(t: Tree, q: Path, content: Bytes, p: Path)
    requires ValidTree(t) && WriteResource(t, q, content).Some?
    ensures var u := WriteResource(t, q, content).value;
      && (q != [] ==> q in u.files && u.files[q] == content)
      && (p != q && p in t.files ==> p in u.files && u.files[p] == t.files[p])
  {
    if q != [] {
      WriteResourceExact(t, q, content);
    }
  }

  lemma {:induction false} HydrateContents(resources: seq<Resource>, k: nat)
    requires Hydrate(resources).Some? && k < |resources| && PathAt(resources, k) != []
    requires forall j :: k < j < |resources| ==> PathAt(resources, j) != PathAt(resources, k)
    ensures PathAt(resources, k) in Hydrate(resources).value.files
    ensures Hydrate(resources).value.files[PathAt(resources, k)] == resources[k].content
    decreases |resources|
  {
    var n := |resources| - 1;
    var init, p := resources[..n], PathAt(resources, k);
    assert ValidTree(Hydrate(init).value) by {
      HydrateExact(init);
    }
    WriteKeepsOthers(Hydrate(init).value, PathAt(resources, n), resources[n].content, p);
    if k < n {
      assert forall j :: k < j < n ==> PathAt(init, j) == PathAt(resources, j);
      assert PathAt(init, k) == p;
      HydrateContents(init, k);
    }
  }

  // ----- hydration from a user's stored map -----

  /** The rows of one user: resource path to content. */
  type Rows = map<string, Bytes>

  /** The rows of all users. */
  type Data = map<string, Rows>

  function RowsOf(data: Data, user: string): Rows {
    if user in data then data[user] else map[]
  }

  ghost predicate CleanRows(rows: Rows) {
    forall r :: r in rows ==> CleanResource(r)
  }

  ghost predicate CleanData(data: Data) {
    forall u :: u in data ==> CleanRows(data[u])
  }

  ghost predicate PrefixFreeRows(rows: Rows) {
    forall r, q :: r in rows && q in rows ==> !ProperPrefix(TreePath(r), TreePath(q))
  }

  /** Some listing of the rows, in an arbitrary order. */
  ghost predicate Listing(resources: seq<Resource>, rows: Rows) {
    && (forall i :: 0 <= i < |resources| ==>
          resources[i].path in rows && rows[resources[i].path] == resources[i].content)
    && (forall r :: r in rows ==> exists i :: 0 <= i < |resources| && resources[i].path == r)
    && (forall i, j :: 0 <= i < j < |resources| ==> resources[i].path != resources[j].path)
  }

  function FilePaths(rows: Rows): set<Path> {
    set r | r in rows :: TreePath(r)
  }

  function TreeOf(rows: Rows): Tree
    requires CleanRows(rows)
  {
    Tree({[]} + (set r, k | r in rows && 0 <= k < |TreePath(r)| :: TreePath(r)[..k]),
         map p | p in FilePaths(rows) && Join(p, "/") in rows :: rows[Join(p, "/")])
  }

  lemma TreeOfFile(rows: Rows, r: string)
    requires CleanRows(rows) && r in rows
    ensures TreePath(r) in TreeOf(rows).files && TreeOf(rows).files[TreePath(r)] == rows[r]
  {
    CleanTreePath(r);
  }

  lemma TreeOfKeys(rows: Rows)
    requires CleanRows(rows)
    ensures TreeOf(rows).files.Keys == FilePaths(rows)
  {
    forall p | p in FilePaths(rows)
      ensures p in TreeOf(rows).files
    {
      var r :| r in rows && TreePath(r) == p;
      TreeOfFile(rows, r);
    }
  }

  lemma ListingPaths(resources: seq<Resource>, rows: Rows)
    requires Listing(resources, rows) && CleanRows(rows)
    ensures forall i :: 0 <= i < |resources| ==> PathAt(resources, i) != []
    ensures forall i, j :: 0 <= i < j < |resources| ==> PathAt(resources, i) != PathAt(resources, j)
    ensures PrefixFree(resources) <==> PrefixFreeRows(rows)
  {
    forall i | 0 <= i < |resources|
      ensures PathAt(resources, i) != [] && Join(PathAt(resources, i), "/") == resources[i].path
    {
      CleanTreePath(resources[i].path);
    }
    forall i, j | 0 <= i < j < |resources|
      ensures PathAt(resources, i) != PathAt(resources, j)
    {
      assert Join(PathAt(resources, i), "/") != Join(PathAt(resources, j), "/");
    }
    if PrefixFree(resources) {
      forall r, q | r in rows && q in rows
        ensures !ProperPrefix(TreePath(r), TreePath(q))
      {
        var i :| 0 <= i < |resources| && resources[i].path == r;
        var j :| 0 <= j < |resources| && resources[j].path == q;
        assert !ProperPrefix(PathAt(resources, i), PathAt(resources, j));
      }
    }
  }

  /** Whatever order the store lists a user's resources in, hydration gives one outcome: the tree of
      the rows when they are prefix-free, and a failure otherwise. */
  lemma HydrationOrderIndependent(resources: seq<Resource>, rows: Rows)
    requires Listing(resources, rows) && CleanRows(rows)
    ensures Hydrate(resources) == if PrefixFreeRows(rows) then Some(TreeOf(rows)) else None
    ensures PrefixFreeRows(rows) ==> ValidTree(TreeOf(rows))
  {
    ListingPaths(resources, rows);
    HydrateExact(resources);
    if PrefixFreeRows(rows) {
      var t, u := Hydrate(resources).value, TreeOf(rows);
      HydratedFiles(resources, rows);
      HydratedDirs(resources, rows);
      assert t == u;
    }
  }

  lemma HydratedFile(resources: seq<Resource>, rows: Rows, p: Path)
    requires Listing(resources, rows) && CleanRows(rows) && Hydrate(resources).Some?
    ensures p in Hydrate(resources).value.files <==> p in FilePaths(rows)
    ensures p in FilePaths(rows) ==> Join(p, "/") in rows && Hydrate(resources).value.files[p] == rows[Join(p, "/")]
  {
    ListingPaths(resources, rows);
    HydrateExact(resources);
    if p in FilePaths(rows) {
      var r :| r in rows && TreePath(r) == p;
      var i :| 0 <= i < |resources| && resources[i].path == r;
      assert PathAt(resources, i) == p;
      CleanTreePath(r);
      HydrateContents(resources, i);
    }
  }

  lemma HydratedFiles(resources: seq<Resource>, rows: Rows)
    requires Listing(resources, rows) && CleanRows(rows) && Hydrate(resources).Some?
    ensures Hydrate(resources).value.files == TreeOf(rows).files
  {
    var t, u := Hydrate(resources).value, TreeOf(rows);
    forall p: Path
      ensures p in t.files <==> p in u.files
      ensures p in u.files ==> t.files[p] == u.files[p]
    {
      HydratedFile(resources, rows, p);
      TreeOfFileAt(rows, p);
    }
  }

  lemma TreeOfFileAt(rows: Rows, p: Path)
    requires CleanRows(rows)
    ensures p in TreeOf(rows).files <==> p in FilePaths(rows)
    ensures p in FilePaths(rows) ==> Join(p, "/") in rows && TreeOf(rows).files[p] == rows[Join(p, "/")]
  {
    TreeOfKeys(rows);
    if p in FilePaths(rows) {
      var r :| r in rows && TreePath(r) == p;
      CleanTreePath(r);
    }
  }

  lemma HydratedDir(resources: seq<Resource>, rows: Rows, p: Path)
    requires Listing(resources, rows) && p != []
    ensures (exists i :: 0 <= i < |resources| && ProperPrefix(p, PathAt(resources, i))) <==>
            exists r :: r in rows && ProperPrefix(p, TreePath(r))
  {
    if i :| 0 <= i < |resources| && ProperPrefix(p, PathAt(resources, i)) {
      assert resources[i].path in rows && ProperPrefix(p, TreePath(resources[i].path));
    }
    if r :| r in rows && ProperPrefix(p, TreePath(r)) {
      var i :| 0 <= i < |resources| && resources[i].path == r;
      assert ProperPrefix(p, PathAt(resources, i));
    }
  }

  lemma HydratedDirs(resources: seq<Resource>, rows: Rows)
    requires Listing(resources, rows) && CleanRows(rows) && Hydrate(resources).Some?
    ensures Hydrate(resources).value.dirs == TreeOf(rows).dirs
  {
    HydrateExact(resources);
    forall p: Path
      ensures p in Hydrate(resources).value.dirs <==> p in TreeOf(rows).dirs
    {
      if p != [] {
        HydratedDir(resources, rows, p);
      }
    }
  }
}
