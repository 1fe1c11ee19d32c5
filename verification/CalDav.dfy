/** The CalDAV handler as a state machine: one cached file tree per user in front of the stored
    rows. Every request is one step; steps are sequential. */
module CalDav {
  import opened Text
  import opened Paths
  import opened EntityTags
  import opened FileTree

  datatype Verb = Get | Head | Post | Put | Delete | Mkcol

  /** What a request meets outside the program: store calls that fail (listing, lookup, write), a body
      that cannot be read, and two answers that are the WebDAV library's own: whether it takes an empty
      PUT onto a collection for a success, and whether it refuses a read over its If-Match. */
  datatype Env = Env(listFails: bool, lookupFails: bool, bodyFails: bool, persistFails: bool,
                     emptyPutAccepted: bool, readRefused: bool)

  const CALM := Env(false, false, false, false, false, false)

  datatype Request = Request(verb: Verb, path: string, ifMatch: string, body: Bytes, env: Env)

  /** Nothing outside the program fails this request, of the things a request with its verb meets. */
  predicate Undisturbed(req: Request) {
    && !req.env.listFails && !req.env.lookupFails
    && match req.verb
       case Put => !req.env.bodyFails && !req.env.persistFails
       case Delete => !req.env.persistFails
       case Mkcol => true
       case Get | Head | Post => !(req.ifMatch != "" && req.env.readRefused)
  }

  /** `etag` is the tag this program sets; the WebDAV library's own tag is not modelled. */
  datatype Response = Response(status: int, body: Bytes, etag: Option<string>)

  // ----- the WebDAV tree (RFC 4918) -----

  predicate Within(p: Path, q: Path) {
    |p| <= |q| && q[..|p|] == p
  }

  function RemoveAll(t: Tree, p: Path): Tree {
    Tree(set q | q in t.dirs && !Within(p, q), map q | q in t.files && !Within(p, q) :: t.files[q])
  }

  datatype DavResult = DavResult(tree: Tree, status: int, body: Bytes)

  function Dav(t: Tree, req: Request, p: Path): DavResult {
    match req.verb
    case Get | Head | Post =>
      if p !in t.files then DavResult(t, if p in t.dirs then 405 else 404, [])
      else if req.ifMatch != "" && req.env.readRefused then DavResult(t, 412, [])
      else DavResult(t, 200, if req.verb.Head? then [] else t.files[p])
    case Put =>
      if Writable(t, p) then DavResult(WriteFile(t, p, req.body), if p in t.files then 204 else 201, [])
      else if p != [] && p in t.dirs && req.body == [] && req.env.emptyPutAccepted then DavResult(t, 201, [])
      else DavResult(t, if p == [] || p in t.dirs then 405 else 409, [])
    case Delete =>
      if p == [] then DavResult(t, 405, [])
      else if p in t.dirs || p in t.files then DavResult(RemoveAll(t, p), 204, [])
      else DavResult(t, 404, [])
    case Mkcol =>
      if req.body != [] then DavResult(t, 415, [])
      else
        match MkdirStatus(t, p)
        case Made => DavResult(Mkdir(t, p), 201, [])
        case Exists => DavResult(t, 405, [])
        case Refused => DavResult(t, 409, [])
  }

  // ----- one user's step -----

  predicate PassesIfMatch(req: Request, found: bool, content: Bytes, digest: Digest) {
    req.ifMatch == "" || (!req.verb.Put? && !req.verb.Delete?) || IfMatchSatisfied(req.ifMatch, found, content, digest)
  }

  function ResponseETag(req: Request, found: bool, content: Bytes, digest: Digest): Option<string> {
    if req.verb.Put? then Some(ResourceETag(req.body, digest))
    else if found && (req.verb.Get? || req.verb.Head?) then Some(ResourceETag(content, digest))
    else None
  }

  predicate Successful(status: int) {
    200 <= status < 300
  }

  datatype UserStep = UserStep(tree: Tree, rows: Rows, response: Response)

  function Persisted(rows: Rows, resource: string, req: Request): Rows {
    if req.verb.Put? then rows[resource := req.body]
    else if req.verb.Delete? then rows - {resource}
    else rows
  }

  function UserServe(t: Tree, rows: Rows, resource: string, req: Request, digest: Digest): UserStep {
    if resource == "" then
      var d := Dav(t, req, []);
      UserStep(d.tree, rows, Response(d.status, d.body, None))
    else if req.env.lookupFails then UserStep(t, rows, Response(500, [], None))
    else
      var found := resource in rows;
      var content := if found then rows[resource] else [];
      if !PassesIfMatch(req, found, content, digest) then UserStep(t, rows, Response(412, [], None))
      else if req.verb.Put? && req.env.bodyFails then UserStep(t, rows, Response(400, [], None))
      else
        var d := Dav(t, req, TreePath(resource));
        UserStep(d.tree,
                 if Successful(d.status) && !req.env.persistFails then Persisted(rows, resource, req) else rows,
                 Response(d.status, d.body, ResponseETag(req, found, content, digest)))
  }

  // ----- coherence of one user's tree with the rows -----

  /** The tree holds exactly the stored paths with the stored contents. */
  ghost predicate Match(t: Tree, rows: Rows) {
    && (forall r :: r in rows ==> TreePath(r) in t.files && t.files[TreePath(r)] == rows[r])
    && (forall p :: p in t.files ==> Join(p, "/") in rows && TreePath(Join(p, "/")) == p)
  }

  ghost predicate UserCoherent(t: Tree, rows: Rows) {
    ValidTree(t) && CleanRows(rows) && Match(t, rows)
  }

  /** An unconditional DELETE of a collection with stored files below it: the tree loses the files,
      the store keeps them. */
  ghost predicate DropsFiles(rows: Rows, resource: string, req: Request) {
    && !req.env.lookupFails
    && req.verb.Delete? && req.ifMatch == "" && TreePath(resource) != []
    && exists q :: q in rows && ProperPrefix(TreePath(resource), TreePath(q))
  }

  /** An empty PUT onto a collection that the library takes for a success: the store gets a row, the
      tree keeps its collection. */
  predicate PutsOnCollection(t: Tree, resource: string, req: Request) {
    && !req.env.lookupFails && !req.env.bodyFails && !req.env.persistFails && req.env.emptyPutAccepted
    && req.verb.Put? && req.ifMatch == "" && req.body == []
    && TreePath(resource) != [] && TreePath(resource) in t.dirs
  }

  /** An update that the tree takes and the failing store does not, and that would have changed the
      stored content. */
  predicate LosesWrite(t: Tree, rows: Rows, resource: string, req: Request, digest: Digest) {
    var found := resource in rows;
    && !req.env.lookupFails && req.env.persistFails
    && PassesIfMatch(req, found, if found then rows[resource] else [], digest)
    && (req.verb.Delete? ==> found)
    && (req.verb.Put? ==>
          !req.env.bodyFails && Writable(t, TreePath(resource)) && !(found && rows[resource] == req.body))
    && (req.verb.Put? || req.verb.Delete?)
  }

  /** The three ways in which one request can part a user's tree from the rows. */
  ghost predicate UserDiverges(t: Tree, rows: Rows, resource: string, req: Request, digest: Digest) {
    || DropsFiles(rows, resource, req)
    || PutsOnCollection(t, resource, req)
    || LosesWrite(t, rows, resource, req, digest)
  }

  /** What normalisation can hand on: nothing, a clean path, or a dot name that means the root. */
  predicate Addressable(resource: string) {
    resource == "" || CleanResource(resource) || TreePath(resource) == []
  }

  lemma CoherentPrefixFree(t: Tree, rows: Rows)
    requires UserCoherent(t, rows)
    ensures PrefixFreeRows(rows)
  {
    forall r, q | r in rows && q in rows
      ensures !ProperPrefix(TreePath(r), TreePath(q))
    {
      if ProperPrefix(TreePath(r), TreePath(q)) {
        FileAncestors(t, TreePath(q), |TreePath(r)|);
      }
    }
  }

  /** A resource is stored exactly if its path is a file of the tree. */
  lemma StoredIsFile(t: Tree, rows: Rows, resource: string)
    requires UserCoherent(t, rows) && Addressable(resource) && resource != ""
    ensures resource in rows <==> TreePath(resource) in t.files
    ensures resource in rows ==> t.files[TreePath(resource)] == rows[resource] && TreePath(resource) !in t.dirs
  {
    var p := TreePath(resource);
    if p in t.files {
      assert p != [];
      CleanTreePath(resource);
    }
  }

  lemma TreeOfFiles(rows: Rows)
    requires CleanRows(rows) && PrefixFreeRows(rows)
    ensures forall p :: p in TreeOf(rows).files ==> p != [] && Parent(p) in TreeOf(rows).dirs && p !in TreeOf(rows).dirs
  {
    var t := TreeOf(rows);
    TreeOfKeys(rows);
    forall p | p in t.files
      ensures p != [] && Parent(p) in t.dirs && p !in t.dirs
    {
      var r :| r in rows && TreePath(r) == p;
      CleanTreePath(r);
      assert ProperPrefix(Parent(p), TreePath(r));
    }
  }

  lemma TreeOfDirs(rows: Rows)
    requires CleanRows(rows)
    ensures forall p :: p in TreeOf(rows).dirs && p != [] ==> Parent(p) in TreeOf(rows).dirs
  {
    var t := TreeOf(rows);
    forall p | p in t.dirs && p != []
      ensures Parent(p) in t.dirs
    {
      var q, k :| q in rows && 0 <= k < |TreePath(q)| && TreePath(q)[..k] == p;
      assert TreePath(q)[..k - 1] == Parent(p);
    }
  }

  lemma TreeOfMatch(rows: Rows)
    requires CleanRows(rows)
    ensures Match(TreeOf(rows), rows)
  {
    TreeOfKeys(rows);
    forall p | p in TreeOf(rows).files
      ensures Join(p, "/") in rows && TreePath(Join(p, "/")) == p
    {
      var r :| r in rows && TreePath(r) == p;
      CleanTreePath(r);
    }
    forall r | r in rows
      ensures TreePath(r) in TreeOf(rows).files && TreeOf(rows).files[TreePath(r)] == rows[r]
    {
      TreeOfFile(rows, r);
    }
  }

  lemma TreeOfCoherent(rows: Rows)
    requires CleanRows(rows) && PrefixFreeRows(rows)
    ensures UserCoherent(TreeOf(rows), rows)
  {
    TreeOfFiles(rows);
    TreeOfDirs(rows);
    TreeOfMatch(rows);
  }

  lemma PutMatch(t: Tree, rows: Rows, resource: string, body: Bytes)
    requires CleanRows(rows) && Match(t, rows) && CleanResource(resource)
    ensures Match(WriteFile(t, TreePath(resource), body), rows[resource := body])
  {
    CleanTreePath(resource);
    forall r | r in rows && r != resource
      ensures TreePath(r) != TreePath(resource)
    {
      CleanTreePath(r);
    }
  }

  lemma PutCoherent(t: Tree, rows: Rows, resource: string, body: Bytes)
    requires UserCoherent(t, rows) && CleanResource(resource) && Writable(t, TreePath(resource))
    ensures UserCoherent(WriteFile(t, TreePath(resource), body), rows[resource := body])
  {
    PutMatch(t, rows, resource, body);
  }

  lemma RemoveAllWellFormed(t: Tree, p: Path)
    requires ValidTree(t) && p != []
    ensures ValidTree(RemoveAll(t, p))
  {
    forall q: Path | q != [] && !Within(p, q)
      ensures !Within(p, Parent(q))
    {
    }
  }

  /** A DELETE that leaves a stored file below the resource breaks the agreement ... */
  lemma DeleteBreaks(t: Tree, rows: Rows, resource: string, q: string)
    requires UserCoherent(t, rows) && CleanResource(resource)
    requires q in rows && ProperPrefix(TreePath(resource), TreePath(q))
    ensures !Match(RemoveAll(t, TreePath(resource)), rows - {resource})
  {
    assert q != resource && q in rows - {resource};
    assert Within(TreePath(resource), TreePath(q));
    assert TreePath(q) !in RemoveAll(t, TreePath(resource)).files;
  }

  /** ... and any other DELETE keeps it. */
  lemma DeleteKeeps(t: Tree, rows: Rows, resource: string)
    requires UserCoherent(t, rows) && CleanResource(resource)
    requires !exists q :: q in rows && ProperPrefix(TreePath(resource), TreePath(q))
    ensures Match(RemoveAll(t, TreePath(resource)), rows - {resource})
  {
    CleanTreePath(resource);
    var p, u := TreePath(resource), RemoveAll(t, TreePath(resource));
    forall r | r in rows - {resource}
      ensures TreePath(r) in u.files && u.files[TreePath(r)] == rows[r]
    {
      CleanTreePath(r);
      assert TreePath(r)[..|TreePath(r)|] == TreePath(r);
      assert !ProperPrefix(p, TreePath(r));
    }
    forall f | f in u.files
      ensures Join(f, "/") in rows - {resource} && TreePath(Join(f, "/")) == f
    {
      assert p[..|p|] == p;
    }
  }

  lemma DeleteCoherent(t: Tree, rows: Rows, resource: string)
    requires UserCoherent(t, rows) && CleanResource(resource)
    ensures UserCoherent(RemoveAll(t, TreePath(resource)), rows - {resource}) <==>
            !exists q :: q in rows && ProperPrefix(TreePath(resource), TreePath(q))
  {
    CleanTreePath(resource);
    RemoveAllWellFormed(t, TreePath(resource));
    if q :| q in rows && ProperPrefix(TreePath(resource), TreePath(q)) {
      DeleteBreaks(t, rows, resource, q);
    } else {
      DeleteKeeps(t, rows, resource);
    }
  }

  lemma UserDeleteExact(t: Tree, rows: Rows, resource: string, req: Request, digest: Digest)
    requires UserCoherent(t, rows) && CleanResource(resource) && req.verb.Delete?
    ensures var s := UserServe(t, rows, resource, req, digest);
      UserCoherent(s.tree, s.rows) <==> !UserDiverges(t, rows, resource, req, digest)
  {
    var p := TreePath(resource);
    CleanTreePath(resource);
    StoredIsFile(t, rows, resource);
    DeleteDiverges(t, rows, resource, req, digest);
    if p in t.dirs || p in t.files {
      DeleteEither(t, rows, resource);
    } else {
      DeleteMissing(t, rows, resource);
    }
  }

  /** Whether the agreement survives, with the row removed and with the row kept. */
  lemma DeleteEither(t: Tree, rows: Rows, resource: string)
    requires UserCoherent(t, rows) && CleanResource(resource)
    ensures var u := RemoveAll(t, TreePath(resource));
      var below := exists q :: q in rows && ProperPrefix(TreePath(resource), TreePath(q));
      && (UserCoherent(u, rows - {resource}) <==> !below)
      && (UserCoherent(u, rows) <==> !below && resource !in rows)
      && (resource in rows ==> !below)
  {
    DeleteCoherent(t, rows, resource);
    if resource in rows {
      DeleteStored(t, rows, resource);
    } else {
      assert rows - {resource} == rows;
    }
  }

  /** The ways a DELETE can diverge. */
  lemma DeleteDiverges(t: Tree, rows: Rows, resource: string, req: Request, digest: Digest)
    requires CleanResource(resource) && req.verb.Delete?
    ensures var found := resource in rows;
      var passes := PassesIfMatch(req, found, if found then rows[resource] else [], digest);
      UserDiverges(t, rows, resource, req, digest) <==>
        && !req.env.lookupFails
        && ((req.ifMatch == "" && exists q :: q in rows && ProperPrefix(TreePath(resource), TreePath(q)))
            || (req.env.persistFails && passes && found))
  {
    CleanTreePath(resource);
  }

  /** A stored file has nothing below it, and removing it from the tree alone breaks the agreement. */
  lemma DeleteStored(t: Tree, rows: Rows, resource: string)
    requires UserCoherent(t, rows) && CleanResource(resource) && resource in rows
    ensures !exists q :: q in rows && ProperPrefix(TreePath(resource), TreePath(q))
    ensures !Match(RemoveAll(t, TreePath(resource)), rows)
  {
    CoherentPrefixFree(t, rows);
    var p := TreePath(resource);
    assert p[..|p|] == p;
    assert p !in RemoveAll(t, p).files;
  }

  /** Everything but a successful PUT or DELETE leaves the files of the tree alone, and the root
      cannot be written or removed. */
  lemma DavQuiet(t: Tree, req: Request, p: Path)
    requires ValidTree(t)
    ensures var d := Dav(t, req, p);
      var onto := p != [] && p in t.dirs && req.body == [] && req.env.emptyPutAccepted;
      && (!req.verb.Put? && !req.verb.Delete? ==> ValidTree(d.tree) && d.tree.files == t.files)
      && (req.verb.Put? && !Writable(t, p) ==> d.tree == t && (Successful(d.status) <==> onto))
      && (req.verb.Put? && Writable(t, p) ==> d.tree == WriteFile(t, p, req.body) && Successful(d.status))
      && (p == [] ==> d.tree == t && !Successful(d.status))
  {
  }

  /** What a PUT comes to. */
  lemma PutServed(t: Tree, rows: Rows, resource: string, req: Request, digest: Digest)
    requires ValidTree(t) && CleanResource(resource) && req.verb.Put?
    ensures var s, p, found := UserServe(t, rows, resource, req, digest), TreePath(resource), resource in rows;
      var served := !req.env.lookupFails && !req.env.bodyFails
                    && PassesIfMatch(req, found, if found then rows[resource] else [], digest);
      var onto := p != [] && p in t.dirs && req.body == [] && req.env.emptyPutAccepted;
      && s.tree == (if served && Writable(t, p) then WriteFile(t, p, req.body) else t)
      && s.rows == if served && !req.env.persistFails && (Writable(t, p) || onto) then rows[resource := req.body]
        else rows
  {
    DavQuiet(t, req, TreePath(resource));
  }

  lemma UserPutExact(t: Tree, rows: Rows, resource: string, req: Request, digest: Digest)
    requires UserCoherent(t, rows) && CleanResource(resource) && req.verb.Put?
    ensures var s := UserServe(t, rows, resource, req, digest);
      UserCoherent(s.tree, s.rows) <==> !UserDiverges(t, rows, resource, req, digest)
  {
    var p := TreePath(resource);
    CleanTreePath(resource);
    PutServed(t, rows, resource, req, digest);
    if Writable(t, p) {
      PutCoherent(t, rows, resource, req.body);
      PutUnstored(t, rows, resource, req.body);
    } else if p in t.dirs {
      PutOntoCollection(t, rows, resource, req.body);
      assert resource !in rows;
      assert !IfMatchSatisfied(req.ifMatch, false, [], digest);
    }
  }

  /** A write that reaches the tree only breaks the agreement unless it changes nothing. */
  lemma PutUnstored(t: Tree, rows: Rows, resource: string, body: Bytes)
    requires UserCoherent(t, rows) && CleanResource(resource) && Writable(t, TreePath(resource))
    ensures UserCoherent(WriteFile(t, TreePath(resource), body), rows) <==> resource in rows && rows[resource] == body
  {
    CleanTreePath(resource);
    PutCoherent(t, rows, resource, body);
    if resource in rows && rows[resource] == body {
      assert rows[resource := body] == rows;
    } else {
      assert TreePath(resource) in WriteFile(t, TreePath(resource), body).files;
    }
  }

  /** A row for a collection has no file to stand for. */
  lemma PutOntoCollection(t: Tree, rows: Rows, resource: string, body: Bytes)
    requires UserCoherent(t, rows) && CleanResource(resource) && TreePath(resource) in t.dirs
    ensures !UserCoherent(t, rows[resource := body])
  {
    assert resource in rows[resource := body];
    assert TreePath(resource) !in t.files;
  }

  lemma QuietConverges(t: Tree, rows: Rows, resource: string, req: Request, digest: Digest)
    requires UserCoherent(t, rows) && Addressable(resource)
    requires req.verb.Put? || req.verb.Delete? ==> TreePath(resource) == []
    ensures !UserDiverges(t, rows, resource, req, digest)
  {
    RootPath();
    if resource in rows {
      CleanTreePath(resource);
    }
  }

  /** One step keeps a user's tree and rows in agreement, except exactly when it drops files, puts a
      row on a collection, or loses a write to a failing store. */
  lemma UserServeExact(t: Tree, rows: Rows, resource: string, req: Request, digest: Digest)
    requires UserCoherent(t, rows) && Addressable(resource)
    ensures var s := UserServe(t, rows, resource, req, digest);
      UserCoherent(s.tree, s.rows) <==> !UserDiverges(t, rows, resource, req, digest)
  {
    RootPath();
    if TreePath(resource) != [] && req.verb.Delete? {
      UserDeleteExact(t, rows, resource, req, digest);
    } else if TreePath(resource) != [] && req.verb.Put? {
      UserPutExact(t, rows, resource, req, digest);
    } else {
      QuietConverges(t, rows, resource, req, digest);
    }
  }

  lemma RootPath()
    ensures TreePath("") == []
  {
    assert Join([], "/") == "";
    assert "/" + "" == "/";
    SegmentsOfJoined([]);
  }

  /** Deleting what the tree does not hold touches neither side. */
  lemma DeleteMissing(t: Tree, rows: Rows, resource: string)
    requires UserCoherent(t, rows) && CleanResource(resource)
    requires TreePath(resource) !in t.dirs && TreePath(resource) !in t.files
    ensures !exists q :: q in rows && ProperPrefix(TreePath(resource), TreePath(q))
  {
    if q :| q in rows && ProperPrefix(TreePath(resource), TreePath(q)) {
      FileAncestors(t, TreePath(q), |TreePath(resource)|);
    }
  }

  // ----- reads, conditional updates and restarts of one user -----

  lemma UserRead(t: Tree, rows: Rows, resource: string, req: Request, digest: Digest)
    requires UserCoherent(t, rows) && Addressable(resource) && resource != ""
    requires (req.verb.Get? || req.verb.Head?) && Undisturbed(req)
    ensures var r := UserServe(t, rows, resource, req, digest).response;
      && (r.status == 200 <==> resource in rows)
      && (r.status == 200 ==> r.etag == Some(ResourceETag(rows[resource], digest)))
      && (r.status == 200 && req.verb.Get? ==> r.body == rows[resource])
      && (req.verb.Head? ==> r.body == [])
  {
    StoredIsFile(t, rows, resource);
  }

  /** An update whose If-Match is one sent tag goes through exactly when the stored content has it. */
  lemma UserConditional(t: Tree, rows: Rows, resource: string, req: Request, digest: Digest, tagged: Bytes)
    requires UserCoherent(t, rows) && Addressable(resource) && resource != "" && PrintsHex(digest)
    requires (req.verb.Put? || req.verb.Delete?) && req.ifMatch == ResourceETag(tagged, digest) && Undisturbed(req)
    ensures var s := UserServe(t, rows, resource, req, digest);
      var current := resource in rows && digest(rows[resource]) == digest(tagged);
      && (current ==> Successful(s.response.status) && s.rows == Persisted(rows, resource, req))
      && (!current ==> s.response.status == 412 && s.rows == rows)
  {
    var found := resource in rows;
    var content := if found then rows[resource] else [];
    SentTagDecision(tagged, found, content, digest);
    assert req.ifMatch != "";
    StoredIsFile(t, rows, resource);
  }

  lemma DirsAfterRestart(t: Tree, rows: Rows, p: Path)
    requires UserCoherent(t, rows) && p != []
    ensures p in TreeOf(rows).dirs <==> exists q :: q in rows && ProperPrefix(p, TreePath(q))
    ensures p in TreeOf(rows).dirs ==> p in t.dirs
  {
    if q :| q in rows && ProperPrefix(p, TreePath(q)) {
      FileAncestors(t, TreePath(q), |p|);
    }
  }

  lemma FilesAfterRestart(t: Tree, rows: Rows)
    requires UserCoherent(t, rows)
    ensures TreeOf(rows).files == t.files
  {
    TreeOfMatch(rows);
    var u := TreeOf(rows);
    forall p: Path
      ensures p in u.files <==> p in t.files
      ensures p in t.files ==> u.files[p] == t.files[p]
    {
      if p in t.files {
        assert TreePath(Join(p, "/")) == p;
      }
      if p in u.files {
        assert TreePath(Join(p, "/")) == p;
      }
    }
  }

  /** A read depends on the files and on whether the path is a collection. */
  lemma ReadsAgree(t: Tree, u: Tree, rows: Rows, resource: string, req: Request, digest: Digest)
    requires t.files == u.files && [] in t.dirs && [] in u.dirs && [] !in t.files
    requires (req.verb.Get? || req.verb.Head?) && !req.env.lookupFails
    ensures UserServe(u, rows, resource, req, digest).response == UserServe(t, rows, resource, req, digest).response
            <==>
            TreePath(resource) in t.files || (TreePath(resource) in t.dirs <==> TreePath(resource) in u.dirs)
  {
    RootPath();
  }

  /** Reading from the rehydrated tree differs exactly on collections no stored file is below. */
  lemma UserRestart(t: Tree, rows: Rows, resource: string, req: Request, digest: Digest)
    requires UserCoherent(t, rows) && (req.verb.Get? || req.verb.Head?) && !req.env.lookupFails
    ensures (UserServe(TreeOf(rows), rows, resource, req, digest).response ==
             UserServe(t, rows, resource, req, digest).response) <==>
            !(TreePath(resource) != [] && TreePath(resource) in t.dirs
              && !exists q :: q in rows && ProperPrefix(TreePath(resource), TreePath(q)))
  {
    var p := TreePath(resource);
    FilesAfterRestart(t, rows);
    ReadsAgree(t, TreeOf(rows), rows, resource, req, digest);
    if p != [] {
      DirsAfterRestart(t, rows, p);
    }
  }

  lemma DroppedIsCollection(t: Tree, rows: Rows, resource: string, del: Request)
    requires UserCoherent(t, rows) && Addressable(resource) && DropsFiles(rows, resource, del)
    ensures resource != "" && CleanResource(resource) && TreePath(resource) in t.dirs && resource !in rows
  {
    RootPath();
    var q :| q in rows && ProperPrefix(TreePath(resource), TreePath(q));
    FileAncestors(t, TreePath(q), |TreePath(resource)|);
    StoredIsFile(t, rows, resource);
  }

  lemma UserDrop(t: Tree, rows: Rows, resource: string, del: Request, digest: Digest)
    requires UserCoherent(t, rows) && Addressable(resource) && DropsFiles(rows, resource, del)
    ensures CleanResource(resource) && TreePath(resource) in t.dirs
    ensures var s := UserServe(t, rows, resource, del, digest);
      s.response.status == 204 && s.tree == RemoveAll(t, TreePath(resource)) && s.rows == rows
  {
    DroppedIsCollection(t, rows, resource, del);
    assert rows - {resource} == rows;
  }

  lemma UserPutWritable(t: Tree, rows: Rows, resource: string, put: Request, digest: Digest)
    requires resource != "" && put.verb.Put? && put.ifMatch == "" && Undisturbed(put)
    requires Writable(t, TreePath(resource)) && TreePath(resource) !in t.files
    ensures var s := UserServe(t, rows, resource, put, digest);
      s.response.status == 201 && s.rows == rows[resource := put.body]
  {
  }

  /** Dropping files below a collection and then writing a file in its place both succeed, and leave
      rows that cannot be hydrated. */
  lemma UserDropThenPut(t: Tree, rows: Rows, resource: string, del: Request, put: Request, digest: Digest)
    requires UserCoherent(t, rows) && Addressable(resource)
    requires DropsFiles(rows, resource, del) && put.verb.Put? && put.ifMatch == "" && Undisturbed(put)
    ensures var s := UserServe(t, rows, resource, del, digest);
      var s' := UserServe(s.tree, s.rows, resource, put, digest);
      s.response.status == 204 && s'.response.status == 201 && !PrefixFreeRows(s'.rows)
  {
    UserDrop(t, rows, resource, del, digest);
    UserPutWritable(RemoveAll(t, TreePath(resource)), rows, resource, put, digest);
    var after := rows[resource := put.body];
    var q :| q in rows && ProperPrefix(TreePath(resource), TreePath(q));
    assert q in after && resource in after;
  }

  /** An empty PUT onto a collection is stored and answered as a success. */
  lemma UserPutOnto(t: Tree, rows: Rows, resource: string, put: Request, digest: Digest)
    requires UserCoherent(t, rows) && Addressable(resource) && PutsOnCollection(t, resource, put)
    ensures var s := UserServe(t, rows, resource, put, digest);
      s.response.status == 201 && s.rows == rows[resource := put.body]
  {
    RootPath();
    assert !Writable(t, TreePath(resource));
  }

  /** A lost PUT is seen in the tree under the tag of the stored content ... */
  lemma UserLost(t: Tree, rows: Rows, resource: string, put: Request, digest: Digest)
    requires UserCoherent(t, rows) && Addressable(resource) && LosesWrite(t, rows, resource, put, digest) &&
             put.verb.Put?
    ensures resource != ""
    ensures var s := UserServe(t, rows, resource, put, digest);
      Successful(s.response.status) && s.rows == rows && s.tree == WriteFile(t, TreePath(resource), put.body)
  {
    RootPath();
  }

  lemma UserGet(t: Tree, rows: Rows, resource: string, get: Request, digest: Digest)
    requires resource != "" && get.verb.Get? && Undisturbed(get)
    ensures var r, p := UserServe(t, rows, resource, get, digest).response, TreePath(resource);
      && r.etag == (if resource in rows then Some(ResourceETag(rows[resource], digest)) else None)
      && (p in t.files ==> r.status == 200 && r.body == t.files[p])
      && (p !in t.files ==> r.body == [] && r.status == if p in t.dirs then 405 else 404)
  {
  }

  /** ... and not after rehydration. */
  lemma LostAfterRestart(t: Tree, rows: Rows, resource: string)
    requires UserCoherent(t, rows) && Addressable(resource) && resource != "" && Writable(t, TreePath(resource))
    ensures var u, p := TreeOf(rows), TreePath(resource);
      && p !in u.dirs && (p in u.files <==> resource in rows)
      && (resource in rows ==> u.files[p] == rows[resource])
  {
    StoredIsFile(t, rows, resource);
    FilesAfterRestart(t, rows);
    DirsAfterRestart(t, rows, TreePath(resource));
  }
}
