/** What PUT, DELETE and MKCOL come to: the precondition decided as RFC 9110 asks, what is stored, what is
    answered, and what later requests see of it. */
module CalDavUpdates {
  import opened Text
  import opened Paths
  import opened EntityTags
  import opened FileTree
  import opened CalDav
  import opened CalDavRuns

  function Stored(rows: Rows, resource: string): Option<Bytes> {
    if resource in rows then Some(rows[resource]) else None
  }

  // ----- the precondition -----

  lemma PassesExact(rows: Rows, resource: string, req: Request, digest: Digest, field: IfMatchField)
    requires WellFormedField(field) && req.ifMatch == FieldText(field) && PrintsHex(digest)
    requires req.verb.Put? || req.verb.Delete?
    ensures var found := resource in rows;
      PassesIfMatch(req, found, if found then rows[resource] else [], digest) <==>
      Holds(field, Stored(rows, resource), digest)
  {
    var found := resource in rows;
    FieldDecision(field, found, if found then rows[resource] else [], digest);
  }

  /** An update whose condition does not hold is answered with 412 and changes nothing. */
  lemma UserRefused(t: Tree, rows: Rows, resource: string, req: Request, digest: Digest, field: IfMatchField)
    requires resource != "" && PrintsHex(digest) && !req.env.lookupFails && (req.verb.Put? || req.verb.Delete?)
    requires WellFormedField(field) && req.ifMatch == FieldText(field) && !Holds(field, Stored(rows, resource), digest)
    ensures UserServe(t, rows, resource, req, digest) == UserStep(t, rows, Response(412, [], None))
  {
    PassesExact(rows, resource, req, digest, field);
  }

  /** A PUT whose condition holds stores its body if a collection is there to hold the file and none is in
      its place, and is answered with the tag of the body. */
  lemma UserPutServed(t: Tree, rows: Rows, resource: string, put: Request, digest: Digest, field: IfMatchField)
    requires UserCoherent(t, rows) && CleanResource(resource) && PrintsHex(digest) && Undisturbed(put) && put.verb.Put?
    requires WellFormedField(field) && put.ifMatch == FieldText(field) && Holds(field, Stored(rows, resource), digest)
    ensures var s, p := UserServe(t, rows, resource, put, digest), TreePath(resource);
      if p != [] && p[..|p| - 1] in t.dirs && p !in t.dirs
      then
        && s.tree == Tree(t.dirs, t.files[p := put.body]) && s.rows == rows[resource := put.body]
        && s.response == Response(if resource in rows then 204 else 201, [], Some("\"" + digest(put.body) + "\""))
      else if p in t.dirs && put.body == [] && put.env.emptyPutAccepted
      then s.tree == t && s.rows == rows[resource := []] && s.response.status == 201
      else s.tree == t && s.rows == rows && (s.response.status == 405 || s.response.status == 409)
  {
    CleanTreePath(resource);
    StoredIsFile(t, rows, resource);
    PassesExact(rows, resource, put, digest, field);
  }

  /** A DELETE whose condition holds removes what is at the path and below it from the tree, and the row of
      the path from the store, if there is anything at the path. */
  lemma UserDeleteServed(t: Tree, rows: Rows, resource: string, del: Request, digest: Digest, field: IfMatchField)
    requires UserCoherent(t, rows) && CleanResource(resource) && PrintsHex(digest) && Undisturbed(del)
    requires del.verb.Delete?
    requires WellFormedField(field) && del.ifMatch == FieldText(field) && Holds(field, Stored(rows, resource), digest)
    ensures var s, p := UserServe(t, rows, resource, del, digest), TreePath(resource);
      if p in t.dirs || resource in rows
      then
        && (forall q :: q in s.tree.files <==> q in t.files && !(|p| <= |q| && q[..|p|] == p))
        && (forall q :: q in s.tree.dirs <==> q in t.dirs && !(|p| <= |q| && q[..|p|] == p))
        && (forall q :: q in s.tree.files ==> s.tree.files[q] == t.files[q])
        && s.rows == rows - {resource} && s.response == Response(204, [], None)
      else s == UserStep(t, rows, Response(404, [], None))
  {
    CleanTreePath(resource);
    StoredIsFile(t, rows, resource);
    PassesExact(rows, resource, del, digest, field);
    DeleteStep(t, rows, resource, del, digest);
    RemoveAllExact(t, TreePath(resource));
  }

  lemma DeleteStep(t: Tree, rows: Rows, resource: string, del: Request, digest: Digest)
    requires resource != "" && TreePath(resource) != [] && del.verb.Delete? && Undisturbed(del)
    requires PassesIfMatch(del, resource in rows, if resource in rows then rows[resource] else [], digest)
    ensures UserServe(t, rows, resource, del, digest) ==
            if TreePath(resource) in t.dirs || TreePath(resource) in t.files
            then UserStep(RemoveAll(t, TreePath(resource)), rows - {resource}, Response(204, [], None))
            else UserStep(t, rows, Response(404, [], None))
  {
  }

  lemma RemoveAllExact(t: Tree, p: Path)
    ensures var u := RemoveAll(t, p);
      && (forall q :: q in u.files <==> q in t.files && !(|p| <= |q| && q[..|p|] == p))
      && (forall q :: q in u.dirs <==> q in t.dirs && !(|p| <= |q| && q[..|p|] == p))
      && (forall q :: q in u.files ==> u.files[q] == t.files[q])
  {
  }

  /** An update of a stored resource, or one that carries an If-Match: it goes through exactly when the
      condition holds, whatever the field: absent, `*` or a list of tags. It then writes the body or
      removes the row, and otherwise it is answered with 412 and changes neither tree nor rows. */
  lemma UserUpdateExact(t: Tree, rows: Rows, resource: string, req: Request, digest: Digest, field: IfMatchField)
    requires UserCoherent(t, rows) && Addressable(resource) && resource != "" && PrintsHex(digest) && Undisturbed(req)
    requires (req.verb.Put? || req.verb.Delete?) && (resource in rows || field != Absent)
    requires WellFormedField(field) && req.ifMatch == FieldText(field)
    ensures var s, holds := UserServe(t, rows, resource, req, digest), Holds(field, Stored(rows, resource), digest);
      && (Successful(s.response.status) <==> holds)
      && (holds ==> s.rows == if req.verb.Put? then rows[resource := req.body] else rows - {resource})
      && (!holds ==> s == UserStep(t, rows, Response(412, [], None)))
  {
    FieldDecision(field, false, [], digest);
    if Holds(field, Stored(rows, resource), digest) {
      StoredIsFile(t, rows, resource);
      CleanTreePath(resource);
      if req.verb.Put? {
        UserPutServed(t, rows, resource, req, digest, field);
      } else {
        UserDeleteServed(t, rows, resource, req, digest, field);
      }
    } else {
      UserRefused(t, rows, resource, req, digest, field);
    }
  }

  /** The same for the handler: in a coherent state an undisturbed update with any If-Match field decides
      as section 13.1.1 of RFC 9110 asks, and a refused one leaves the user's tree and all rows alone. */
  lemma UpdateExact(st: State, req: Request, cfg: Config, field: IfMatchField)
    requires Coherent(st) && PrintsHex(cfg.digest) && ResourceOf(req, cfg) != "" && Undisturbed(req)
    requires req.verb.Put? || req.verb.Delete?
    requires ResourceOf(req, cfg) in UserRows(st, Addressee(req, cfg)) || field != Absent
    requires WellFormedField(field) && req.ifMatch == FieldText(field)
    ensures var o, user, resource := Serve(st, req, cfg), Addressee(req, cfg), ResourceOf(req, cfg);
      var rows := UserRows(st, user);
      var holds := Holds(field, Stored(rows, resource), cfg.digest);
      && (Successful(o.response.status) <==> holds)
      && (holds ==> UserRows(o.state, user) == if req.verb.Put? then rows[resource := req.body] else rows - {resource})
      && (!holds ==>
            && o.response == Response(412, [], None) && o.state.rows == st.rows
            && Some(o.state.trees[user]) == Loaded(st, user))
  {
    var user := Addressee(req, cfg);
    ServeSeen(st, req, cfg);
    UserUpdateExact(Loaded(st, user).value, UserRows(st, user), ResourceOf(req, cfg), req, cfg.digest, field);
  }

  /** A place in the tree where a new file can go. */
  predicate Room(t: Tree, p: Path) {
    p != [] && p[..|p| - 1] in t.dirs && p !in t.dirs
  }

  lemma UserNewPut(t: Tree, rows: Rows, resource: string, put: Request, digest: Digest)
    requires UserCoherent(t, rows) && CleanResource(resource) && PrintsHex(digest) && Undisturbed(put)
    requires put.verb.Put? && put.ifMatch == "" && resource !in rows
    ensures var s, p := UserServe(t, rows, resource, put, digest), TreePath(resource);
      var accepted := Room(t, p) || (p in t.dirs && put.body == [] && put.env.emptyPutAccepted);
      && (s.response.status == 201 <==> accepted)
      && s.rows == if accepted then rows[resource := put.body] else rows
  {
    UserPutServed(t, rows, resource, put, digest, Absent);
  }

  lemma UserNewDelete(t: Tree, rows: Rows, resource: string, del: Request, digest: Digest)
    requires UserCoherent(t, rows) && CleanResource(resource) && Undisturbed(del)
    requires del.verb.Delete? && del.ifMatch == "" && resource !in rows
    ensures var s, p := UserServe(t, rows, resource, del, digest), TreePath(resource);
      (s.response.status == 204 <==> p in t.dirs) && s.rows == rows
  {
    CleanTreePath(resource);
    StoredIsFile(t, rows, resource);
    DeleteStep(t, rows, resource, del, digest);
    assert rows - {resource} == rows;
  }

  /** An unconditional update of what is not stored: a PUT is stored exactly if there is room for the file,
      or nothing is put onto a collection and the library accepts that; a DELETE succeeds exactly on a
      collection and leaves the rows. */
  lemma NewResourceExact(st: State, req: Request, cfg: Config)
    requires Coherent(st) && PrintsHex(cfg.digest) && CleanResource(ResourceOf(req, cfg)) && Undisturbed(req)
    requires req.ifMatch == "" && ResourceOf(req, cfg) !in UserRows(st, Addressee(req, cfg))
    ensures var o, user, resource := Serve(st, req, cfg), Addressee(req, cfg), ResourceOf(req, cfg);
      var t, rows, p := Loaded(st, user).value, UserRows(st, user), TreePath(resource);
      var accepted := Room(t, p) || (p in t.dirs && req.body == [] && req.env.emptyPutAccepted);
      && (req.verb.Put? ==> (o.response.status == 201 <==> accepted))
      && (req.verb.Put? ==> UserRows(o.state, user) == if accepted then rows[resource := req.body] else rows)
      && (req.verb.Delete? ==> (o.response.status == 204 <==> p in t.dirs) && UserRows(o.state, user) == rows)
  {
    ServeSeen(st, req, cfg);
    var t, rows := Loaded(st, Addressee(req, cfg)).value, UserRows(st, Addressee(req, cfg));
    if req.verb.Put? {
      UserNewPut(t, rows, ResourceOf(req, cfg), req, cfg.digest);
    } else if req.verb.Delete? {
      UserNewDelete(t, rows, ResourceOf(req, cfg), req, cfg.digest);
    }
  }

  // ----- failures -----

  /** A failing listing or lookup is answered with 500, an unreadable body with 400; none of them changes
      the rows or the user's tree. */
  lemma FailuresAnswered(st: State, req: Request, cfg: Config)
    requires Coherent(st)
    ensures !Listed(st, req, cfg) ==> Serve(st, req, cfg) == Outcome(st, Response(500, [], None))
    ensures Listed(st, req, cfg) && ResourceOf(req, cfg) != "" && req.env.lookupFails ==>
              var o := Serve(st, req, cfg);
              && o.response == Response(500, [], None) && o.state.rows == st.rows
              && Some(o.state.trees[Addressee(req, cfg)]) == Loaded(st, Addressee(req, cfg))
    ensures Listed(st, req, cfg) && ResourceOf(req, cfg) != "" && !req.env.lookupFails && req.verb.Put?
            && req.ifMatch == "" && req.env.bodyFails ==>
              var o := Serve(st, req, cfg);
              && o.response == Response(400, [], None) && o.state.rows == st.rows
              && Some(o.state.trees[Addressee(req, cfg)]) == Loaded(st, Addressee(req, cfg))
  {
    if Listed(st, req, cfg) {
      ServeSeen(st, req, cfg);
    }
  }

  // ----- what later requests see -----

  /** What a successful DELETE removed the next GET does not find, unless the DELETE dropped files. */
  lemma DeleteThenGet(st: State, del: Request, get: Request, cfg: Config)
    requires Coherent(st) && del.verb.Delete? && get.verb.Get? && get.path == del.path
    requires Undisturbed(del) && Undisturbed(get)
    ensures var after := Serve(st, del, cfg);
      Successful(after.response.status) ==>
        && Serve(after.state, get, cfg).response == Response(404, [], None)
        && ResourceOf(del, cfg) !in UserRows(after.state, Addressee(del, cfg))
  {
    var user, resource := Addressee(del, cfg), ResourceOf(del, cfg);
    ServeSeen(st, del, cfg);
    var t, rows := Loaded(st, user).value, UserRows(st, user);
    var s := UserServe(t, rows, resource, del, cfg.digest);
    if Successful(s.response.status) {
      DeletedGone(t, rows, resource, del, cfg.digest);
      UserGet(s.tree, s.rows, resource, get, cfg.digest);
      ServeAnswers(Serve(st, del, cfg).state, get, cfg, s.tree, s.rows);
    }
  }

  lemma DeletedGone(t: Tree, rows: Rows, resource: string, del: Request, digest: Digest)
    requires del.verb.Delete? && Undisturbed(del)
    requires Successful(UserServe(t, rows, resource, del, digest).response.status)
    ensures var s, p := UserServe(t, rows, resource, del, digest), TreePath(resource);
      resource != "" && p !in s.tree.files && p !in s.tree.dirs && resource !in s.rows
  {
    assert TreePath(resource)[..|TreePath(resource)|] == TreePath(resource);
  }

  /** A successful MKCOL makes a collection that takes files: an unconditional PUT right below it is
      stored and answered with 201. */
  lemma MkcolThenPut(st: State, mk: Request, put: Request, file: string, cfg: Config)
    requires Coherent(st) && mk.verb.Mkcol? && put.verb.Put? && Undisturbed(mk) && Undisturbed(put) && put.ifMatch == ""
    requires ResourceOf(mk, cfg) != "" && ResourceOf(put, cfg) != "" && Addressee(put, cfg) == Addressee(mk, cfg)
    requires TreePath(ResourceOf(put, cfg)) == TreePath(ResourceOf(mk, cfg)) + [file]
    ensures var made := Serve(st, mk, cfg);
      made.response.status == 201 ==>
        var o := Serve(made.state, put, cfg);
        && o.response.status == 201
        && Stored(UserRows(o.state, Addressee(put, cfg)), ResourceOf(put, cfg)) == Some(put.body)
  {
    var user, dir := Addressee(mk, cfg), TreePath(ResourceOf(mk, cfg));
    ServeSeen(st, mk, cfg);
    var t, rows := Loaded(st, user).value, UserRows(st, user);
    var made := Serve(st, mk, cfg).state;
    if Serve(st, mk, cfg).response.status == 201 {
      MkcolMakesRoom(t, rows, ResourceOf(mk, cfg), mk, cfg.digest, file);
      var u := UserServe(t, rows, ResourceOf(mk, cfg), mk, cfg.digest).tree;
      UserPutWritable(u, rows, ResourceOf(put, cfg), put, cfg.digest);
      ServeUnfolds(made, put, cfg);
    }
  }

  lemma MkcolMakesRoom(t: Tree, rows: Rows, resource: string, mk: Request, digest: Digest, file: string)
    requires ValidTree(t) && mk.verb.Mkcol? && resource != "" && Undisturbed(mk)
    requires UserServe(t, rows, resource, mk, digest).response.status == 201
    ensures var s, p := UserServe(t, rows, resource, mk, digest), TreePath(resource) + [file];
      Writable(s.tree, p) && p !in s.tree.files && s.rows == rows
  {
    var dir, p := TreePath(resource), TreePath(resource) + [file];
    assert Parent(p) == dir;
    assert |p| == |dir| + 1;
  }
}
