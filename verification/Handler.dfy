/** The mutable CalDAV handler: one hydrated file system per user in front of the resource store.
    Its request method refines the step function of the state machine. */
module Handler {
  import opened Text
  import opened Paths
  import opened EntityTags
  import opened FileTree
  import opened CalDav
  import Runs = CalDavRuns
  import ResourceStores

  /** The response writer that remembers the status and overrides the entity tag. */
  class StatusRecorder {
    const etagOverride: Option<string>
    var statusCode: int
    var wroteHeader: bool
    var etag: Option<string>
    var sent: Bytes

    constructor (etagOverride: Option<string>)
      ensures this.etagOverride == etagOverride
      ensures statusCode == 0 && !wroteHeader && etag == None && sent == []
    {
      this.etagOverride := etagOverride;
      statusCode, wroteHeader, etag, sent := 0, false, None, [];
    }

    method WriteHeader(status: int)
      modifies this
      ensures statusCode == status && wroteHeader && sent == old(sent)
      ensures etag == if etagOverride.Some? then etagOverride else old(etag)
    {
      if etagOverride.Some? {
        etag := etagOverride;
      }
      statusCode, wroteHeader := status, true;
    }

    method Write(p: Bytes)
      modifies this
      ensures wroteHeader && sent == old(sent) + p
      ensures statusCode == if old(wroteHeader) then old(statusCode) else 200
      ensures etag == if !old(wroteHeader) && etagOverride.Some? then etagOverride else old(etag)
    {
      if !wroteHeader {
        WriteHeader(200);
      }
      sent := sent + p;
    }
  }

  /** The tree's answer to one request, written through the recorder. */
  method ServeDav(recorder: StatusRecorder, fs: MemFS, req: Request, path: Path)
    requires !recorder.wroteHeader && recorder.sent == [] && recorder.etag == None
    modifies recorder, fs
    ensures var d := Dav(old(fs.tree), req, path);
      fs.tree == d.tree && recorder.statusCode == d.status && recorder.sent == d.body
    ensures recorder.etag == recorder.etagOverride
  {
    var d := Dav(fs.tree, req, path);
    fs.tree := d.tree;
    recorder.WriteHeader(d.status);
    if d.body != [] {
      recorder.Write(d.body);
    }
  }

  class RequestContext {
    const userKey: string
    const resourcePath: string
    const userHandler: MemFS
    const handlerPath: string
    var content: Bytes
    var found: bool
    var requestBody: Bytes
    var responseETag: Option<string>

    constructor (userKey: string, resourcePath: string, userHandler: MemFS)
      ensures this.userKey == userKey && this.resourcePath == resourcePath && this.userHandler == userHandler
      ensures handlerPath == ToHandlerPath(resourcePath)
      ensures responseETag == None
    {
      this.userKey, this.resourcePath, this.userHandler := userKey, resourcePath, userHandler;
      handlerPath := ToHandlerPath(resourcePath);
      content, found, requestBody, responseETag := [], false, [], None;
    }
  }

  method PrepareRequestBodyAndResponseETag(ctx: RequestContext, req: Request, digest: Digest) returns (ok: bool)
    requires ctx.responseETag == None
    modifies ctx`requestBody, ctx`responseETag
    ensures ok <==> !(req.verb.Put? && req.env.bodyFails)
    ensures ok && req.verb.Put? ==> ctx.requestBody == req.body
    ensures ok ==> ctx.responseETag == ResponseETag(req, ctx.found, ctx.content, digest)
  {
    if ctx.found && (req.verb.Get? || req.verb.Head?) {
      ctx.responseETag := Some(EntityTags.ResourceETag(ctx.content, digest));
    }
    if !req.verb.Put? {
      return true;
    }
    if req.env.bodyFails {
      return false;
    }
    ctx.requestBody := req.body;
    ctx.responseETag := Some(EntityTags.ResourceETag(ctx.requestBody, digest));
    return true;
  }

  ghost function Trees(handlers: map<string, MemFS>): map<string, Tree>
    reads handlers.Values
  {
    map u | u in handlers :: handlers[u].tree
  }

  lemma TreesUpdate(handlers: map<string, MemFS>, user: string, fs: MemFS)
    ensures Trees(handlers[user := fs]) == Trees(handlers)[user := fs.tree]
  {
  }

  /** No two users share a file system. */
  ghost predicate Separate(handlers: map<string, MemFS>) {
    forall u, v :: u in handlers && v in handlers && u != v ==> handlers[u] != handlers[v]
  }

  /** Changing one user's file system changes that user's tree only. */
  lemma OneTreeChanges(before: map<string, Tree>, handlers: map<string, MemFS>, user: string)
    requires before.Keys == handlers.Keys && user in handlers
    requires forall u :: u in handlers && u != user ==> handlers[u].tree == before[u]
    ensures Trees(handlers) == before[user := handlers[user].tree]
  {
  }

  class PersistingHandler {
    const store: ResourceStores.ResourceStore
    const cfg: Runs.Config
    var handlers: map<string, MemFS>

    /** The handler's abstract state: the trees of the loaded users and the stored rows. */
    ghost function Abstract(): Runs.State
      reads this, store.Repr(), handlers.Values
    {
      Runs.State(Trees(handlers), store.Contents())
    }

    /** Each user has a file system of their own, and the store holds clean paths only. */
    ghost predicate Valid()
      reads this, store.Repr(), handlers.Values
    {
      Separate(handlers) && store.Valid() && CleanData(store.Contents())
    }

    constructor Empty(store: ResourceStores.ResourceStore, cfg: Runs.Config)
      requires store.Valid() && CleanData(store.Contents())
      ensures Valid() && this.store == store && this.cfg == cfg && handlers == map[]
      ensures Abstract() == Runs.State(map[], store.Contents())
    {
      this.store, this.cfg, handlers := store, cfg, map[];
    }

    /** The rows of the user, listed in any order, as a file system; null if they cannot be listed or do
        not fit into a tree. */
    method HydrateUser(user: string, listFails: bool) returns (fs: MemFS?)
      requires store.Valid() && CleanRows(RowsOf(store.Contents(), user))
      ensures fs == null <==> listFails || !PrefixFreeRows(RowsOf(old(store.Contents()), user))
      ensures fs != null ==> fresh(fs) && fs.tree == TreeOf(RowsOf(old(store.Contents()), user))
    {
      var memFS := new MemFS();
      var resources := store.ListResources(user, listFails);
      if resources == None {
        return null;
      }
      HydrationOrderIndependent(resources.value, RowsOf(store.Contents(), user));
      var ok := memFS.HydrateFrom(resources.value);
      return if ok then memFS else null;
    }

    /** Hydrates a user's tree on first use; a failed hydration caches nothing. */
    method GetUserHandler(user: string, listFails: bool) returns (handler: MemFS?)
      requires Separate(handlers) && store.Valid() && CleanRows(RowsOf(store.Contents(), user))
      modifies `handlers
      ensures Separate(handlers)
      ensures user in old(handlers) ==> handler == old(handlers)[user]
      ensures user !in old(handlers) ==>
                (handler == null <==> listFails || !PrefixFreeRows(RowsOf(old(store.Contents()), user)))
      ensures user !in old(handlers) && handler != null ==>
                fresh(handler) && handler.tree == TreeOf(RowsOf(old(store.Contents()), user))
      ensures handlers == if handler == null then old(handlers) else old(handlers)[user := handler]
    {
      if user in handlers {
        handler := handlers[user];
        assert handlers[user := handler] == handlers;
        return;
      }
      handler := HydrateUser(user, listFails);
      if handler == null {
        return null;
      }
      handlers := handlers[user := handler];
    }

    method LoadCurrentResource(ctx: RequestContext, fails: bool) returns (ok: bool)
      requires store.Valid()
      modifies ctx`content, ctx`found
      ensures ok == !fails && store.Valid() && store.Contents() == old(store.Contents())
      ensures var rows := RowsOf(old(store.Contents()), ctx.userKey);
        ok ==>
          && (ctx.found <==> ctx.resourcePath in rows)
          && ctx.content == if ctx.found then rows[ctx.resourcePath] else []
    {
      var read, content, found := store.GetResource(ctx.userKey, ctx.resourcePath, fails);
      if !read {
        return false;
      }
      ctx.content, ctx.found := content, found;
      return true;
    }

    /** The store's error, if any, is discarded. */
    method PersistMutation(ctx: RequestContext, req: Request)
      requires store.Valid()
      requires req.verb.Put? ==> ctx.requestBody == req.body
      modifies store.Repr()
      ensures store.Valid()
      ensures var rows := RowsOf(old(store.Contents()), ctx.userKey);
        var after := if req.env.persistFails then rows else Persisted(rows, ctx.resourcePath, req);
        store.Contents() == Runs.StoreAfter(old(store.Contents()), ctx.userKey, rows, after)
    {
      StoreAfterExact(store.Contents(), ctx.userKey, ctx.resourcePath, ctx.requestBody);
      match req.verb {
        case Put => var _ := store.PutResource(ctx.userKey, ctx.resourcePath, ctx.requestBody, req.env.persistFails);
        case Delete => var _ := store.DeleteResource(ctx.userKey, ctx.resourcePath, req.env.persistFails);
        case _ =>
      }
    }

    /** Everything after the user's tree is at hand. */
    method ServeUser(ctx: RequestContext, req: Request) returns (response: Response)
      requires store.Valid() && ctx.responseETag == None
      requires ctx.resourcePath != "" ==> Segments(TrimPrefix(ctx.handlerPath, PREFIX)) == TreePath(ctx.resourcePath)
      modifies ctx, ctx.userHandler, store.Repr()
      ensures store.Valid()
      ensures var rows := RowsOf(old(store.Contents()), ctx.userKey);
        var s := UserServe(old(ctx.userHandler.tree), rows, ctx.resourcePath, req, cfg.digest);
        && response == s.response
        && ctx.userHandler.tree == s.tree
        && store.Contents() == Runs.StoreAfter(old(store.Contents()), ctx.userKey, rows, s.rows)
    {
      if ctx.resourcePath == "" {
        var plain := new StatusRecorder(None);
        ServeDav(plain, ctx.userHandler, req, []);
        return Response(plain.statusCode, plain.sent, plain.etag);
      }
      var loaded := LoadCurrentResource(ctx, req.env.lookupFails);
      if !loaded {
        return Response(500, [], None);
      }
      if !PassesIfMatch(req, ctx.found, ctx.content, cfg.digest) {
        return Response(412, [], None);
      }
      var prepared := PrepareRequestBodyAndResponseETag(ctx, req, cfg.digest);
      if !prepared {
        return Response(400, [], None);
      }
      var recorder := new StatusRecorder(ctx.responseETag);
      ServeDav(recorder, ctx.userHandler, req, Segments(TrimPrefix(ctx.handlerPath, PREFIX)));
      response := Response(recorder.statusCode, recorder.sent, recorder.etag);
      if Successful(recorder.statusCode) {
        PersistMutation(ctx, req);
      }
    }

    /** The same for one of the loaded users: only this user's tree and rows change. */
    method ServeLoaded(user: string, resource: string, req: Request) returns (response: Response)
      requires Separate(handlers) && store.Valid() && user in handlers
      requires resource != "" ==> Segments(TrimPrefix(ToHandlerPath(resource), PREFIX)) == TreePath(resource)
      modifies handlers[user], store.Repr()
      ensures store.Valid()
      ensures var rows := RowsOf(old(store.Contents()), user);
        var s := UserServe(old(handlers[user].tree), rows, resource, req, cfg.digest);
        && response == s.response
        && Trees(handlers) == old(Trees(handlers))[user := s.tree]
        && store.Contents() == Runs.StoreAfter(old(store.Contents()), user, rows, s.rows)
    {
      var fs := handlers[user];
      var ctx := new RequestContext(user, resource, fs);
      response := ServeUser(ctx, req);
      OneTreeChanges(old(Trees(handlers)), handlers, user);
    }

    /** The file system of the addressed user, loaded if need be; null if the step function finds none. */
    method LoadAddressee(req: Request) returns (userHandler: MemFS?)
      requires Valid()
      modifies `handlers
      ensures Separate(handlers) && store.Valid() && store.Contents() == old(store.Contents())
      ensures var before, user := old(Abstract()), Runs.Addressee(req, cfg);
        if userHandler == null
        then handlers == old(handlers) && (!Runs.Listed(before, req, cfg) || Runs.Loaded(before, user) == None)
        else
          && handlers == old(handlers)[user := userHandler]
          && (if user in old(handlers) then userHandler == old(handlers)[user] else fresh(userHandler))
          && Runs.Listed(before, req, cfg) && Runs.Loaded(before, user) == Some(userHandler.tree)
          && Trees(handlers) == before.trees[user := userHandler.tree]
    {
      // Which rows fit into a tree, and what tree they give, plays no part here.
      hide PrefixFreeRows, TreeOf;
      var user := Runs.Addressee(req, cfg);
      assert CleanRows(RowsOf(store.Contents(), user));
      Runs.LoadedCases(Abstract(), user);
      assert user in Abstract().trees <==> user in handlers;
      userHandler := GetUserHandler(user, req.env.listFails);
      if userHandler != null {
        TreesUpdate(old(handlers), user, userHandler);
      }
    }

    /** One request. The state after it and the response are those of the step function. */
    method ServeHTTP(req: Request) returns (response: Response)
      requires Valid()
      modifies this, store.Repr(), handlers.Values
      ensures Valid()
      ensures response == Runs.Serve(old(Abstract()), req, cfg).response
      ensures Abstract() == Runs.Serve(old(Abstract()), req, cfg).state
    {
      // Nor does what the tree answers.
      hide PrefixFreeRows, TreeOf, UserServe;
      var userHandler := LoadAddressee(req);
      if userHandler == null {
        return Response(500, [], None);
      }
      SeesHydrated(req, cfg);
      LoadedStep(old(Abstract()), userHandler.tree, req, cfg);
      response := ServeLoaded(Runs.Addressee(req, cfg), Runs.ResourceOf(req, cfg), req);
    }
  }

  /** The handler looks at the tree path that hydration used. */
  lemma SeesHydrated(req: Request, cfg: Runs.Config)
    ensures var resource := Runs.ResourceOf(req, cfg);
      && Addressable(resource)
      && (resource != "" ==> Segments(TrimPrefix(ToHandlerPath(resource), PREFIX)) == TreePath(resource))
  {
    Runs.Addressables(req, cfg);
    if Runs.ResourceOf(req, cfg) != "" {
      HandlerSeesHydratedPath(req.path, cfg.defaultUser);
    }
  }

  /** Serving from the user's loaded tree is serving from the state before loading. */
  lemma LoadedStep(before: Runs.State, t: Tree, req: Request, cfg: Runs.Config)
    requires CleanData(before.rows) && Runs.Listed(before, req, cfg)
    requires Runs.Loaded(before, Runs.Addressee(req, cfg)) == Some(t)
    ensures var user, o := Runs.Addressee(req, cfg), Runs.Serve(before, req, cfg);
      var rows := RowsOf(before.rows, user);
      var s := UserServe(t, rows, Runs.ResourceOf(req, cfg), req, cfg.digest);
      && o.response == s.response
      && o.state.trees == before.trees[user := t][user := s.tree]
      && o.state.rows == Runs.StoreAfter(before.rows, user, rows, s.rows)
  {
    var user := Runs.Addressee(req, cfg);
    var s := UserServe(t, RowsOf(before.rows, user), Runs.ResourceOf(req, cfg), req, cfg.digest);
    assert before.trees[user := t][user := s.tree] == before.trees[user := s.tree];
  }

  lemma StoreAfterExact(data: Data, user: string, path: string, content: Bytes)
    ensures var rows := RowsOf(data, user);
      && Runs.StoreAfter(data, user, rows, rows[path := content]) == ResourceStores.PutData(data, user, path, content)
      && Runs.StoreAfter(data, user, rows, rows - {path}) == ResourceStores.DeleteData(data, user, path)
  {
    var rows := RowsOf(data, user);
    if rows[path := content] == rows {
      assert path in rows;
      assert data[user := data[user]] == data;
    }
    if rows - {path} == rows && user in data {
      assert data[user := data[user]] == data;
    }
  }

  /** `NewHandler`: no store, or a default user whose rows cannot be listed or hydrated, is an error. */
  method NewHandler(store: Option<ResourceStores.ResourceStore>, userKey: string, digest: Digest, listFails: bool)
    returns (handler: PersistingHandler?)
    requires store.Some? ==> store.value.Valid() && CleanData(store.value.Contents())
    ensures handler == null <==>
            store == None || listFails
            || !PrefixFreeRows(RowsOf(store.value.Contents(), if userKey == "" then "default" else userKey))
    ensures handler != null ==> handler.Valid() && Some(handler.store) == store
    ensures handler != null ==> handler.cfg == Runs.Config(if userKey == "" then "default" else userKey, digest)
    ensures handler != null && Runs.Coherent(Runs.State(map[], handler.store.Contents())) ==>
            Runs.Coherent(handler.Abstract())
  {
    if store == None {
      return null;
    }
    var key := if userKey == "" then "default" else userKey;
    var h := new PersistingHandler.Empty(store.value, Runs.Config(key, digest));
    var warm := h.GetUserHandler(key, listFails);
    if warm == null {
      return null;
    }
    ghost var start := Runs.State(map[], store.value.Contents());
    TreesUpdate(map[], key, warm);
    if Runs.Coherent(start) {
      Runs.LoadedCoherent(start, key);
      assert forall u :: Runs.UserRows(h.Abstract(), u) == Runs.UserRows(start, u);
    }
    return h;
  }
}
