/** Whole runs of the CalDAV handler over all users: coherence of cache and store, isolation of
    users, restart transparency and conditional updates. */
module CalDavRuns {
  import opened Text
  import opened Paths
  import opened EntityTags
  import opened FileTree
  import opened CalDav

  /** The cached trees of the users seen so far, and the stored rows of all users. */
  datatype State = State(trees: map<string, Tree>, rows: Data)

  /** What never changes during a run. */
  datatype Config = Config(defaultUser: string, digest: Digest)

  datatype Outcome = Outcome(state: State, response: Response)

  function UserRows(st: State, user: string): Rows {
    RowsOf(st.rows, user)
  }

  function Addressee(req: Request, cfg: Config): string {
    NormalizeResourcePath(req.path, cfg.defaultUser).0
  }

  function ResourceOf(req: Request, cfg: Config): string {
    NormalizeResourcePath(req.path, cfg.defaultUser).1
  }

  lemma Addressables(req: Request, cfg: Config)
    ensures Addressable(ResourceOf(req, cfg))
  {
    if ResourceOf(req, cfg) != "" {
      ResultOrdinaryExact(req.path, cfg.defaultUser);
    }
  }

  /** The user's tree, hydrated from the rows on first use; none if hydration fails. */
  ghost function Loaded(st: State, user: string): Option<Tree>
    requires CleanData(st.rows)
  {
    if user in st.trees then Some(st.trees[user])
    else if PrefixFreeRows(UserRows(st, user)) then Some(TreeOf(UserRows(st, user)))
    else None
  }

  /** The user's tree is cached, or the store lists the rows to build it from. */
  predicate Listed(st: State, req: Request, cfg: Config) {
    Addressee(req, cfg) in st.trees || !req.env.listFails
  }

  function StoreAfter(rows: Data, user: string, before: Rows, after: Rows): Data {
    if before == after then rows else rows[user := after]
  }

  ghost function Serve(st: State, req: Request, cfg: Config): (o: Outcome)
    requires CleanData(st.rows)
    ensures CleanData(o.state.rows)
  {
    var user, resource := Addressee(req, cfg), ResourceOf(req, cfg);
    if !Listed(st, req, cfg) || Loaded(st, user) == None then Outcome(st, Response(500, [], None))
    else
      var t := Loaded(st, user).value;
      var s := UserServe(t, UserRows(st, user), resource, req, cfg.digest);
      UserServeClean(t, UserRows(st, user), req, cfg);
      Outcome(State(st.trees[user := s.tree], StoreAfter(st.rows, user, UserRows(st, user), s.rows)), s.response)
  }

  lemma UserServeClean(t: Tree, rows: Rows, req: Request, cfg: Config)
    requires CleanRows(rows)
    ensures CleanRows(UserServe(t, rows, ResourceOf(req, cfg), req, cfg.digest).rows)
  {
    Addressables(req, cfg);
  }

  // ----- coherence -----

  ghost predicate Coherent(st: State) {
    && CleanData(st.rows)
    && (forall u :: u in st.trees ==> UserCoherent(st.trees[u], UserRows(st, u)))
    && (forall u :: u in st.rows ==> PrefixFreeRows(st.rows[u]))
  }

  ghost predicate Drops(st: State, req: Request, cfg: Config) {
    Listed(st, req, cfg) && DropsFiles(UserRows(st, Addressee(req, cfg)), ResourceOf(req, cfg), req)
  }

  /** The request is served and parts the addressed user's tree from the rows. */
  ghost predicate Diverges(st: State, req: Request, cfg: Config)
    requires CleanData(st.rows)
  {
    var user := Addressee(req, cfg);
    && Listed(st, req, cfg) && Loaded(st, user).Some?
    && UserDiverges(Loaded(st, user).value, UserRows(st, user), ResourceOf(req, cfg), req, cfg.digest)
  }

  lemma LoadedCases(st: State, user: string)
    requires CleanData(st.rows)
    ensures user in st.trees ==> Loaded(st, user) == Some(st.trees[user])
    ensures user !in st.trees ==>
              Loaded(st, user) == if PrefixFreeRows(RowsOf(st.rows, user))
                then Some(TreeOf(RowsOf(st.rows, user))) else None
  {
  }

  lemma LoadedCoherent(st: State, user: string)
    requires Coherent(st)
    ensures Loaded(st, user).Some? && UserCoherent(Loaded(st, user).value, UserRows(st, user))
  {
    if user !in st.trees {
      TreeOfCoherent(UserRows(st, user));
    }
  }

  lemma ServeUnfolds(st: State, req: Request, cfg: Config)
    requires CleanData(st.rows) && Listed(st, req, cfg) && Loaded(st, Addressee(req, cfg)).Some?
    ensures var user, resource := Addressee(req, cfg), ResourceOf(req, cfg);
      var rows, o := UserRows(st, user), Serve(st, req, cfg);
      var s := UserServe(Loaded(st, user).value, rows, resource, req, cfg.digest);
      && o.response == s.response
      && Loaded(o.state, user) == Some(s.tree)
      && user in o.state.trees && o.state.trees[user] == s.tree
      && UserRows(o.state, user) == s.rows
      && (s.rows == rows ==> o.state.rows == st.rows)
  {
  }

  /** The step seen from the addressed user. */
  lemma ServeSeen(st: State, req: Request, cfg: Config)
    requires Coherent(st) && Listed(st, req, cfg)
    ensures var user, resource := Addressee(req, cfg), ResourceOf(req, cfg);
      Addressable(resource) && Loaded(st, user).Some? && UserCoherent(Loaded(st, user).value, UserRows(st, user))
    ensures var user, resource := Addressee(req, cfg), ResourceOf(req, cfg);
      var rows, o := UserRows(st, user), Serve(st, req, cfg);
      var s := UserServe(Loaded(st, user).value, rows, resource, req, cfg.digest);
      && o.response == s.response
      && user in o.state.trees && o.state.trees[user] == s.tree
      && UserRows(o.state, user) == s.rows
      && (s.rows == rows ==> o.state.rows == st.rows)
  {
    LoadedCoherent(st, Addressee(req, cfg));
    Addressables(req, cfg);
    ServeUnfolds(st, req, cfg);
  }

  /** A request touches the tree and the rows of the user it addresses and of nobody else. */
  lemma ServeIsolated(st: State, req: Request, cfg: Config, other: string)
    requires CleanData(st.rows) && other != Addressee(req, cfg)
    ensures var next := Serve(st, req, cfg).state;
      && UserRows(next, other) == UserRows(st, other)
      && (other in next.trees <==> other in st.trees)
      && (other in st.trees ==> next.trees[other] == st.trees[other])
  {
  }

  /** A request keeps cache and store in agreement, whatever fails on the way, exactly when it does not
      drop files, put a row on a collection or lose a write. */
  lemma ServeCoherenceExact(st: State, req: Request, cfg: Config)
    requires Coherent(st)
    ensures Coherent(Serve(st, req, cfg).state) <==> !Diverges(st, req, cfg)
  {
    if !Listed(st, req, cfg) {
      return;
    }
    var user, resource := Addressee(req, cfg), ResourceOf(req, cfg);
    ServeSeen(st, req, cfg);
    var t, rows := Loaded(st, user).value, UserRows(st, user);
    UserServeExact(t, rows, resource, req, cfg.digest);
    if !Diverges(st, req, cfg) {
      OthersStayCoherent(st, req, cfg);
    }
  }

  lemma OthersStayCoherent(st: State, req: Request, cfg: Config)
    requires Coherent(st)
    ensures var user, next := Addressee(req, cfg), Serve(st, req, cfg).state;
      user in next.trees && UserCoherent(next.trees[user], UserRows(next, user)) ==> Coherent(next)
  {
    var user := Addressee(req, cfg);
    var next := Serve(st, req, cfg).state;
    if user !in next.trees || !UserCoherent(next.trees[user], UserRows(next, user)) {
      return;
    }
    CoherentPrefixFree(next.trees[user], UserRows(next, user));
    forall u
      ensures u in next.trees ==> UserCoherent(next.trees[u], UserRows(next, u))
      ensures u in next.rows ==> PrefixFreeRows(next.rows[u])
    {
      if u != user {
        ServeIsolated(st, req, cfg, u);
        assert u in next.rows ==> next.rows[u] == UserRows(next, u) == UserRows(st, u);
      }
    }
  }

  // ----- runs -----

  ghost function Run(st: State, reqs: seq<Request>, cfg: Config): (end: State)
    requires CleanData(st.rows)
    ensures CleanData(end.rows)
    decreases |reqs|
  {
    if reqs == [] then st else Run(Serve(st, reqs[0], cfg).state, reqs[1..], cfg)
  }

  /** No request of the run diverges at the moment it is served. */
  ghost predicate Harmless(st: State, reqs: seq<Request>, cfg: Config)
    requires CleanData(st.rows)
    decreases |reqs|
  {
    reqs == [] || (!Diverges(st, reqs[0], cfg) && Harmless(Serve(st, reqs[0], cfg).state, reqs[1..], cfg))
  }

  ghost predicate AlwaysCoherent(st: State, reqs: seq<Request>, cfg: Config)
    requires CleanData(st.rows)
    decreases |reqs|
  {
    Coherent(st) && (reqs == [] || AlwaysCoherent(Serve(st, reqs[0], cfg).state, reqs[1..], cfg))
  }

  /** Over every run, with store failures anywhere in it: the cache agrees with the store at every point
      exactly when no request of the run drops files, puts a row on a collection or loses a write. */
  lemma {:induction false} RunCoherenceExact(st: State, reqs: seq<Request>, cfg: Config)
    requires Coherent(st)
    ensures AlwaysCoherent(st, reqs, cfg) <==> Harmless(st, reqs, cfg)
    decreases |reqs|
  {
    if reqs != [] {
      ServeCoherenceExact(st, reqs[0], cfg);
      var next := Serve(st, reqs[0], cfg).state;
      if Coherent(next) {
        RunCoherenceExact(next, reqs[1..], cfg);
      } else {
        assert !AlwaysCoherent(next, reqs[1..], cfg);
      }
    }
  }

  lemma {:induction false} HarmlessRunEndsCoherent(st: State, reqs: seq<Request>, cfg: Config)
    requires Coherent(st) && Harmless(st, reqs, cfg)
    ensures Coherent(Run(st, reqs, cfg))
    decreases |reqs|
  {
    if reqs != [] {
      ServeCoherenceExact(st, reqs[0], cfg);
      HarmlessRunEndsCoherent(Serve(st, reqs[0], cfg).state, reqs[1..], cfg);
    }
  }

  /** A run of requests addressed to other users leaves a user's tree and rows as they were, whether or
      not the run was harmless. */
  lemma {:induction false} RunIsolated(st: State, reqs: seq<Request>, cfg: Config, user: string)
    requires CleanData(st.rows)
    requires forall i :: 0 <= i < |reqs| ==> Addressee(reqs[i], cfg) != user
    ensures var end := Run(st, reqs, cfg);
      && UserRows(end, user) == UserRows(st, user)
      && (user in end.trees <==> user in st.trees)
      && (user in st.trees ==> end.trees[user] == st.trees[user])
    decreases |reqs|
  {
    if reqs != [] {
      ServeIsolated(st, reqs[0], cfg, user);
      RunIsolated(Serve(st, reqs[0], cfg).state, reqs[1..], cfg, user);
    }
  }

  // ----- reading -----

  /** In a coherent state a read that nothing outside disturbs succeeds exactly on stored resources; a
      GET serves the stored bytes, and the tag it sends is the tag of the bytes it sends. A read with an
      If-Match is judged by the library against a tag of its own, which may refuse it. */
  lemma ReadServesStore(st: State, req: Request, cfg: Config)
    requires Coherent(st) && (req.verb.Get? || req.verb.Head?) && ResourceOf(req, cfg) != "" && Undisturbed(req)
    ensures var r, resource := Serve(st, req, cfg).response, ResourceOf(req, cfg);
      var rows := UserRows(st, Addressee(req, cfg));
      && (r.status == 200 <==> resource in rows)
      && (r.status == 200 ==> r.etag == Some(ResourceETag(rows[resource], cfg.digest)))
      && (r.status == 200 && req.verb.Get? ==>
            r.body == rows[resource] && r.etag == Some(ResourceETag(r.body, cfg.digest)))
      && (req.verb.Head? ==> r.body == [])
  {
    var user := Addressee(req, cfg);
    ServeSeen(st, req, cfg);
    UserRead(Loaded(st, user).value, UserRows(st, user), ResourceOf(req, cfg), req, cfg.digest);
  }

  /** What a successful PUT stored is what the next GET of the path returns, tag included, unless the PUT
      left a row on a collection. */
  lemma PutThenGet(st: State, put: Request, get: Request, cfg: Config)
    requires Coherent(st) && put.verb.Put? && get.verb.Get? && get.path == put.path && Undisturbed(put) &&
             Undisturbed(get)
    ensures var after := Serve(st, put, cfg);
      Successful(after.response.status) && !Diverges(st, put, cfg) ==>
        Serve(after.state, get, cfg).response == Response(200, put.body, after.response.etag)
  {
    if !Successful(Serve(st, put, cfg).response.status) || Diverges(st, put, cfg) {
      return;
    }
    var user := Addressee(put, cfg);
    ServeSeen(st, put, cfg);
    ServeCoherenceExact(st, put, cfg);
    ReadServesStore(Serve(st, put, cfg).state, get, cfg);
  }

  // ----- conditional updates -----

  /** In a coherent state an If-Match made of one tag lets an update of a stored resource through
      exactly when the stored content has that tag; otherwise nothing is written. */
  lemma ConditionalStep(st: State, update: Request, cfg: Config, tagged: Bytes)
    requires Coherent(st) && PrintsHex(cfg.digest) && ResourceOf(update, cfg) != "" && Undisturbed(update)
    requires (update.verb.Put? || update.verb.Delete?) && update.ifMatch == ResourceETag(tagged, cfg.digest)
    ensures var o, resource := Serve(st, update, cfg), ResourceOf(update, cfg);
      var rows := UserRows(st, Addressee(update, cfg));
      var current := resource in rows && cfg.digest(rows[resource]) == cfg.digest(tagged);
      && (Successful(o.response.status) <==> current)
      && (!current ==> o.response.status == 412 && o.state.rows == st.rows)
      && (current ==> UserRows(o.state, Addressee(update, cfg)) == Persisted(rows, resource, update))
  {
    var user := Addressee(update, cfg);
    ServeSeen(st, update, cfg);
    UserConditional(Loaded(st, user).value, UserRows(st, user), ResourceOf(update, cfg), update, cfg.digest, tagged);
  }

  /** No lost update: read a resource, let any harmless run pass, with whatever failures in it, then
      update it with the tag read. The update goes through exactly when the content still has the tag
      that was read, so it overwrites only the bytes the reader saw unless two contents collide;
      otherwise it fails with 412 and the store is untouched. */
  lemma NoLostUpdate(st: State, read: Request, between: seq<Request>, update: Request, cfg: Config)
    requires Coherent(st) && PrintsHex(cfg.digest)
    requires read.verb.Get? && ResourceOf(read, cfg) != "" && Undisturbed(read) && Undisturbed(update)
    requires (update.verb.Put? || update.verb.Delete?) && update.path == read.path
    ensures var first := Serve(st, read, cfg);
      first.response.status == 200 && Some(update.ifMatch) == first.response.etag &&
        Harmless(first.state, between, cfg) ==>
        var later := Run(first.state, between, cfg);
        var rows, resource := UserRows(later, Addressee(update, cfg)), ResourceOf(update, cfg);
        var o := Serve(later, update, cfg);
        && (Successful(o.response.status) <==>
              resource in rows && cfg.digest(rows[resource]) == cfg.digest(first.response.body))
        && (!Successful(o.response.status) ==> o.response.status == 412 && o.state.rows == later.rows)
  {
    var out := Serve(st, read, cfg);
    if out.response.status != 200 || Some(update.ifMatch) != out.response.etag || !Harmless(out.state, between, cfg) {
      return;
    }
    ReadServesStore(st, read, cfg);
    ServeCoherenceExact(st, read, cfg);
    HarmlessRunEndsCoherent(out.state, between, cfg);
    ConditionalStep(Run(out.state, between, cfg), update, cfg, out.response.body);
  }

  // ----- restarts -----

  /** A fresh handler over the same store. */
  function Restarted(st: State): State {
    st.(trees := map[])
  }

  /** The path names a cached collection with no stored file below it. */
  ghost predicate EmptyCollection(st: State, user: string, resource: string) {
    && user in st.trees && TreePath(resource) != [] && TreePath(resource) in st.trees[user].dirs
    && !exists q :: q in UserRows(st, user) && ProperPrefix(TreePath(resource), TreePath(q))
  }

  /** A read answers the same before and after a restart, except exactly when it addresses a
      collection with no stored file below it, which the restart forgets. */
  lemma RestartExact(st: State, req: Request, cfg: Config)
    requires Coherent(st) && (req.verb.Get? || req.verb.Head?) && !req.env.listFails && !req.env.lookupFails
    ensures Coherent(Restarted(st))
    ensures Serve(Restarted(st), req, cfg).response == Serve(st, req, cfg).response <==>
            !EmptyCollection(st, Addressee(req, cfg), ResourceOf(req, cfg))
  {
    var user := Addressee(req, cfg);
    var restarted := Restarted(st);
    assert forall u :: UserRows(restarted, u) == UserRows(st, u);
    ServeSeen(st, req, cfg);
    ServeSeen(restarted, req, cfg);
    if user in st.trees {
      UserRestart(st.trees[user], UserRows(st, user), ResourceOf(req, cfg), req, cfg.digest);
    }
  }

  /** At every point of a harmless run, a fresh handler serves every stored resource with the same
      bytes and the same tag. */
  lemma RestartServesStored(st: State, reqs: seq<Request>, get: Request, cfg: Config)
    requires Coherent(st) && get.verb.Get? && ResourceOf(get, cfg) != "" && Undisturbed(get)
    ensures var end := Run(st, reqs, cfg);
      var rows, resource := UserRows(end, Addressee(get, cfg)), ResourceOf(get, cfg);
      Harmless(st, reqs, cfg) && resource in rows ==>
        && Serve(end, get, cfg).response ==
           Response(200, rows[resource], Some(ResourceETag(rows[resource], cfg.digest)))
        && Serve(Restarted(end), get, cfg).response == Serve(end, get, cfg).response
  {
    var end := Run(st, reqs, cfg);
    if !Harmless(st, reqs, cfg) || ResourceOf(get, cfg) !in UserRows(end, Addressee(get, cfg)) {
      return;
    }
    HarmlessRunEndsCoherent(st, reqs, cfg);
    assert UserRows(Restarted(end), Addressee(get, cfg)) == UserRows(end, Addressee(get, cfg));
    ReadServesStore(end, get, cfg);
    var after := Restarted(end);
    RestartExact(end, get, cfg);
    ReadServesStore(after, get, cfg);
  }

  /** What dropping files costs: after the DELETE, a PUT on the same path succeeds, and from the next
      restart on every request of that user is answered with 500. */
  lemma DropBreaksRestart(st: State, del: Request, put: Request, later: Request, cfg: Config)
    requires Coherent(st) && Drops(st, del, cfg)
    requires put.verb.Put? && put.ifMatch == "" && put.path == del.path && Undisturbed(put)
    requires Addressee(later, cfg) == Addressee(del, cfg)
    ensures var o := Serve(st, del, cfg);
      var o' := Serve(o.state, put, cfg);
      && o.response.status == 204 && o'.response.status == 201
      && Serve(Restarted(o'.state), later, cfg).response.status == 500
  {
    var user := Addressee(del, cfg);
    Addressables(del, cfg);
    LoadedCoherent(st, user);
    UserDropThenPut(Loaded(st, user).value, UserRows(st, user), ResourceOf(del, cfg), del, put, cfg.digest);
    ServeUnfolds(st, del, cfg);
    var o := Serve(st, del, cfg);
    ServeUnfolds(o.state, put, cfg);
    var o' := Serve(o.state, put, cfg);
    RestartFails(o'.state, later, cfg);
  }

  lemma RestartFails(st: State, req: Request, cfg: Config)
    requires CleanData(st.rows) && !PrefixFreeRows(UserRows(st, Addressee(req, cfg)))
    ensures Serve(Restarted(st), req, cfg).response.status == 500
  {
    assert UserRows(Restarted(st), Addressee(req, cfg)) == UserRows(st, Addressee(req, cfg));
  }

  /** What a row on a collection costs: the empty PUT is answered with 201, and if stored files lie below
      the collection, from the next restart on every request of that user is answered with 500. */
  lemma PutOnCollectionBreaksRestart(st: State, put: Request, q: string, later: Request, cfg: Config)
    requires Coherent(st) && Listed(st, put, cfg) && Addressee(later, cfg) == Addressee(put, cfg)
    requires PutsOnCollection(Loaded(st, Addressee(put, cfg)).value, ResourceOf(put, cfg), put)
    requires q in UserRows(st, Addressee(put, cfg)) && ProperPrefix(TreePath(ResourceOf(put, cfg)), TreePath(q))
    ensures var o := Serve(st, put, cfg);
      o.response.status == 201 && Serve(Restarted(o.state), later, cfg).response.status == 500
  {
    var user, resource := Addressee(put, cfg), ResourceOf(put, cfg);
    ServeSeen(st, put, cfg);
    UserPutOnto(Loaded(st, user).value, UserRows(st, user), resource, put, cfg.digest);
    var rows := UserRows(Serve(st, put, cfg).state, user);
    assert resource in rows && q in rows;
    RestartFails(Serve(st, put, cfg).state, later, cfg);
  }

  /** What a lost write costs: the PUT is answered as a success and the next GET sends the new bytes, but
      under the tag of the old ones; from the next restart on it sends the old bytes, or 404 if there
      were none. */
  lemma LostWriteUndone(st: State, put: Request, get: Request, cfg: Config)
    requires Coherent(st) && Listed(st, put, cfg) && put.verb.Put? && get.verb.Get? && get.path == put.path &&
             Undisturbed(get)
    requires var user := Addressee(put, cfg);
      LosesWrite(Loaded(st, user).value, UserRows(st, user), ResourceOf(put, cfg), put, cfg.digest)
    ensures var rows, resource := UserRows(st, Addressee(put, cfg)), ResourceOf(put, cfg);
      var tag := if resource in rows then Some(ResourceETag(rows[resource], cfg.digest)) else None;
      var o := Serve(st, put, cfg);
      && Successful(o.response.status)
      && Serve(o.state, get, cfg).response == Response(200, put.body, tag)
      && Serve(Restarted(o.state), get, cfg).response ==
         if resource in rows then Response(200, rows[resource], tag) else Response(404, [], None)
  {
    var user, resource := Addressee(put, cfg), ResourceOf(put, cfg);
    ServeSeen(st, put, cfg);
    var t, rows := Loaded(st, user).value, UserRows(st, user);
    UserLost(t, rows, resource, put, cfg.digest);
    LostAfterRestart(t, rows, resource);
    var s, after := UserServe(t, rows, resource, put, cfg.digest), Serve(st, put, cfg).state;
    ServeAnswers(after, get, cfg, s.tree, rows);
    UserGet(s.tree, rows, resource, get, cfg.digest);
    UserGet(TreeOf(rows), rows, resource, get, cfg.digest);
    assert UserRows(Restarted(after), user) == rows;
    CoherentPrefixFree(t, rows);
    ServeAnswers(Restarted(after), get, cfg, TreeOf(rows), rows);
  }

  lemma ServeAnswers(st: State, req: Request, cfg: Config, t: Tree, rows: Rows)
    requires CleanData(st.rows) && Listed(st, req, cfg)
    requires Loaded(st, Addressee(req, cfg)) == Some(t) && UserRows(st, Addressee(req, cfg)) == rows
    ensures Serve(st, req, cfg).response == UserServe(t, rows, ResourceOf(req, cfg), req, cfg.digest).response
  {
    ServeUnfolds(st, req, cfg);
  }

  const START := State(map[], map[])

  function CanonicalRequest(verb: Verb, user: string, segs: seq<string>, body: Bytes): Request {
    Request(verb, "/" + Join(["caldav", user] + segs, "/"), "", body, CALM)
  }

  lemma CanonicalAddress(verb: Verb, user: string, segs: seq<string>, body: Bytes, cfg: Config)
    requires Ordinary(user) && AllOrdinary(segs) && segs != []
    ensures var req := CanonicalRequest(verb, user, segs, body);
      Addressee(req, cfg) == user && ResourceOf(req, cfg) == Join(segs, "/")
    ensures CleanResource(Join(segs, "/")) && TreePath(Join(segs, "/")) == segs
  {
    CanonicalPath(user, segs);
    CleanJoined(segs);
  }

  lemma StartCoherent()
    ensures Coherent(START) && forall u :: Loaded(START, u) == Some(EMPTY) && UserRows(START, u) == map[]
  {
    TreeOfEmpty();
  }

  lemma UserMkcol(resource: string, dir: string, req: Request, digest: Digest)
    requires resource != "" && TreePath(resource) == [dir] && req.verb.Mkcol? && req.body == [] && !req.env.lookupFails
    ensures var s := UserServe(EMPTY, map[], resource, req, digest);
      s.tree == Tree({[], [dir]}, map[]) && s.rows == map[]
  {
    assert Parent([dir]) == [];
  }

  lemma UserPutBelow(resource: string, dir: string, file: string, req: Request, digest: Digest)
    requires resource != "" && TreePath(resource) == [dir, file] && req.verb.Put? && req.ifMatch == "" &&
             Undisturbed(req)
    ensures UserServe(Tree({[], [dir]}, map[]), map[], resource, req, digest).rows == map[resource := req.body]
  {
    assert Parent([dir, file]) == [dir];
    UserPutWritable(Tree({[], [dir]}, map[]), map[], resource, req, digest);
  }

  lemma MkcolFromStart(user: string, dir: string, cfg: Config)
    requires Ordinary(user) && Ordinary(dir)
    ensures var st := Serve(START, CanonicalRequest(Mkcol, user, [dir], []), cfg).state;
      Coherent(st) && Loaded(st, user) == Some(Tree({[], [dir]}, map[])) && UserRows(st, user) == map[]
  {
    var mk := CanonicalRequest(Mkcol, user, [dir], []);
    CanonicalAddress(Mkcol, user, [dir], [], cfg);
    StartCoherent();
    UserMkcol(Join([dir], "/"), dir, mk, cfg.digest);
    ServeUnfolds(START, mk, cfg);
    ServeCoherenceExact(START, mk, cfg);
  }

  /** A collection that a restart forgets: made from the empty store, a GET of it is answered with 405
      before the restart and with 404 after it. */
  lemma RestartForgets(user: string, dir: string, cfg: Config)
    requires Ordinary(user) && Ordinary(dir)
    ensures var st := Serve(START, CanonicalRequest(Mkcol, user, [dir], []), cfg).state;
      var get := CanonicalRequest(Get, user, [dir], []);
      Serve(st, get, cfg).response.status == 405 && Serve(Restarted(st), get, cfg).response.status == 404
  {
    var get := CanonicalRequest(Get, user, [dir], []);
    MkcolFromStart(user, dir, cfg);
    CanonicalAddress(Get, user, [dir], [], cfg);
    StartCoherent();
    var st := Serve(START, CanonicalRequest(Mkcol, user, [dir], []), cfg).state;
    UserGet(Tree({[], [dir]}, map[]), map[], Join([dir], "/"), get, cfg.digest);
    UserGet(EMPTY, map[], Join([dir], "/"), get, cfg.digest);
    ServeAnswers(st, get, cfg, Tree({[], [dir]}, map[]), map[]);
    assert UserRows(Restarted(st), user) == map[];
    ServeAnswers(Restarted(st), get, cfg, EMPTY, map[]);
  }

  lemma PutBelow(st: State, user: string, dir: string, file: string, body: Bytes, cfg: Config)
    requires Ordinary(user) && Ordinary(dir) && Ordinary(file)
    requires Coherent(st) && Loaded(st, user) == Some(Tree({[], [dir]}, map[])) && UserRows(st, user) == map[]
    ensures var o := Serve(st, CanonicalRequest(Put, user, [dir, file], body), cfg);
      Coherent(o.state) && UserRows(o.state, user) == map[Join([dir, file], "/") := body]
  {
    var put := CanonicalRequest(Put, user, [dir, file], body);
    CanonicalAddress(Put, user, [dir, file], body, cfg);
    UserPutBelow(Join([dir, file], "/"), dir, file, put, cfg.digest);
    PutStep(st, put, cfg);
  }

  lemma PutStep(st: State, put: Request, cfg: Config)
    requires Coherent(st) && put.verb.Put? && put.env == CALM
    ensures var user, o := Addressee(put, cfg), Serve(st, put, cfg);
      && Loaded(st, user).Some? && Coherent(o.state)
      && UserRows(o.state, user) ==
         UserServe(Loaded(st, user).value, UserRows(st, user), ResourceOf(put, cfg), put, cfg.digest).rows
  {
    LoadedCoherent(st, Addressee(put, cfg));
    ServeUnfolds(st, put, cfg);
    CalmPutKeeps(st, put, cfg);
    ServeCoherenceExact(st, put, cfg);
  }

  lemma CalmPutKeeps(st: State, put: Request, cfg: Config)
    requires CleanData(st.rows) && put.verb.Put? && put.env == CALM
    ensures !Diverges(st, put, cfg)
  {
  }

  /** A lost write is reachable: the first PUT of a file into the empty store, while writes fail. */
  lemma LostWriteReachable(user: string, file: string, body: Bytes, cfg: Config)
    requires Ordinary(user) && Ordinary(file)
    ensures Coherent(START)
    ensures Diverges(START, CanonicalRequest(Put, user, [file], body).(env := CALM.(persistFails := true)), cfg)
  {
    var put := CanonicalRequest(Put, user, [file], body).(env := CALM.(persistFails := true));
    StartCoherent();
    CanonicalAddress(Put, user, [file], body, cfg);
    assert Addressee(put, cfg) == user && ResourceOf(put, cfg) == Join([file], "/");
    assert Parent([file]) == [];
    assert LosesWrite(EMPTY, map[], ResourceOf(put, cfg), put, cfg.digest);
  }

  /** A row on a collection is reachable: make a collection, then put nothing onto it, if the library
      accepts that. */
  lemma PutOnCollectionReachable(user: string, dir: string, cfg: Config)
    requires Ordinary(user) && Ordinary(dir)
    ensures var st := Serve(START, CanonicalRequest(Mkcol, user, [dir], []), cfg).state;
      var put := CanonicalRequest(Put, user, [dir], []).(env := CALM.(emptyPutAccepted := true));
      Coherent(st) && Diverges(st, put, cfg)
  {
    var put := CanonicalRequest(Put, user, [dir], []).(env := CALM.(emptyPutAccepted := true));
    MkcolFromStart(user, dir, cfg);
    CanonicalAddress(Put, user, [dir], [], cfg);
    assert Addressee(put, cfg) == user && ResourceOf(put, cfg) == Join([dir], "/");
    assert PutsOnCollection(Tree({[], [dir]}, map[]), ResourceOf(put, cfg), put);
  }

  lemma DropsBelow(st: State, user: string, dir: string, file: string, body: Bytes, cfg: Config)
    requires Ordinary(user) && Ordinary(dir) && Ordinary(file)
    requires UserRows(st, user) == map[Join([dir, file], "/") := body]
    ensures Drops(st, CanonicalRequest(Delete, user, [dir], []), cfg)
  {
    CanonicalAddress(Delete, user, [dir], [], cfg);
    CleanJoined([dir, file]);
    assert ProperPrefix([dir], [dir, file]);
  }

  /** Such a DELETE is reachable: make a collection, put a file into it, delete the collection. */
  lemma DropReachable(user: string, dir: string, file: string, body: Bytes, cfg: Config)
    requires Ordinary(user) && Ordinary(dir) && Ordinary(file)
    ensures var mk, put := CanonicalRequest(Mkcol, user, [dir], []), CanonicalRequest(Put, user, [dir, file], body);
      var st := Run(START, [mk, put], cfg);
      Coherent(st) && Drops(st, CanonicalRequest(Delete, user, [dir], []), cfg)
  {
    var mk, put := CanonicalRequest(Mkcol, user, [dir], []), CanonicalRequest(Put, user, [dir, file], body);
    MkcolFromStart(user, dir, cfg);
    var st1 := Serve(START, mk, cfg).state;
    PutBelow(st1, user, dir, file, body, cfg);
    DropsBelow(Serve(st1, put, cfg).state, user, dir, file, body, cfg);
    TwoSteps(START, mk, put, cfg);
  }

  lemma TwoSteps(st: State, a: Request, b: Request, cfg: Config)
    requires CleanData(st.rows)
    ensures Run(st, [a, b], cfg) == Serve(Serve(st, a, cfg).state, b, cfg).state
  {
    var next := Serve(st, a, cfg).state;
    RunStep(st, a, [b], cfg);
    assert [a] + [b] == [a, b];
    RunStep(next, b, [], cfg);
    assert [b] + [] == [b];
  }

  lemma RunStep(st: State, a: Request, rest: seq<Request>, cfg: Config)
    requires CleanData(st.rows)
    ensures Run(st, [a] + rest, cfg) == Run(Serve(st, a, cfg).state, rest, cfg)
  {
    var all := [a] + rest;
    assert all[0] == a && all[1..] == rest;
  }

  lemma TreeOfEmpty()
    ensures TreeOf(map[]) == EMPTY
  {
    assert FilePaths(map[]) == {};
  }
}
