/** The time of the last sync in its two stores, and the worker's pass over all users. */
module SyncWorker {
  import opened Text
  import opened EventModel
  import EventFetch
  import UserTokens
  import opened EventCache

  // ----- the in-memory sync status, the simple specification -----

  type SyncTimes = map<nat, int>

  function MemoryLastSynced(times: SyncTimes, userID: nat): Option<int> {
    if userID in times && times[userID] != ZERO_TIME then Some(times[userID]) else None
  }

  class MemoryEventSyncStore {
    var lastSyncedBy: SyncTimes

    constructor ()
      ensures lastSyncedBy == map[]
    {
      lastSyncedBy := map[];
    }

    method UpsertUserEvents(userID: nat, events: seq<Event>, syncedAt: int)
      modifies this
      ensures lastSyncedBy == old(lastSyncedBy)[userID := syncedAt]
    {
      lastSyncedBy := lastSyncedBy[userID := syncedAt];
    }

    method LastSyncedAtByUserID(userID: nat) returns (at: Option<int>)
      ensures at == MemoryLastSynced(lastSyncedBy, userID)
      ensures at.Some? <==> userID in lastSyncedBy && lastSyncedBy[userID] != ZERO_TIME
      ensures at.Some? ==> at.value == lastSyncedBy[userID]
    {
      if userID !in lastSyncedBy || lastSyncedBy[userID] == ZERO_TIME {
        return None;
      }
      return Some(lastSyncedBy[userID]);
    }
  }

  // ----- the cache's latest stamp -----

  /** `m` is the latest stamp among the contents stored for a user. */
  ghost predicate IsLatest(c: Cache, userID: nat, m: Option<int>) {
    && (forall id :: ContentAt(c, userID, id).Some? ==> m.Some? && ContentAt(c, userID, id).value.1 <= m.value)
    && (m.Some? ==> exists id :: ContentAt(c, userID, id).Some? && ContentAt(c, userID, id).value.1 == m.value)
  }

  lemma MaxSyncedIsLatest(c: Cache, userID: nat)
    requires UniqueRows(c.table)
    ensures IsLatest(c, userID, MaxSynced(c.table, userID))
  {
    MaxSyncedRows(c.table, userID);
    var m := MaxSynced(c.table, userID);
    if m.Some? {
      var i :| 0 <= i < |c.table| && c.table[i].userID == userID && c.table[i].lastSynced == m.value;
      FirstRowIs(c.table, i);
      assert ContentAt(c, userID, c.table[i].eventID) == Some((c.table[i].payload, m.value));
    }
  }

  lemma LatestUnique(c: Cache, userID: nat, m: Option<int>, n: Option<int>)
    requires IsLatest(c, userID, m) && IsLatest(c, userID, n)
    ensures m == n
  {
  }

  // ----- agreement of the two over runs of syncs -----

  datatype Sync = Sync(userID: nat, events: seq<Event>, at: int)

  ghost predicate HasID(events: seq<Event>) {
    exists i :: 0 <= i < |events| && !EventFetch.BlankID(events[i])
  }

  /** The cache's latest stamp is the memory store's time, for every user, and no later than the clock. */
  ghost predicate SyncAgree(c: Cache, times: SyncTimes, clock: int) {
    && UniqueRows(c.table)
    && (forall u :: MaxSynced(c.table, u) == if u in times then Some(times[u]) else None)
    && (forall u :: u in times ==> times[u] <= clock)
  }

  lemma SyncedLatest(c: Cache, times: SyncTimes, clock: int, s: Sync, encode: Encoding, u: nat)
    requires SyncAgree(c, times, clock) && clock <= s.at && HasID(s.events)
    ensures MaxSynced(UpsertAll(c, s.userID, s.events, s.at, encode).table, u) ==
            if u == s.userID then Some(s.at) else MaxSynced(c.table, u)
  {
    var c' := UpsertAll(c, s.userID, s.events, s.at, encode);
    var m := if u == s.userID then Some(s.at) else MaxSynced(c.table, u);
    UpsertAllExact(c, s.userID, s.events, s.at, encode, 0, "");
    MaxSyncedIsLatest(c, u);
    MaxSyncedIsLatest(c', u);
    forall id
      ensures ContentAt(c', u, id) == if u == s.userID && id != "" && LastWith(s.events, id).Some?
                                      then Some((encode(LastWith(s.events, id).value), s.at)) else ContentAt(c, u, id)
    {
      UpsertAllExact(c, s.userID, s.events, s.at, encode, u, id);
    }
    if u == s.userID {
      var i :| 0 <= i < |s.events| && !EventFetch.BlankID(s.events[i]);
      LastWithFinds(s.events, i);
      assert ContentAt(c', u, Trim(s.events[i].id)).value.1 == s.at;
    } else if m.Some? {
      var id :| ContentAt(c, u, id).Some? && ContentAt(c, u, id).value.1 == m.value;
      assert ContentAt(c', u, id) == ContentAt(c, u, id);
    }
    assert IsLatest(c', u, m);
    LatestUnique(c', u, MaxSynced(c'.table, u), m);
  }

  lemma {:induction false} BlanksChangeNothing(c: Cache, userID: nat, events: seq<Event>, at: int, encode: Encoding)
    requires !HasID(events)
    ensures UpsertAll(c, userID, events, at, encode) == c
  {
    if events != [] {
      assert EventFetch.BlankID(events[|events| - 1]);
      assert !HasID(events[..|events| - 1]);
      BlanksChangeNothing(c, userID, events[..|events| - 1], at, encode);
    }
  }

  /** One complete sync no earlier than the ones before it: the two stores then report the same time for
      the user exactly when the sync brought an event with an id, or is stamped with the time the memory
      store already reports (a user without one counts as synced at the zero time). */
  lemma SyncAgreementExact(c: Cache, times: SyncTimes, clock: int, s: Sync, encode: Encoding)
    requires SyncAgree(c, times, clock) && clock <= s.at
    ensures LastSynced(UpsertAll(c, s.userID, s.events, s.at, encode).table, s.userID) ==
              MemoryLastSynced(times[s.userID := s.at], s.userID) <==>
            HasID(s.events) || s.at == if s.userID in times then times[s.userID] else ZERO_TIME
  {
    if HasID(s.events) {
      SyncedLatest(c, times, clock, s, encode, s.userID);
    } else {
      BlanksChangeNothing(c, s.userID, s.events, s.at, encode);
    }
  }

  /** A first sync that brings nothing: the memory store reports it, the cache does not. */
  lemma EmptySyncDisagrees(encode: Encoding)
    ensures SyncAgree(Cache([], 1), map[], 0)
    ensures var s := Sync(1, [], 1);
      && LastSynced(UpsertAll(Cache([], 1), s.userID, s.events, s.at, encode).table, s.userID) == None
      && MemoryLastSynced(map[s.userID := s.at], s.userID) == Some(s.at)
  {
  }

  function CacheAfter(c: Cache, syncs: seq<Sync>, encode: Encoding): Cache {
    if syncs == [] then c
    else
      var s := syncs[|syncs| - 1];
      UpsertAll(CacheAfter(c, syncs[..|syncs| - 1], encode), s.userID, s.events, s.at, encode)
  }

  function TimesAfter(times: SyncTimes, syncs: seq<Sync>): SyncTimes {
    if syncs == [] then times
    else TimesAfter(times, syncs[..|syncs| - 1])[syncs[|syncs| - 1].userID := syncs[|syncs| - 1].at]
  }

  predicate Forward(syncs: seq<Sync>, clock: int) {
    && (forall i :: 0 <= i < |syncs| ==> clock <= syncs[i].at)
    && (forall i, j :: 0 <= i < j < |syncs| ==> syncs[i].at <= syncs[j].at)
  }

  /** Over every run of complete syncs with a forward clock, each bringing at least one event with an
      id, the cache and the memory store report the same last sync for every user. */
  lemma {:induction false} SyncStatusAgrees(c: Cache, times: SyncTimes, clock: int, syncs: seq<Sync>, encode: Encoding)
    requires SyncAgree(c, times, clock) && Forward(syncs, clock)
    requires forall i :: 0 <= i < |syncs| ==> HasID(syncs[i].events)
    ensures SyncAgree(CacheAfter(c, syncs, encode), TimesAfter(times, syncs),
                      if syncs == [] then clock else syncs[|syncs| - 1].at)
    ensures forall u ::
              LastSynced(CacheAfter(c, syncs, encode).table, u) == MemoryLastSynced(TimesAfter(times, syncs), u)
  {
    if syncs != [] {
      var init, s := syncs[..|syncs| - 1], syncs[|syncs| - 1];
      SyncStatusAgrees(c, times, clock, init, encode);
      var last := if init == [] then clock else init[|init| - 1].at;
      SyncAgreeStep(CacheAfter(c, init, encode), TimesAfter(times, init), last, s, encode);
    }
  }

  /** The syncs of a run that bring an event with an id. */
  ghost function WithIDs(syncs: seq<Sync>): seq<Sync> {
    if syncs == [] then []
    else
      var init, s := WithIDs(syncs[..|syncs| - 1]), syncs[|syncs| - 1];
      if HasID(s.events) then init + [s] else init
  }

  lemma {:induction false} WithIDsForward(syncs: seq<Sync>, clock: int)
    requires Forward(syncs, clock)
    ensures Forward(WithIDs(syncs), clock) && forall i :: 0 <= i < |WithIDs(syncs)| ==> HasID(WithIDs(syncs)[i].events)
    ensures forall s :: s in WithIDs(syncs) ==> s in syncs
  {
    if syncs != [] {
      var init, last := syncs[..|syncs| - 1], syncs[|syncs| - 1];
      WithIDsForward(init, clock);
      var kept := WithIDs(init);
      forall i | 0 <= i < |kept|
        ensures kept[i].at <= last.at
      {
        assert kept[i] in init;
      }
    }
  }

  lemma {:induction false} EmptySyncsSkipped(c: Cache, syncs: seq<Sync>, encode: Encoding)
    ensures CacheAfter(c, syncs, encode) == CacheAfter(c, WithIDs(syncs), encode)
  {
    if syncs != [] {
      var init, s := syncs[..|syncs| - 1], syncs[|syncs| - 1];
      EmptySyncsSkipped(c, init, encode);
      if HasID(s.events) {
        assert (WithIDs(init) + [s])[..|WithIDs(init)|] == WithIDs(init);
      } else {
        BlanksChangeNothing(CacheAfter(c, init, encode), s.userID, s.events, s.at, encode);
      }
    }
  }

  /** Over every run of complete syncs with a forward clock, empty ones included: the cache reports for
      every user the time of the latest sync that brought an event with an id, as the memory store would
      if it were told of those syncs only. The two stores agree on a user exactly when leaving out the
      empty syncs does not change what the memory store reports. */
  lemma SyncStatusExact(c: Cache, times: SyncTimes, clock: int, syncs: seq<Sync>, encode: Encoding, u: nat)
    requires SyncAgree(c, times, clock) && Forward(syncs, clock)
    ensures var cached := LastSynced(CacheAfter(c, syncs, encode).table, u);
      var all, withIDs := TimesAfter(times, syncs), TimesAfter(times, WithIDs(syncs));
      && cached == MemoryLastSynced(withIDs, u)
      && (cached == MemoryLastSynced(all, u) <==> MemoryLastSynced(withIDs, u) == MemoryLastSynced(all, u))
  {
    WithIDsForward(syncs, clock);
    EmptySyncsSkipped(c, syncs, encode);
    SyncStatusAgrees(c, times, clock, WithIDs(syncs), encode);
  }

  lemma SyncAgreeStep(c: Cache, times: SyncTimes, clock: int, s: Sync, encode: Encoding)
    requires SyncAgree(c, times, clock) && clock <= s.at && HasID(s.events)
    ensures SyncAgree(UpsertAll(c, s.userID, s.events, s.at, encode), times[s.userID := s.at], s.at)
  {
    var c' := UpsertAll(c, s.userID, s.events, s.at, encode);
    UpsertAllExact(c, s.userID, s.events, s.at, encode, 0, "");
    forall u
      ensures MaxSynced(c'.table, u) == if u == s.userID then Some(s.at) else MaxSynced(c.table, u)
    {
      SyncedLatest(c, times, clock, s, encode, u);
    }
  }

  // ----- the worker -----

  datatype UserRecord = UserRecord(userID: nat, profileID: string, access: string, accessExpires: Option<int>,
                                   refresh: string, refreshExpires: Option<int>)

  /** What a pass meets outside the program: whether the active users can be loaded and a user's client
      be made, the API's reply to a token, the clock readings of each user's turn, failing writes, and
      cancellation. */
  datatype World = World(loadFails: bool, clientFails: nat -> bool, fetch: string -> EventFetch.Reply,
                         chosenAt: nat -> int, syncedAt: nat -> int,
                         fails: (nat, nat) -> bool, cancelled: nat -> bool)

  /** The events one user's turn has to store, if it gets that far. */
  function Fetched(user: UserRecord, i: nat, w: World): Option<seq<Event>> {
    match UserTokens.ChooseToken(user.access, user.accessExpires, user.refresh, user.refreshExpires, w.chosenAt(i))
    case Err(_) => None
    case Ok(token) =>
      if w.clientFails(i) then None
      else
        match EventFetch.FetchEvents(token, w.fetch(token))
        case Err(_) => None
        case Ok(events) => Some(events)
  }

  function FailsOf(i: nat, w: World): nat -> bool {
    (j: nat) => w.fails(i, j)
  }

  /** The part of them that is written. */
  function Written(user: UserRecord, i: nat, w: World): seq<Event> {
    match Fetched(user, i, w)
    case None => []
    case Some(events) => events[..Reached(events, FailsOf(i, w))]
  }

  function SyncOne(c: Cache, user: UserRecord, i: nat, w: World, encode: Encoding): Cache {
    UpsertAll(c, user.userID, Written(user, i, w), w.syncedAt(i), encode)
  }

  function RunUsers(c: Cache, users: seq<UserRecord>, w: World, encode: Encoding): Cache {
    if users == [] then c
    else
      var n := |users| - 1;
      SyncOne(RunUsers(c, users[..n], w, encode), users[n], n, w, encode)
  }

  lemma RunUsersSnoc(c: Cache, users: seq<UserRecord>, i: nat, w: World, encode: Encoding)
    requires i < |users|
    ensures RunUsers(c, users[..i + 1], w, encode) ==
            SyncOne(RunUsers(c, users[..i], w, encode), users[i], i, w, encode)
  {
    assert users[..i + 1][..i] == users[..i];
  }

  /** How many users have their turn before the pass is cancelled. */
  function Turns(count: nat, w: World): (k: nat)
    ensures k <= count
    ensures k < count ==> w.cancelled(k)
    ensures forall i :: 0 <= i < k ==> !w.cancelled(i)
  {
    if count == 0 then 0
    else
      var k := Turns(count - 1, w);
      if k < count - 1 || w.cancelled(count - 1) then k else count
  }

  /** The users who have their turn. */
  function Served(users: seq<UserRecord>, w: World): seq<UserRecord> {
    if w.loadFails then [] else users[..Turns(|users|, w)]
  }

  method SyncUser(store: SpondCacheStore, user: UserRecord, i: nat, w: World, encode: Encoding) returns (ok: bool)
    modifies store
    ensures store.State() == SyncOne(old(store.State()), user, i, w, encode)
    ensures ok <==> Fetched(user, i, w).Some? && Written(user, i, w) == Fetched(user, i, w).value
  {
    var token := UserTokens.ChooseToken(user.access, user.accessExpires, user.refresh, user.refreshExpires,
                                        w.chosenAt(i));
    if token.Err? {
      return false;
    }
    if w.clientFails(i) {
      return false;
    }
    var reply := EventFetch.FetchEvents(token.value, w.fetch(token.value));
    if reply.Err? {
      return false;
    }
    ok := store.UpsertUserEvents(user.userID, reply.value, w.syncedAt(i), encode, FailsOf(i, w));
    assert reply.value[..|reply.value|] == reply.value;
  }

  /** One pass: a user's failure is logged and the pass goes on; cancellation ends it. */
  method RunOnce(store: SpondCacheStore, users: seq<UserRecord>, w: World, encode: Encoding) returns (completed: bool)
    modifies store
    ensures store.State() == RunUsers(old(store.State()), Served(users, w), w, encode)
    ensures completed <==> !w.loadFails && Turns(|users|, w) == |users|
  {
    if w.loadFails {
      return false;
    }
    ghost var before, turns := store.State(), Turns(|users|, w);
    for i := 0 to |users|
      invariant i <= turns
      invariant store.State() == RunUsers(before, users[..i], w, encode)
    {
      if w.cancelled(i) {
        assert turns == i;
        return false;
      }
      assert i < turns;
      RunUsersSnoc(before, users, i, w, encode);
      var ok := SyncUser(store, users[i], i, w, encode);
    }
    assert turns == |users|;
    return true;
  }

  predicate DistinctUsers(users: seq<UserRecord>) {
    forall i, j :: 0 <= i < j < |users| ==> users[i].userID != users[j].userID
  }

  lemma SyncOneExact(c: Cache, user: UserRecord, i: nat, w: World, encode: Encoding, userID: nat, id: string)
    requires UniqueRows(c.table)
    ensures UniqueRows(SyncOne(c, user, i, w, encode).table)
    ensures ContentAt(SyncOne(c, user, i, w, encode), userID, id) ==
            if userID == user.userID && id != "" && LastWith(Written(user, i, w), id).Some?
            then Some((encode(LastWith(Written(user, i, w), id).value), w.syncedAt(i))) else ContentAt(c, userID, id)
  {
    UpsertAllExact(c, user.userID, Written(user, i, w), w.syncedAt(i), encode, userID, id);
  }

  /** Users without a turn keep their rows. */
  lemma {:induction false} NoTurnNoChange(c: Cache, users: seq<UserRecord>, w: World, encode: Encoding, userID: nat,
                                          id: string)
    requires UniqueRows(c.table) && forall i :: 0 <= i < |users| ==> users[i].userID != userID
    ensures UniqueRows(RunUsers(c, users, w, encode).table)
    ensures ContentAt(RunUsers(c, users, w, encode), userID, id) == ContentAt(c, userID, id)
    decreases |users|
  {
    if users != [] {
      var n := |users| - 1;
      NoTurnNoChange(c, users[..n], w, encode, userID, id);
      SyncOneExact(RunUsers(c, users[..n], w, encode), users[n], n, w, encode, userID, id);
    }
  }

  /** After a pass over distinct users each user's rows are what that user's own turn alone would have
      made of them, whatever happened to the others. */
  lemma {:induction false} OwnOutcomeOnly(c: Cache, users: seq<UserRecord>, w: World, encode: Encoding, i: nat,
                                          id: string)
    requires UniqueRows(c.table) && DistinctUsers(users) && i < |users|
    ensures UniqueRows(RunUsers(c, users, w, encode).table)
    ensures ContentAt(RunUsers(c, users, w, encode), users[i].userID, id) ==
            ContentAt(SyncOne(c, users[i], i, w, encode), users[i].userID, id)
    decreases |users|
  {
    var n := |users| - 1;
    var init, userID := users[..n], users[i].userID;
    if i < n {
      OwnOutcomeOnly(c, init, w, encode, i, id);
      OtherTurn(RunUsers(c, init, w, encode), users[n], n, w, encode, userID, id);
    } else {
      NoTurnNoChange(c, init, w, encode, userID, id);
      SameTurn(c, RunUsers(c, init, w, encode), users[n], n, w, encode, id);
    }
  }

  lemma OtherTurn(c: Cache, user: UserRecord, i: nat, w: World, encode: Encoding, userID: nat, id: string)
    requires UniqueRows(c.table) && userID != user.userID
    ensures UniqueRows(SyncOne(c, user, i, w, encode).table)
    ensures ContentAt(SyncOne(c, user, i, w, encode), userID, id) == ContentAt(c, userID, id)
  {
    SyncOneExact(c, user, i, w, encode, userID, id);
  }

  /** A turn makes the same of two caches that agree on the user. */
  lemma SameTurn(c: Cache, d: Cache, user: UserRecord, i: nat, w: World, encode: Encoding, id: string)
    requires UniqueRows(c.table) && UniqueRows(d.table) &&
             ContentAt(c, user.userID, id) == ContentAt(d, user.userID, id)
    ensures UniqueRows(SyncOne(d, user, i, w, encode).table)
    ensures ContentAt(SyncOne(c, user, i, w, encode), user.userID, id) ==
            ContentAt(SyncOne(d, user, i, w, encode), user.userID, id)
  {
    SyncOneExact(c, user, i, w, encode, user.userID, id);
    SyncOneExact(d, user, i, w, encode, user.userID, id);
  }

  // ----- which token is sent, and what comes of it -----

  /** A user's turn fetches with the access token if it is valid beyond 30 seconds at that moment, else with
      the refresh token if that is; off the boundary it fetches nothing without a valid token, and it
      stores what the API replies to that very token. */
  lemma FetchedExact(user: UserRecord, i: nat, w: World)
    ensures var limit := w.chosenAt(i) + UserTokens.EXPIRY_SKEW;
      var access := UserTokens.ValidBeyond(user.access, user.accessExpires, limit);
      var refresh := UserTokens.ValidBeyond(user.refresh, user.refreshExpires, limit);
      && (access ==> Fetched(user, i, w) == ReplyTo(Trim(user.access), i, w))
      && (!access && refresh ==> Fetched(user, i, w) == ReplyTo(Trim(user.refresh), i, w))
      && (!access && !refresh && user.accessExpires != Some(limit) && user.refreshExpires != Some(limit) ==>
            Fetched(user, i, w) == None)
  {
    UserTokens.ChooseTokenExact(user.access, user.accessExpires, user.refresh, user.refreshExpires, w.chosenAt(i));
    if user.accessExpires != Some(w.chosenAt(i) + UserTokens.EXPIRY_SKEW)
       && user.refreshExpires != Some(w.chosenAt(i) + UserTokens.EXPIRY_SKEW) {
      UserTokens.ChooseTokenSafe(user.access, user.accessExpires, user.refresh, user.refreshExpires, w.chosenAt(i));
    }
  }

  /** The events the API replies to a token, if the client can be made and the reply is no error. */
  function ReplyTo(token: string, i: nat, w: World): Option<seq<Event>> {
    if !w.clientFails(i) && w.fetch(token).Ok? then Some(w.fetch(token).value) else None
  }

  /** What a user's turn stores: nothing if nothing was fetched; else, of the events before the first failing
      write, the last with each id, stamped with the time of the write. Everything else stays. */
  lemma TurnStores(c: Cache, user: UserRecord, i: nat, w: World, encode: Encoding, userID: nat, id: string, k: nat)
    requires UniqueRows(c.table)
    requires Fetched(user, i, w).Some? ==>
               && k <= |Fetched(user, i, w).value|
               && (forall j :: 0 <= j < k && Trim(Fetched(user, i, w).value[j].id) != "" ==> !w.fails(i, j))
               && (k < |Fetched(user, i, w).value| ==> Trim(Fetched(user, i, w).value[k].id) != "" && w.fails(i, k))
    ensures ContentAt(SyncOne(c, user, i, w, encode), userID, id) ==
            if Fetched(user, i, w).Some? && userID == user.userID && id != ""
               && LastWith(Fetched(user, i, w).value[..k], id).Some?
            then Some((encode(LastWith(Fetched(user, i, w).value[..k], id).value), w.syncedAt(i)))
            else ContentAt(c, userID, id)
  {
    SyncOneExact(c, user, i, w, encode, userID, id);
    if Fetched(user, i, w).Some? {
      ReachedUnique(Fetched(user, i, w).value, FailsOf(i, w), k);
    }
  }

  lemma ReachedUnique(events: seq<Event>, fails: nat -> bool, k: nat)
    requires k <= |events| && (forall j :: 0 <= j < k ==> !FailsAt(events, fails, j))
    requires k < |events| ==> FailsAt(events, fails, k)
    ensures Reached(events, fails) == k
  {
    ReachedExact(events, fails);
  }
}
