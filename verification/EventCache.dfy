/** The cache of synced events: the upsert of one user's events and the time of the last sync. */
module EventCache {
  import opened Text
  import opened EventModel
  import EventFetch
  import Lists

  type Payload = seq<bv8>

  /** The stored form of an event. */
  type Encoding = Event -> Payload

  datatype CacheRow = CacheRow(id: nat, userID: nat, eventID: string, payload: Payload, lastSynced: int)

  datatype Cache = Cache(table: seq<CacheRow>, nextID: nat)

  /** Go's zero time. */
  const ZERO_TIME := -62_135_596_800_000_000_000

  predicate Keyed(row: CacheRow, userID: nat, eventID: string) {
    row.userID == userID && row.eventID == eventID
  }

  function FirstRow(table: seq<CacheRow>, userID: nat, eventID: string): (k: nat)
    ensures k <= |table|
    ensures forall i :: 0 <= i < k ==> !Keyed(table[i], userID, eventID)
    ensures k < |table| ==> Keyed(table[k], userID, eventID)
  {
    Lists.FirstIndex(table, (row: CacheRow) => Keyed(row, userID, eventID))
  }

  function UpsertOne(c: Cache, userID: nat, e: Event, syncedAt: int, encode: Encoding): Cache {
    var eventID := Trim(e.id);
    if eventID == "" then c
    else
      var k := FirstRow(c.table, userID, eventID);
      if k == |c.table| then Cache(c.table + [CacheRow(c.nextID, userID, eventID, encode(e), syncedAt)], c.nextID + 1)
      else c.(table := c.table[k := c.table[k].(payload := encode(e), lastSynced := syncedAt)])
  }

  function UpsertAll(c: Cache, userID: nat, events: seq<Event>, syncedAt: int, encode: Encoding): Cache {
    if events == [] then c
    else
      var init, e := events[..|events| - 1], events[|events| - 1];
      UpsertOne(UpsertAll(c, userID, init, syncedAt, encode), userID, e, syncedAt, encode)
  }

  lemma UpsertSnoc(c: Cache, userID: nat, events: seq<Event>, i: nat, syncedAt: int, encode: Encoding)
    requires i < |events|
    ensures UpsertAll(c, userID, events[..i + 1], syncedAt, encode) ==
            UpsertOne(UpsertAll(c, userID, events[..i], syncedAt, encode), userID, events[i], syncedAt, encode)
  {
    assert events[..i + 1][..i] == events[..i];
  }

  /** `fails(i)` says that writing the i-th event fails; events without an id are never written. */
  predicate FailsAt(events: seq<Event>, fails: nat -> bool, i: nat) {
    i < |events| && !EventFetch.BlankID(events[i]) && fails(i)
  }

  /** How many events are dealt with before the first failure. */
  function Reached(events: seq<Event>, fails: nat -> bool): (k: nat)
    ensures k <= |events|
  {
    if events == [] then 0
    else
      var k := Reached(events[..|events| - 1], fails);
      if k < |events| - 1 || FailsAt(events, fails, |events| - 1) then k else |events|
  }

  lemma {:induction false} ReachedExact(events: seq<Event>, fails: nat -> bool)
    ensures forall i :: 0 <= i < Reached(events, fails) ==> !FailsAt(events, fails, i)
    ensures Reached(events, fails) < |events| ==> FailsAt(events, fails, Reached(events, fails))
  {
    if events != [] {
      var init := events[..|events| - 1];
      ReachedExact(init, fails);
      assert forall i :: 0 <= i < |init| ==> (FailsAt(init, fails, i) <==> FailsAt(events, fails, i));
    }
  }

  class SpondCacheStore {
    var table: seq<CacheRow>
    var nextID: nat

    ghost function State(): Cache
      reads this
    {
      Cache(table, nextID)
    }

    constructor ()
      ensures State() == Cache([], 1)
    {
      table, nextID := [], 1;
    }

    /** A failure leaves exactly the effect of the events before it. */
    method UpsertUserEvents(userID: nat, events: seq<Event>, syncedAt: int, encode: Encoding, fails: nat -> bool)
      returns (ok: bool)
      modifies this
      ensures State() == UpsertAll(old(State()), userID, events[..Reached(events, fails)], syncedAt, encode)
      ensures ok <==> Reached(events, fails) == |events|
    {
      ReachedExact(events, fails);
      ghost var before, reached := State(), Reached(events, fails);
      for i := 0 to |events|
        invariant i <= reached
        invariant State() == UpsertAll(before, userID, events[..i], syncedAt, encode)
      {
        UpsertSnoc(before, userID, events, i, syncedAt, encode);
        var eventID := Trim(events[i].id);
        if eventID == "" {
          continue;
        }
        if fails(i) {
          assert FailsAt(events, fails, i) && reached == i;
          return false;
        }
        assert i < reached;
        var k := FirstRow(table, userID, eventID);
        if k == |table| {
          table, nextID := table + [CacheRow(nextID, userID, eventID, encode(events[i]), syncedAt)], nextID + 1;
          continue;
        }
        var row := table[k].(payload := encode(events[i]), lastSynced := syncedAt);
        table := table[k := row];
      }
      return true;
    }

    method LastSyncedAtByUserID(userID: nat, fails: bool) returns (ok: bool, at: Option<int>)
      ensures ok == !fails
      ensures at == if ok then LastSynced(table, userID) else None
      ensures at.Some? ==>
                && at.value != ZERO_TIME
                && (exists i :: 0 <= i < |table| && table[i].userID == userID && table[i].lastSynced == at.value)
                && (forall i :: 0 <= i < |table| && table[i].userID == userID ==> table[i].lastSynced <= at.value)
      ensures ok && at == None ==>
                forall i :: 0 <= i < |table| && table[i].userID == userID ==> table[i].lastSynced <= ZERO_TIME
    {
      MaxSyncedRows(table, userID);
      if fails {
        return false, None;
      }
      var latest: Option<int> := None;
      for i := 0 to |table|
        invariant latest == MaxSynced(table[..i], userID)
      {
        assert table[..i + 1][..i] == table[..i];
        if table[i].userID == userID && (latest == None || latest.value < table[i].lastSynced) {
          latest := Some(table[i].lastSynced);
        }
      }
      assert table[..|table|] == table;
      return true, if latest == Some(ZERO_TIME) then None else latest;
    }
  }

  function MaxSynced(table: seq<CacheRow>, userID: nat): Option<int> {
    if table == [] then None
    else
      var init, row := MaxSynced(table[..|table| - 1], userID), table[|table| - 1];
      if row.userID == userID && (init == None || init.value < row.lastSynced) then Some(row.lastSynced) else init
  }

  lemma {:induction false} MaxSyncedRows(table: seq<CacheRow>, userID: nat)
    ensures var m := MaxSynced(table, userID);
      && (forall i :: 0 <= i < |table| && table[i].userID == userID ==> m.Some? && table[i].lastSynced <= m.value)
      && (m.Some? ==> exists i :: 0 <= i < |table| && table[i].userID == userID && table[i].lastSynced == m.value)
  {
    if table != [] {
      MaxSyncedRows(table[..|table| - 1], userID);
    }
  }

  function LastSynced(table: seq<CacheRow>, userID: nat): Option<int> {
    if MaxSynced(table, userID) == Some(ZERO_TIME) then None else MaxSynced(table, userID)
  }

  // ----- one row per user and event -----

  ghost predicate UniqueRows(table: seq<CacheRow>) {
    forall i, j :: 0 <= i < j < |table| ==> !Keyed(table[j], table[i].userID, table[i].eventID)
  }

  /** The content stored under a key. */
  function ContentAt(c: Cache, userID: nat, eventID: string): Option<(Payload, int)> {
    var k := FirstRow(c.table, userID, eventID);
    if k < |c.table| then Some((c.table[k].payload, c.table[k].lastSynced)) else None
  }

  lemma FirstRowIs(table: seq<CacheRow>, k: nat)
    requires UniqueRows(table) && k < |table|
    ensures FirstRow(table, table[k].userID, table[k].eventID) == k
  {
    var f := FirstRow(table, table[k].userID, table[k].eventID);
    if f < k {
      assert Keyed(table[k], table[f].userID, table[f].eventID);
    }
  }

  /** One upsert keeps the table unique, sets the content under its own key and leaves every other key. */
  lemma UpsertOneExact(c: Cache, userID: nat, e: Event, syncedAt: int, encode: Encoding, u: nat, id: string)
    requires UniqueRows(c.table)
    ensures var c' := UpsertOne(c, userID, e, syncedAt, encode);
      && UniqueRows(c'.table)
      && ContentAt(c', u, id) ==
           if u == userID && Trim(e.id) == id && id != "" then Some((encode(e), syncedAt)) else ContentAt(c, u, id)
  {
    var eventID := Trim(e.id);
    var c' := UpsertOne(c, userID, e, syncedAt, encode);
    if eventID != "" {
      var k := FirstRow(c.table, userID, eventID);
      assert UniqueRows(c'.table);
      FirstRowIs(c'.table, k);
      if !(u == userID && eventID == id) {
        var f := FirstRow(c.table, u, id);
        if f < |c.table| {
          assert f != k && c'.table[f] == c.table[f];
          FirstRowIs(c'.table, f);
        } else {
          assert forall i :: 0 <= i < |c'.table| ==> !Keyed(c'.table[i], u, id);
        }
      }
    }
  }

  /** The last event of the list with this id, which is the one that counts. */
  function LastWith(events: seq<Event>, id: string): Option<Event> {
    if events == [] then None
    else if Trim(events[|events| - 1].id) == id then Some(events[|events| - 1])
    else LastWith(events[..|events| - 1], id)
  }

  /** After an upsert there is still one row per user and event id; each id in the list holds its last
      occurrence, stamped with the sync time; every other id and every other user is untouched. */
  lemma {:induction false} UpsertAllExact(c: Cache, userID: nat, events: seq<Event>, syncedAt: int, encode: Encoding,
                                          u: nat, id: string)
    requires UniqueRows(c.table)
    ensures var c' := UpsertAll(c, userID, events, syncedAt, encode);
      && UniqueRows(c'.table)
      && ContentAt(c', u, id) ==
           if u == userID && id != "" && LastWith(events, id).Some?
             then Some((encode(LastWith(events, id).value), syncedAt))
           else ContentAt(c, u, id)
    decreases |events|
  {
    if events != [] {
      var init := events[..|events| - 1];
      UpsertAllExact(c, userID, init, syncedAt, encode, u, id);
      var before := UpsertAll(c, userID, init, syncedAt, encode);
      UpsertOneExact(before, userID, events[|events| - 1], syncedAt, encode, u, id);
    }
  }

  // ----- idempotence -----

  /** Same keys in the same rows. */
  ghost predicate SameKeys(a: Cache, b: Cache) {
    && |a.table| == |b.table| && a.nextID == b.nextID
    && forall i :: 0 <= i < |a.table| ==>
         a.table[i].id == b.table[i].id && a.table[i].userID == b.table[i].userID &&
           a.table[i].eventID == b.table[i].eventID
  }

  ghost predicate AllPresent(c: Cache, userID: nat, events: seq<Event>) {
    forall i :: 0 <= i < |events| && !EventFetch.BlankID(events[i]) ==>
      FirstRow(c.table, userID, Trim(events[i].id)) < |c.table|
  }

  lemma {:induction false} UpsertPresent(c: Cache, userID: nat, events: seq<Event>, syncedAt: int, encode: Encoding)
    requires AllPresent(c, userID, events)
    ensures SameKeys(c, UpsertAll(c, userID, events, syncedAt, encode))
    decreases |events|
  {
    if events != [] {
      var init, e := events[..|events| - 1], events[|events| - 1];
      UpsertPresent(c, userID, init, syncedAt, encode);
    }
  }

  lemma ContentDetermines(a: Cache, b: Cache)
    requires SameKeys(a, b) && UniqueRows(a.table) && UniqueRows(b.table)
    requires forall u, id :: ContentAt(a, u, id) == ContentAt(b, u, id)
    ensures a == b
  {
    forall i | 0 <= i < |a.table|
      ensures a.table[i] == b.table[i]
    {
      FirstRowIs(a.table, i);
      FirstRowIs(b.table, i);
      assert ContentAt(a, a.table[i].userID, a.table[i].eventID) == ContentAt(b, b.table[i].userID, b.table[i].eventID);
    }
  }

  lemma {:induction false} LastWithFinds(events: seq<Event>, i: nat)
    requires i < |events|
    ensures LastWith(events, Trim(events[i].id)).Some?
    decreases |events|
  {
    if i < |events| - 1 {
      LastWithFinds(events[..|events| - 1], i);
    }
  }

  /** Applying the same sync again changes nothing, row ids included. */
  lemma UpsertIdempotent(c: Cache, userID: nat, events: seq<Event>, syncedAt: int, encode: Encoding)
    requires UniqueRows(c.table)
    ensures var once := UpsertAll(c, userID, events, syncedAt, encode);
      UpsertAll(once, userID, events, syncedAt, encode) == once
  {
    var once := UpsertAll(c, userID, events, syncedAt, encode);
    var twice := UpsertAll(once, userID, events, syncedAt, encode);
    UpsertAllExact(c, userID, events, syncedAt, encode, 0, "");
    forall u, id
      ensures ContentAt(once, u, id) == ContentAt(twice, u, id)
    {
      UpsertAllExact(c, userID, events, syncedAt, encode, u, id);
      UpsertAllExact(once, userID, events, syncedAt, encode, u, id);
    }
    forall i | 0 <= i < |events| && !EventFetch.BlankID(events[i])
      ensures FirstRow(once.table, userID, Trim(events[i].id)) < |once.table|
    {
      LastWithFinds(events, i);
      UpsertAllExact(c, userID, events, syncedAt, encode, userID, Trim(events[i].id));
    }
    UpsertPresent(once, userID, events, syncedAt, encode);
    UpsertAllExact(once, userID, events, syncedAt, encode, 0, "");
    ContentDetermines(once, twice);
  }

  // ----- row ids -----

  /** Row ids increase along the table, below the next one. */
  ghost predicate IDsAscend(c: Cache) {
    && (forall i, j :: 0 <= i < j < |c.table| ==> c.table[i].id < c.table[j].id)
    && (forall i :: 0 <= i < |c.table| ==> c.table[i].id < c.nextID)
  }

  /** A sync keeps the ids apart, and every row that was there keeps its id and its key. */
  lemma {:induction false} UpsertKeepsIDs(c: Cache, userID: nat, events: seq<Event>, syncedAt: int, encode: Encoding)
    requires IDsAscend(c)
    ensures var d := UpsertAll(c, userID, events, syncedAt, encode);
      && IDsAscend(d) && |c.table| <= |d.table|
      && forall i :: 0 <= i < |c.table| ==>
           d.table[i].id == c.table[i].id && d.table[i].userID == c.table[i].userID
           && d.table[i].eventID == c.table[i].eventID
    decreases |events|
  {
    if events != [] {
      UpsertKeepsIDs(c, userID, events[..|events| - 1], syncedAt, encode);
    }
  }
}
