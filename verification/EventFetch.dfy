/** Fetching events group by group: attribution of ungrouped events and deduplication by id. */
module EventFetch {
  import opened Text
  import FilterLists
  import opened EventModel
  import Lists

  type Reply = Result<seq<Event>, string>

  const NOT_AUTHENTICATED := "not authenticated"

  predicate BlankID(e: Event) {
    Trim(e.id) == ""
  }

  function Attribute(e: Event, groupID: string): Event {
    if e.groupID == None && e.subGroupID == None then e.(groupID := Some(groupID)) else e
  }

  function Attributed(events: seq<Event>, groupID: string): seq<Event> {
    Lists.Map(events, e => Attribute(e, groupID))
  }

  function IDs(events: seq<Event>): set<string> {
    set e | e in events && !BlankID(e) :: e.id
  }

  /** Events without an id are all kept; of those with an id only the first with that id. */
  function DedupEvents(events: seq<Event>): seq<Event> {
    if events == [] then []
    else
      var init, e := DedupEvents(events[..|events| - 1]), events[|events| - 1];
      if !BlankID(e) && e.id in IDs(init) then init else init + [e]
  }

  /** All replies, each attributed to its group, in the order requested. */
  function Combined(groups: seq<string>, fetch: string -> Reply): seq<Event> {
    if groups == [] then []
    else
      var g := groups[|groups| - 1];
      Combined(groups[..|groups| - 1], fetch) + (if fetch(g).Ok? then Attributed(fetch(g).value, g) else [])
  }

  /** The first error among the replies, in the order requested. */
  function FirstError(groups: seq<string>, fetch: string -> Reply): Option<string> {
    if groups == [] then None
    else
      match FirstError(groups[..|groups| - 1], fetch)
      case Some(e) => Some(e)
      case None =>
        match fetch(groups[|groups| - 1])
        case Err(e) => Some(e)
        case Ok(_) => None
  }

  function FetchEvents(token: string, fetchAll: Reply): Reply {
    if token == "" then Err(NOT_AUTHENTICATED) else fetchAll
  }

  function FetchForGroups(token: string, groupIDs: seq<string>, fetch: string -> Reply, fetchAll: Reply): Reply {
    var groups := FilterLists.FilterList(groupIDs);
    if token == "" then Err(NOT_AUTHENTICATED)
    else if groups == [] then FetchEvents(token, fetchAll)
    else
      match FirstError(groups, fetch)
      case Some(e) => Err(e)
      case None => Ok(DedupEvents(Combined(groups, fetch)))
  }

  // ----- the loops -----

  method AttributeInPlace(events: array<Event>, groupID: string)
    modifies events
    ensures events[..] == Attributed(old(events[..]), groupID)
  {
    for i := 0 to events.Length
      invariant forall k :: 0 <= k < i ==> events[k] == Attribute(old(events[k]), groupID)
      invariant forall k :: i <= k < events.Length ==> events[k] == old(events[k])
    {
      if events[i].groupID == None && events[i].subGroupID == None {
        events[i] := events[i].(groupID := Some(groupID));
      }
    }
  }

  method AttributeReply(decoded: seq<Event>, groupID: string) returns (events: seq<Event>)
    ensures events == Attributed(decoded, groupID)
  {
    var reply := new Event[|decoded|](k requires 0 <= k < |decoded| => decoded[k]);
    assert reply[..] == decoded;
    AttributeInPlace(reply, groupID);
    return reply[..];
  }

  method AppendNew(combined: seq<Event>, seenByID: set<string>, events: seq<Event>, ghost before: seq<Event>)
    returns (combined': seq<Event>, seenByID': set<string>)
    requires combined == DedupEvents(before) && seenByID == IDs(combined)
    ensures combined' == DedupEvents(before + events) && seenByID' == IDs(combined')
  {
    combined', seenByID' := combined, seenByID;
    assert before + events[..0] == before;
    for i := 0 to |events|
      invariant combined' == DedupEvents(before + events[..i]) && seenByID' == IDs(combined')
    {
      combined', seenByID' := AppendIfNew(combined', seenByID', events[i], before + events[..i]);
      assert before + events[..i] + [events[i]] == before + events[..i + 1];
    }
    assert events[..|events|] == events;
  }

  method AppendIfNew(combined: seq<Event>, seenByID: set<string>, event: Event, ghost before: seq<Event>)
    returns (combined': seq<Event>, seenByID': set<string>)
    requires combined == DedupEvents(before) && seenByID == IDs(combined)
    ensures combined' == DedupEvents(before + [event]) && seenByID' == IDs(combined')
  {
    DedupSnoc(before, event);
    IDsSnoc(combined, event);
    if BlankID(event) {
      return combined + [event], seenByID;
    }
    if event.id in seenByID {
      return combined, seenByID;
    }
    return combined + [event], seenByID + {event.id};
  }

  lemma DedupSnoc(events: seq<Event>, e: Event)
    ensures DedupEvents(events + [e]) ==
            if !BlankID(e) && e.id in IDs(DedupEvents(events)) then DedupEvents(events) else DedupEvents(events) + [e]
  {
    assert (events + [e])[..|events|] == events;
  }

  lemma IDsSnoc(events: seq<Event>, e: Event)
    ensures IDs(events + [e]) == IDs(events) + if BlankID(e) then {} else {e.id}
  {
  }

  method FetchEventsForGroups(token: string, groupIDs: seq<string>, fetch: string -> Reply, fetchAll: Reply)
    returns (result: Reply)
    ensures result == FetchForGroups(token, groupIDs, fetch, fetchAll)
  {
    if token == "" {
      return Err(NOT_AUTHENTICATED);
    }
    var groups := FilterLists.NormalizeFilterList(groupIDs);
    if |groups| == 0 {
      return FetchEvents(token, fetchAll);
    }
    var combined: seq<Event> := [];
    var seenByID: set<string> := {};
    for i := 0 to |groups|
      invariant combined == DedupEvents(Combined(groups[..i], fetch)) && seenByID == IDs(combined)
      invariant FirstError(groups[..i], fetch) == None
    {
      RepliesSnoc(groups, i, fetch);
      var reply := fetch(groups[i]);
      if reply.Err? {
        FirstErrorKept(groups, fetch, i + 1);
        return Err(reply.error);
      }
      var events := AttributeReply(reply.value, groups[i]);
      combined, seenByID := AppendNew(combined, seenByID, events, Combined(groups[..i], fetch));
    }
    assert groups[..|groups|] == groups;
    return Ok(combined);
  }

  lemma RepliesSnoc(groups: seq<string>, i: nat, fetch: string -> Reply)
    requires i < |groups|
    ensures var g := groups[i];
      && Combined(groups[..i + 1], fetch) == Combined(groups[..i], fetch)
        + (if fetch(g).Ok? then Attributed(fetch(g).value, g) else [])
      && (FirstError(groups[..i], fetch) == None ==>
            FirstError(groups[..i + 1], fetch) == if fetch(g).Err? then Some(fetch(g).error) else None)
  {
    assert groups[..i + 1][..i] == groups[..i];
  }

  lemma {:induction false} FirstErrorKept(groups: seq<string>, fetch: string -> Reply, k: nat)
    requires k <= |groups| && FirstError(groups[..k], fetch).Some?
    ensures FirstError(groups, fetch) == FirstError(groups[..k], fetch)
    decreases |groups|
  {
    if k == |groups| {
      assert groups[..k] == groups;
    } else {
      var init := groups[..|groups| - 1];
      assert init[..k] == groups[..k];
      FirstErrorKept(init, fetch, k);
    }
  }

  // ----- what deduplication keeps -----

  ghost predicate Kept(events: seq<Event>, i: nat)
    requires i < |events|
  {
    BlankID(events[i]) || forall j :: 0 <= j < i ==> events[j].id != events[i].id
  }

  lemma IDsOf(events: seq<Event>, id: string)
    requires Trim(id) != ""
    ensures id in IDs(events) <==> exists i :: 0 <= i < |events| && events[i].id == id
  {
  }

  lemma {:induction false} DedupIDs(events: seq<Event>)
    ensures IDs(DedupEvents(events)) == IDs(events)
  {
    if events != [] {
      var init, e := events[..|events| - 1], events[|events| - 1];
      DedupIDs(init);
      assert events == init + [e];
      IDsSnoc(init, e);
      IDsSnoc(DedupEvents(init), e);
    }
  }

  lemma KeptLast(events: seq<Event>)
    requires events != []
    ensures var n := |events| - 1;
      Kept(events, n) <==> BlankID(events[n]) || events[n].id !in IDs(DedupEvents(events[..n]))
  {
    var n := |events| - 1;
    DedupIDs(events[..n]);
    if !BlankID(events[n]) {
      IDsOf(events[..n], events[n].id);
    }
  }

  /** `result` is the subsequence of `events` at the positions `at`, which are exactly the kept ones. */
  ghost predicate PickedAt(events: seq<Event>, result: seq<Event>, at: seq<nat>) {
    && |at| == |result|
    && (forall k :: 0 <= k < |at| ==> at[k] < |events| && result[k] == events[at[k]])
    && (forall k, l :: 0 <= k < l < |at| ==> at[k] < at[l])
    && (forall i :: 0 <= i < |events| ==> (i in at <==> Kept(events, i)))
  }

  lemma PickedSnoc(events: seq<Event>, e: Event, result: seq<Event>, at: seq<nat>)
    requires PickedAt(events, result, at)
    ensures Kept(events + [e], |events|) ==> PickedAt(events + [e], result + [e], at + [|events|])
    ensures !Kept(events + [e], |events|) ==> PickedAt(events + [e], result, at)
  {
    var more := events + [e];
    forall i | 0 <= i < |events|
      ensures Kept(events, i) <==> Kept(more, i)
    {
      assert forall j :: 0 <= j <= i ==> more[j] == events[j];
    }
    forall i | 0 <= i < |more| && Kept(more, |events|)
      ensures i in at + [|events|] <==> Kept(more, i)
    {
    }
  }

  /** The result is the subsequence at exactly the kept positions: the first occurrence of every id,
      and every event without one. */
  lemma {:induction false} DedupIsFirstOccurrences(events: seq<Event>) returns (at: seq<nat>)
    ensures PickedAt(events, DedupEvents(events), at)
  {
    if events == [] {
      return [];
    }
    var n := |events| - 1;
    at := DedupIsFirstOccurrences(events[..n]);
    KeptLast(events);
    PickedSnoc(events[..n], events[n], DedupEvents(events[..n]), at);
    assert events[..n] + [events[n]] == events;
    if Kept(events, n) {
      at := at + [n];
    }
  }

  /** Every id among the replies appears in the result exactly once. */
  lemma OncePerID(events: seq<Event>, id: string)
    requires id in IDs(events)
    ensures exists k :: 0 <= k < |DedupEvents(events)| && DedupEvents(events)[k].id == id
    ensures forall k, l :: 0 <= k < l < |DedupEvents(events)| && DedupEvents(events)[k].id == id ==>
            DedupEvents(events)[l].id != id
  {
    var at := DedupIsFirstOccurrences(events);
    DedupIDs(events);
    IDsOf(DedupEvents(events), id);
    forall k, l | 0 <= k < l < |at| && DedupEvents(events)[k].id == id
      ensures DedupEvents(events)[l].id != id
    {
      assert at[l] in at && Kept(events, at[l]);
      assert events[at[k]].id == id && at[k] < at[l];
    }
  }

  /** No event without an id is lost. */
  lemma {:induction false} BlanksKept(events: seq<Event>)
    ensures Lists.Select(DedupEvents(events), BlankID) == Lists.Select(events, BlankID)
  {
    if events != [] {
      var init, e := events[..|events| - 1], events[|events| - 1];
      BlanksKept(init);
      var kept := DedupEvents(init);
      assert (kept + [e])[..|kept|] == kept;
    }
  }

  // ----- groups -----

  lemma AttributedIDs(events: seq<Event>, groupID: string)
    ensures IDs(Attributed(events, groupID)) == IDs(events)
  {
    var out := Attributed(events, groupID);
    forall id
      ensures id in IDs(out) <==> id in IDs(events)
    {
      if e :| e in events && !BlankID(e) && e.id == id {
        var i :| 0 <= i < |events| && events[i] == e;
        assert out[i] in out && out[i].id == id;
      }
      if e :| e in out && !BlankID(e) && e.id == id {
        var i :| 0 <= i < |out| && out[i] == e;
        assert events[i] in events;
      }
    }
  }

  /** The ids fetched are the union over the requested groups. */
  lemma {:induction false} FetchedIDs(groups: seq<string>, fetch: string -> Reply, id: string)
    ensures id in IDs(Combined(groups, fetch)) <==>
            exists g :: g in groups && fetch(g).Ok? && id in IDs(fetch(g).value)
  {
    if groups != [] {
      var init, g := groups[..|groups| - 1], groups[|groups| - 1];
      FetchedIDs(init, fetch, id);
      assert groups == init + [g];
      var more := if fetch(g).Ok? then Attributed(fetch(g).value, g) else [];
      assert IDs(Combined(init, fetch) + more) == IDs(Combined(init, fetch)) + IDs(more);
      if fetch(g).Ok? {
        AttributedIDs(fetch(g).value, g);
      }
    }
  }

  lemma {:induction false} FirstErrorNone(groups: seq<string>, fetch: string -> Reply)
    ensures FirstError(groups, fetch) == None <==> forall g :: g in groups ==> fetch(g).Ok?
  {
    if groups != [] {
      var init, last := groups[..|groups| - 1], groups[|groups| - 1];
      FirstErrorNone(init, fetch);
      assert groups == init + [last];
    }
  }

  /** Whether a fetch fails, and which ids it returns if not, does not depend on the order, repetition or
      spelling of the requested groups. (Which error is reported does: the first in order.) */
  lemma FetchedIDsOrderIndependent(token: string, a: seq<string>, b: seq<string>, fetch: string -> Reply,
                                   fetchAll: Reply)
    requires forall g :: g in FilterLists.FilterList(a) <==> g in FilterLists.FilterList(b)
    ensures var x, y := FetchForGroups(token, a, fetch, fetchAll), FetchForGroups(token, b, fetch, fetchAll);
      && (x.Ok? <==> y.Ok?)
      && (x.Ok? ==> IDs(x.value) == IDs(y.value))
  {
    SameGroupsAlike(FilterLists.FilterList(a), FilterLists.FilterList(b), fetch);
  }

  lemma SameGroupsAlike(a: seq<string>, b: seq<string>, fetch: string -> Reply)
    requires forall g :: g in a <==> g in b
    ensures a == [] <==> b == []
    ensures FirstError(a, fetch) == None <==> FirstError(b, fetch) == None
    ensures IDs(DedupEvents(Combined(a, fetch))) == IDs(DedupEvents(Combined(b, fetch)))
  {
    assert a != [] ==> a[0] in b;
    assert b != [] ==> b[0] in a;
    FirstErrorNone(a, fetch);
    FirstErrorNone(b, fetch);
    CombinedIDsOrderIndependent(a, b, fetch);
  }

  lemma CombinedIDsOrderIndependent(a: seq<string>, b: seq<string>, fetch: string -> Reply)
    requires forall g :: g in a <==> g in b
    ensures IDs(DedupEvents(Combined(a, fetch))) == IDs(DedupEvents(Combined(b, fetch)))
  {
    DedupIDs(Combined(a, fetch));
    DedupIDs(Combined(b, fetch));
    forall id
      ensures id in IDs(Combined(a, fetch)) <==> id in IDs(Combined(b, fetch))
    {
      FetchedIDs(a, fetch, id);
      FetchedIDs(b, fetch, id);
    }
  }

  lemma {:induction false} CombinedAppend(a: seq<string>, b: seq<string>, fetch: string -> Reply)
    ensures Combined(a + b, fetch) == Combined(a, fetch) + Combined(b, fetch)
  {
    if b == [] {
      assert a + b == a;
    } else {
      assert (a + b)[..|a + b| - 1] == a + b[..|b| - 1];
      CombinedAppend(a, b[..|b| - 1], fetch);
    }
  }

  lemma {:induction false} DedupAppend(a: seq<Event>, b: seq<Event>)
    ensures DedupEvents(a + b) == DedupEvents(a) + Lists.Select(DedupEvents(b), e => BlankID(e) || e.id !in IDs(a))
  {
    if b == [] {
      assert a + b == a;
    } else {
      var init, e := b[..|b| - 1], b[|b| - 1];
      assert (a + b)[..|a + b| - 1] == a + init;
      DedupAppend(a, init);
      DedupIDs(a + init);
      DedupIDs(init);
      assert IDs(a + init) == IDs(a) + IDs(init);
      var kept := DedupEvents(init);
      assert (kept + [e])[..|kept|] == kept;
    }
  }

  lemma SameIDSameEvent(events: seq<Event>, x: Event, y: Event)
    requires x in DedupEvents(events) && y in DedupEvents(events) && x.id == y.id && !BlankID(x)
    ensures x == y
  {
    var all := DedupEvents(events);
    DedupIDs(events);
    assert x.id in IDs(all);
    OncePerID(events, x.id);
    var k :| 0 <= k < |all| && all[k] == x;
    var l :| 0 <= l < |all| && all[l] == y;
  }

  lemma FirstListWins(a: seq<Event>, b: seq<Event>, c: seq<Event>, e: Event)
    requires e in DedupEvents(b) && !BlankID(e) && e.id !in IDs(a)
    ensures e in DedupEvents(a + b + c)
  {
    DedupAppend(a + b, c);
    DedupAppend(a, b);
    Lists.SelectIn(DedupEvents(b), (x: Event) => BlankID(x) || x.id !in IDs(a), e);
  }

  /** An event with an id comes, with its attribution, from the first requested group whose reply holds
      that id: what a later group returns for the id is dropped. */
  lemma FirstGroupWins(before: seq<string>, g: string, after: seq<string>, fetch: string -> Reply, e: Event)
    requires fetch(g).Ok? && e in DedupEvents(Attributed(fetch(g).value, g)) && !BlankID(e)
    requires e.id !in IDs(Combined(before, fetch))
    ensures e in DedupEvents(Combined(before + [g] + after, fetch))
    ensures forall x :: x in DedupEvents(Combined(before + [g] + after, fetch)) && x.id == e.id ==> x == e
  {
    CombinedAppend(before + [g], after, fetch);
    CombinedAppend(before, [g], fetch);
    assert Combined([g], fetch) == Attributed(fetch(g).value, g) by {
      assert [g][..0] == [];
    }
    FirstListWins(Combined(before, fetch), Combined([g], fetch), Combined(after, fetch), e);
    forall x | x in DedupEvents(Combined(before + [g] + after, fetch)) && x.id == e.id
      ensures x == e
    {
      SameIDSameEvent(Combined(before + [g] + after, fetch), x, e);
    }
  }

  // ----- what a fetch returns, in terms of the replies -----

  /** The events of the replies, each with the group it was requested for, in the order requested. */
  function Replies(groups: seq<string>, fetch: string -> Reply): seq<(string, Event)> {
    if groups == [] then []
    else
      var g := groups[|groups| - 1];
      Replies(groups[..|groups| - 1], fetch) + if fetch(g).Ok? then Lists.Map(fetch(g).value, e => (g, e)) else []
  }

  /** `x` is the replied event, credited to the group if it names neither group nor subgroup. */
  predicate Credits(x: Event, reply: (string, Event)) {
    var (g, e) := reply;
    && x.id == e.id && x.heading == e.heading && x.start == e.start && x.end == e.end
    && x.responses == e.responses && x.subGroupID == e.subGroupID
    && x.groupID == if e.groupID.None? && e.subGroupID.None? then Some(g) else e.groupID
  }

  lemma {:induction false} CombinedCredits(groups: seq<string>, fetch: string -> Reply)
    ensures var all, replies := Combined(groups, fetch), Replies(groups, fetch);
      |all| == |replies| && forall i :: 0 <= i < |all| ==> Credits(all[i], replies[i])
  {
    if groups != [] {
      CombinedCredits(groups[..|groups| - 1], fetch);
    }
  }

  /** When a fetch fails, and with what: without an API token; without groups as the plain fetch does; else
      with the error of the first group in order whose reply is one. */
  lemma FetchOutcome(token: string, groupIDs: seq<string>, fetch: string -> Reply, fetchAll: Reply)
    ensures var r, groups := FetchForGroups(token, groupIDs, fetch, fetchAll), FilterLists.FilterList(groupIDs);
      && (token == "" ==> r == Err(NOT_AUTHENTICATED))
      && (token != "" && (forall i :: 0 <= i < |groupIDs| ==> Trim(groupIDs[i]) == "") ==> r == fetchAll)
      && (token != "" && groups != [] ==> (r.Ok? <==> forall g :: g in groups ==> fetch(g).Ok?))
      && (token != "" && groups != [] && r.Err? ==>
            exists i :: FirstFailure(groups, fetch, i) && fetch(groups[i]) == Err(r.error))
  {
    var groups := FilterLists.FilterList(groupIDs);
    FilterLists.FilterListCanonical(groupIDs);
    FirstErrorNone(groups, fetch);
    if groups != [] {
      assert groups[0] in groups;
    }
    if FirstError(groups, fetch).Some? {
      FirstErrorIs(groups, fetch);
    }
  }

  predicate FirstFailure(groups: seq<string>, fetch: string -> Reply, i: int) {
    0 <= i < |groups| && fetch(groups[i]).Err? && forall j :: 0 <= j < i ==> fetch(groups[j]).Ok?
  }

  lemma {:induction false} FirstErrorIs(groups: seq<string>, fetch: string -> Reply)
    requires FirstError(groups, fetch).Some?
    ensures exists i :: FirstFailure(groups, fetch, i) && fetch(groups[i]) == Err(FirstError(groups, fetch).value)
  {
    var n := |groups| - 1;
    var init := groups[..n];
    if FirstError(init, fetch).Some? {
      FirstErrorIs(init, fetch);
      var i :| FirstFailure(init, fetch, i) && fetch(init[i]) == Err(FirstError(init, fetch).value);
      assert FirstFailure(groups, fetch, i);
    } else {
      FirstErrorNone(init, fetch);
      assert forall j :: 0 <= j < n ==> groups[j] in init;
      assert FirstFailure(groups, fetch, n);
    }
  }

  /** The replied event at a position is the first with its id, or has none. */
  ghost predicate FirstWithID(replies: seq<(string, Event)>, i: int)
    requires 0 <= i < |replies|
  {
    Trim(replies[i].1.id) == "" || forall j :: 0 <= j < i ==> replies[j].1.id != replies[i].1.id
  }

  /** What a successful fetch for groups returns: of all the events replied, in the order requested,
      exactly the first with each id and every one without an id, each credited to its group if it names
      neither group nor subgroup and otherwise as replied. */
  lemma FetchExact(token: string, groupIDs: seq<string>, fetch: string -> Reply, fetchAll: Reply)
    returns (at: seq<nat>)
    requires FilterLists.FilterList(groupIDs) != [] && FetchForGroups(token, groupIDs, fetch, fetchAll).Ok?
    ensures var value := FetchForGroups(token, groupIDs, fetch, fetchAll).value;
      var replies := Replies(FilterLists.FilterList(groupIDs), fetch);
      && |at| == |value|
      && (forall k :: 0 <= k < |at| ==> at[k] < |replies| && Credits(value[k], replies[at[k]]))
      && (forall k, l :: 0 <= k < l < |at| ==> at[k] < at[l])
      && (forall i :: 0 <= i < |replies| ==> (i in at <==> FirstWithID(replies, i)))
  {
    var groups := FilterLists.FilterList(groupIDs);
    var all, replies := Combined(groups, fetch), Replies(groups, fetch);
    CombinedCredits(groups, fetch);
    at := DedupIsFirstOccurrences(all);
    forall i | 0 <= i < |replies|
      ensures Kept(all, i) <==> FirstWithID(replies, i)
    {
      assert all[i].id == replies[i].1.id;
      assert forall j :: 0 <= j < i ==> all[j].id == replies[j].1.id;
    }
  }

  /** No two events of a fetch share an id, and every id replied for a requested group is there. */
  lemma FetchedOnceEach(token: string, groupIDs: seq<string>, fetch: string -> Reply, fetchAll: Reply)
    requires FilterLists.FilterList(groupIDs) != [] && FetchForGroups(token, groupIDs, fetch, fetchAll).Ok?
    ensures var value := FetchForGroups(token, groupIDs, fetch, fetchAll).value;
      var groups := FilterLists.FilterList(groupIDs);
      && (forall k, l :: 0 <= k < l < |value| && Trim(value[k].id) != "" ==> value[k].id != value[l].id)
      && (forall g, e :: g in groups && fetch(g).Ok? && e in fetch(g).value && Trim(e.id) != "" ==>
            exists k :: 0 <= k < |value| && value[k].id == e.id)
  {
    var groups := FilterLists.FilterList(groupIDs);
    var value, all := FetchForGroups(token, groupIDs, fetch, fetchAll).value, Combined(groups, fetch);
    FirstErrorNone(groups, fetch);
    DedupIDs(all);
    forall k, l | 0 <= k < l < |value| && Trim(value[k].id) != ""
      ensures value[k].id != value[l].id
    {
      assert value[k] in value && value[k].id in IDs(value);
      OncePerID(all, value[k].id);
    }
    forall g, e | g in groups && fetch(g).Ok? && e in fetch(g).value && Trim(e.id) != ""
      ensures exists k :: 0 <= k < |value| && value[k].id == e.id
    {
      assert e.id in IDs(fetch(g).value);
      FetchedIDs(groups, fetch, e.id);
      IDsOf(value, e.id);
    }
  }

  lemma {:induction false} ReplyAt(groups: seq<string>, fetch: string -> Reply, i: nat) returns (p: nat, q: nat)
    requires i < |Replies(groups, fetch)|
    ensures p < |groups| && fetch(groups[p]).Ok? && q < |fetch(groups[p]).value|
    ensures Replies(groups, fetch)[i] == (groups[p], fetch(groups[p]).value[q])
    ensures i == |Replies(groups[..p], fetch)| + q
  {
    var n := |groups| - 1;
    var init := groups[..n];
    if i < |Replies(init, fetch)| {
      p, q := ReplyAt(init, fetch, i);
      assert init[..p] == groups[..p];
    } else {
      p, q := n, i - |Replies(init, fetch)|;
    }
  }

  lemma {:induction false} ReplyOf(groups: seq<string>, fetch: string -> Reply, p: nat, q: nat)
    requires p < |groups| && fetch(groups[p]).Ok? && q < |fetch(groups[p]).value|
    ensures var i := |Replies(groups[..p], fetch)| + q;
      i < |Replies(groups[..p + 1], fetch)| <= |Replies(groups, fetch)|
      && Replies(groups, fetch)[i] == (groups[p], fetch(groups[p]).value[q])
    decreases |groups|
  {
    var n := |groups| - 1;
    if p < n {
      ReplyOf(groups[..n], fetch, p, q);
      assert groups[..n][..p] == groups[..p] && groups[..n][..p + 1] == groups[..p + 1];
    } else {
      assert groups[..n + 1] == groups;
    }
  }

  lemma {:induction false} RepliesGrow(groups: seq<string>, fetch: string -> Reply, p: nat, q: nat)
    requires p <= q <= |groups|
    ensures |Replies(groups[..p], fetch)| <= |Replies(groups[..q], fetch)|
    decreases q
  {
    if p < q {
      assert groups[..q][..q - 1] == groups[..q - 1];
      RepliesGrow(groups, fetch, p, q - 1);
    }
  }

  /** Every returned event with an id is the first with that id in the reply for the first requested group
      that has the id, credited to that group if it names none. */
  lemma FetchedFrom(token: string, groupIDs: seq<string>, fetch: string -> Reply, fetchAll: Reply, k: nat)
    returns (p: nat, q: nat)
    requires FilterLists.FilterList(groupIDs) != [] && FetchForGroups(token, groupIDs, fetch, fetchAll).Ok?
    requires k < |FetchForGroups(token, groupIDs, fetch, fetchAll).value|
    requires Trim(FetchForGroups(token, groupIDs, fetch, fetchAll).value[k].id) != ""
    ensures var x := FetchForGroups(token, groupIDs, fetch, fetchAll).value[k];
      var groups := FilterLists.FilterList(groupIDs);
      && p < |groups| && fetch(groups[p]).Ok? && q < |fetch(groups[p]).value|
      && Credits(x, (groups[p], fetch(groups[p]).value[q]))
      && (forall r :: 0 <= r < q ==> fetch(groups[p]).value[r].id != x.id)
      && (forall g, r :: 0 <= g < p && fetch(groups[g]).Ok? && 0 <= r < |fetch(groups[g]).value| ==>
            fetch(groups[g]).value[r].id != x.id)
  {
    var groups := FilterLists.FilterList(groupIDs);
    var replies := Replies(groups, fetch);
    var at := FetchExact(token, groupIDs, fetch, fetchAll);
    var i := at[k];
    assert i in at && FirstWithID(replies, i);
    p, q := ReplyAt(groups, fetch, i);
    forall r | 0 <= r < q
      ensures fetch(groups[p]).value[r].id != replies[i].1.id
    {
      ReplyOf(groups, fetch, p, r);
    }
    forall g, r | 0 <= g < p && fetch(groups[g]).Ok? && 0 <= r < |fetch(groups[g]).value|
      ensures fetch(groups[g]).value[r].id != replies[i].1.id
    {
      ReplyOf(groups, fetch, g, r);
      RepliesGrow(groups, fetch, g + 1, p);
    }
  }
}
