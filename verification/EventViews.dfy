/** Turning fetched events into the rows that are shown and exported: status, group, the split into
    past and upcoming, and the sorted merge. */
module EventViews {
  import opened Text
  import opened EventModel
  import opened Lists

  // ----- status -----

  function ActorSet(actors: seq<string>): set<string> {
    set a | a in actors && Trim(a) != "" :: Trim(a)
  }

  predicate IncludesAny(ids: Option<seq<string>>, actors: seq<string>) {
    ids.Some? && exists id :: id in ids.value && id in ActorSet(actors)
  }

  /** Some listed id is an actor's, trimmed, and not blank. */
  lemma IncludesAnyExact(ids: Option<seq<string>>, actors: seq<string>)
    ensures IncludesAny(ids, actors) <==> ids.Some? && exists i, j ::
              0 <= i < |ids.value| && 0 <= j < |actors| && ids.value[i] == Trim(actors[j]) && ids.value[i] != ""
  {
    if ids.Some? {
      if i, j :| 0 <= i < |ids.value| && 0 <= j < |actors| && ids.value[i] == Trim(actors[j]) && ids.value[i] != "" {
        assert ids.value[i] in ids.value && actors[j] in actors;
      }
    }
  }

  method IncludesAnyID(ids: Option<seq<string>>, actors: seq<string>) returns (found: bool)
    ensures found <==> ids.Some? && exists i, j ::
              0 <= i < |ids.value| && 0 <= j < |actors| && ids.value[i] == Trim(actors[j]) && ids.value[i] != ""
  {
    IncludesAnyExact(ids, actors);
    if ids == None {
      return false;
    }
    var actorSet: set<string> := {};
    for i := 0 to |actors|
      invariant actorSet == ActorSet(actors[..i])
    {
      assert actors[..i + 1] == actors[..i] + [actors[i]];
      var trimmed := Trim(actors[i]);
      if trimmed == "" {
        continue;
      }
      actorSet := actorSet + {trimmed};
    }
    assert actors[..|actors|] == actors;
    for i := 0 to |ids.value|
      invariant forall k :: 0 <= k < i ==> ids.value[k] !in actorSet
    {
      if ids.value[i] in actorSet {
        return true;
      }
    }
    return false;
  }

  datatype Status = Status(name: string, css: string)

  function ResponseStatus(responses: Option<EventResponses>, actors: seq<string>): Status {
    if responses == None || |actors| == 0 then Status("Unknown", "unknown")
    else
      var r := responses.value;
      if IncludesAny(r.accepted, actors) then Status("Accepted", "accepted")
      else if IncludesAny(r.declined, actors) then Status("Declined", "declined")
      else if IncludesAny(r.waitinglist, actors) then Status("Waiting list", "waiting")
      else if IncludesAny(r.unconfirmed, actors) then Status("Unconfirmed", "unconfirmed")
      else if IncludesAny(r.unanswered, actors) then Status("Unanswered", "unanswered")
      else Status("Unknown", "unknown")
  }

  function StatusKeyFromCSS(css: string): string {
    var trimmed := Trim(css);
    if trimmed == "accepted" || trimmed == "declined" || trimmed == "unanswered" then trimmed else "other"
  }

  const STATUS_KEYS := ["accepted", "declined", "unanswered", "other"]

  function StatusKey(e: Event, actors: seq<string>): string {
    StatusKeyFromCSS(ResponseStatus(e.responses, actors).css)
  }

  lemma TrimmedWords()
    ensures Trim("accepted") == "accepted" && Trim("declined") == "declined" && Trim("unanswered") == "unanswered"
    ensures Trim("waiting") == "waiting" && Trim("unconfirmed") == "unconfirmed" && Trim("unknown") == "unknown"
  {
    TrimFixes("accepted");
    TrimFixes("declined");
    TrimFixes("unanswered");
    TrimFixes("waiting");
    TrimFixes("unconfirmed");
    TrimFixes("unknown");
  }

  /** The key of an event follows the first of accepted, declined, waiting list, unconfirmed and
      unanswered that names one of the actors; the three states without a filter of their own and the
      unknown state count as other. */
  lemma StatusKeyMeaning(e: Event, actors: seq<string>)
    ensures var r := if e.responses.Some? then e.responses.value else EventResponses(None, None, None, None, None);
      var yes, no := IncludesAny(r.accepted, actors), IncludesAny(r.declined, actors);
      var between := IncludesAny(r.waitinglist, actors) || IncludesAny(r.unconfirmed, actors);
      var open := IncludesAny(r.unanswered, actors);
      && (StatusKey(e, actors) == "accepted" <==> yes)
      && (StatusKey(e, actors) == "declined" <==> !yes && no)
      && (StatusKey(e, actors) == "unanswered" <==> !yes && !no && !between && open)
      && StatusKey(e, actors) in STATUS_KEYS
  {
    TrimmedWords();
    if |actors| == 0 {
      assert ActorSet(actors) == {};
    }
  }

  // ----- groups -----

  function EventGroup(e: Event, parents: map<string, string>): string {
    if e.groupID.Some? && Trim(e.groupID.value) != "" then Trim(e.groupID.value)
    else if e.subGroupID.Some? then
      var sub := Trim(e.subGroupID.value);
      if sub != "" && sub in parents && Trim(parents[sub]) != "" then parents[sub] else ""
    else ""
  }

  function SubGroupParents(parents: map<string, string>, subGroups: seq<SubGroup>,
                           parent: string): map<string, string>
  {
    if subGroups == [] then parents
    else
      var init := SubGroupParents(parents, subGroups[..|subGroups| - 1], parent);
      var id := subGroups[|subGroups| - 1].id;
      if id.Some? && Trim(id.value) != "" then init[Trim(id.value) := parent] else init
  }

  function ParentsOf(groups: seq<Group>): map<string, string> {
    if groups == [] then map[]
    else
      var g := groups[|groups| - 1];
      var subGroups := if g.subGroups.Some? then g.subGroups.value else [];
      SubGroupParents(ParentsOf(groups[..|groups| - 1]), subGroups, Trim(g.id))
  }

  method BuildSubGroupParentByID(groups: seq<Group>) returns (items: map<string, string>)
    ensures items == ParentsOf(groups)
  {
    items := map[];
    for i := 0 to |groups|
      invariant items == ParentsOf(groups[..i])
    {
      assert groups[..i + 1][..i] == groups[..i];
      if groups[i].subGroups == None {
        continue;
      }
      var subGroups, parent := groups[i].subGroups.value, Trim(groups[i].id);
      ghost var before := items;
      for j := 0 to |subGroups|
        invariant items == SubGroupParents(before, subGroups[..j], parent)
      {
        assert subGroups[..j + 1][..j] == subGroups[..j];
        if subGroups[j].id == None {
          continue;
        }
        var subGroupID := Trim(subGroups[j].id.value);
        if subGroupID == "" {
          continue;
        }
        items := items[subGroupID := parent];
      }
      assert subGroups[..|subGroups|] == subGroups;
    }
    assert groups[..|groups|] == groups;
  }

  predicate Names(g: Group, subGroupID: string) {
    && g.subGroups.Some?
    && var subs := g.subGroups.value;
      exists i :: 0 <= i < |subs| && subs[i].id.Some? && Trim(subs[i].id.value) == subGroupID
  }

  lemma {:induction false} SubGroupParentsExact(parents: map<string, string>, subGroups: seq<SubGroup>,
                                                parent: string, id: string)
    requires id != ""
    ensures var named := exists i :: 0 <= i < |subGroups| && subGroups[i].id.Some? && Trim(subGroups[i].id.value) == id;
      var after := SubGroupParents(parents, subGroups, parent);
      && (named ==> id in after && after[id] == parent)
      && (!named ==> (id in after <==> id in parents) && (id in parents ==> after[id] == parents[id]))
  {
    if subGroups != [] {
      var n := |subGroups| - 1;
      SubGroupParentsExact(parents, subGroups[..n], parent, id);
      if i :| 0 <= i < n && subGroups[i].id.Some? && Trim(subGroups[i].id.value) == id {
        assert subGroups[..n][i] == subGroups[i];
      }
    }
  }

  lemma ParentsStep(groups: seq<Group>, id: string)
    requires id != "" && groups != []
    ensures var n := |groups| - 1;
      var before, after := ParentsOf(groups[..n]), ParentsOf(groups);
      && (Names(groups[n], id) ==> id in after && after[id] == Trim(groups[n].id))
      && (!Names(groups[n], id) ==> (id in after <==> id in before) && (id in before ==> after[id] == before[id]))
  {
    var n := |groups| - 1;
    var g := groups[n];
    SubGroupParentsExact(ParentsOf(groups[..n]), if g.subGroups.Some? then g.subGroups.value else [], Trim(g.id), id);
  }

  /** A subgroup resolves to the last group that lists it ... */
  lemma {:induction false} ParentsLast(groups: seq<Group>, id: string, k: nat)
    requires id != "" && k < |groups| && Names(groups[k], id)
    requires forall l :: k < l < |groups| ==> !Names(groups[l], id)
    ensures id in ParentsOf(groups) && ParentsOf(groups)[id] == Trim(groups[k].id)
    decreases |groups|
  {
    ParentsStep(groups, id);
    if k < |groups| - 1 {
      ParentsLast(groups[..|groups| - 1], id, k);
    }
  }

  /** ... and to none if no group does. */
  lemma {:induction false} ParentsNone(groups: seq<Group>, id: string)
    requires id != "" && forall k :: 0 <= k < |groups| ==> !Names(groups[k], id)
    ensures id !in ParentsOf(groups)
  {
    if groups != [] {
      ParentsStep(groups, id);
      ParentsNone(groups[..|groups| - 1], id);
    }
  }

  function NamesOf(groups: seq<Group>): map<string, string> {
    if groups == [] then map[]
    else
      var init, g := groups[..|groups| - 1], groups[|groups| - 1];
      NamesOf(init)[g.id := Trim(g.name)]
  }

  method BuildGroupNamesByID(groups: seq<Group>) returns (items: map<string, string>)
    ensures items == NamesOf(groups)
  {
    items := map[];
    for i := 0 to |groups|
      invariant items == NamesOf(groups[..i])
    {
      assert groups[..i + 1][..i] == groups[..i];
      items := items[groups[i].id := Trim(groups[i].name)];
    }
    assert groups[..|groups|] == groups;
  }

  /** A group id is named by the last group with that id, trimmed ... */
  lemma {:induction false} NamesLast(groups: seq<Group>, id: string, k: nat)
    requires k < |groups| && groups[k].id == id && forall l :: k < l < |groups| ==> groups[l].id != id
    ensures id in NamesOf(groups) && NamesOf(groups)[id] == Trim(groups[k].name)
    decreases |groups|
  {
    if k < |groups| - 1 {
      NamesLast(groups[..|groups| - 1], id, k);
    }
  }

  /** ... and has no name without one. */
  lemma {:induction false} NamesNone(groups: seq<Group>, id: string)
    requires forall k :: 0 <= k < |groups| ==> groups[k].id != id
    ensures id !in NamesOf(groups)
  {
    if groups != [] {
      NamesNone(groups[..|groups| - 1], id);
    }
  }

  // ----- rows -----

  function GroupName(groupID: string, names: map<string, string>): string {
    if groupID == "" then "No group"
    else if groupID in names && Trim(names[groupID]) != "" then names[groupID]
    else groupID
  }

  function ViewOf(e: Event, actors: seq<string>, names: map<string, string>, parents: map<string, string>): EventView {
    var groupID := EventGroup(e, parents);
    EventView(e.id, e.heading, e.start, e.end, groupID, GroupName(groupID, names),
              ResponseStatus(e.responses, actors).name, StatusKey(e, actors), ResponseStatus(e.responses, actors).css)
  }

  function Views(events: seq<Event>, actors: seq<string>, names: map<string, string>,
                 parents: map<string, string>): seq<EventView>
  {
    Map(events, e => ViewOf(e, actors, names, parents))
  }

  predicate Sorted(views: seq<EventView>) {
    forall i, j :: 0 <= i < j < |views| ==> views[i].startAt.nanos <= views[j].startAt.nanos
  }

  /** What `sort.Slice` promises: an ordered permutation, ties in any order. */
  ghost predicate IsSortOf(out: seq<EventView>, views: seq<EventView>) {
    Sorted(out) && multiset(out) == multiset(views)
  }

  method SortByStart(views: seq<EventView>) returns (out: seq<EventView>)
    ensures IsSortOf(out, views)
  {
    out := [];
    for i := 0 to |views|
      invariant IsSortOf(out, views[..i])
    {
      assert views[..i + 1] == views[..i] + [views[i]];
      out := InsertByStart(out, views[i]);
    }
    assert views[..|views|] == views;
  }

  method InsertByStart(views: seq<EventView>, v: EventView) returns (out: seq<EventView>)
    requires Sorted(views)
    ensures IsSortOf(out, views + [v])
  {
    var k := |views|;
    while k > 0 && Before(v.startAt, views[k - 1].startAt)
      invariant 0 <= k <= |views|
      invariant k < |views| ==> v.startAt.nanos <= views[k].startAt.nanos
    {
      k := k - 1;
    }
    InsertedPermutes(views, k, v);
    out := views[..k] + [v] + views[k..];
  }

  lemma InsertedPermutes(views: seq<EventView>, k: nat, v: EventView)
    requires k <= |views|
    ensures multiset(views[..k] + [v] + views[k..]) == multiset(views + [v])
  {
    assert views == views[..k] + views[k..];
  }

  predicate Past(v: EventView, now: Instant) {
    Before(v.startAt, now)
  }

  /** The two halves of the view: sorted permutations of the events before `now` and of the rest. */
  ghost predicate IsSplit(upcoming: seq<EventView>, past: seq<EventView>, views: seq<EventView>, now: Instant) {
    && IsSortOf(upcoming, Select(views, v => !Past(v, now)))
    && IsSortOf(past, Select(views, v => Past(v, now)))
  }

  method BuildEventViewData(events: seq<Event>, actors: seq<string>, names: map<string, string>,
                            parents: map<string, string>, now: Instant)
    returns (upcoming: seq<EventView>, past: seq<EventView>)
    ensures IsSplit(upcoming, past, Views(events, actors, names, parents), now)
  {
    var ahead: seq<EventView> := [];
    var behind: seq<EventView> := [];
    ghost var views := Views(events, actors, names, parents);
    for i := 0 to |events|
      invariant ahead == Select(views[..i], v => !Past(v, now))
      invariant behind == Select(views[..i], v => Past(v, now))
    {
      SelectSnoc(views, i, v => !Past(v, now));
      SelectSnoc(views, i, v => Past(v, now));
      var event := events[i];
      var status := ResponseStatus(event.responses, actors);
      var groupID := EventGroup(event, parents);
      var groupName := "No group";
      if groupID != "" {
        groupName := groupID;
        if groupID in names && Trim(names[groupID]) != "" {
          groupName := names[groupID];
        }
      }
      var item := EventView(event.id, event.heading, event.start, event.end, groupID, groupName,
                            status.name, StatusKeyFromCSS(status.css), status.css);
      assert item == views[i];
      if Before(event.start, now) {
        behind := behind + [item];
        continue;
      }
      ahead := ahead + [item];
    }
    assert views[..|events|] == views;
    upcoming := SortByStart(ahead);
    past := SortByStart(behind);
  }

  method MergedSortedEvents(upcoming: seq<EventView>, past: seq<EventView>) returns (all: seq<EventView>)
    ensures IsSortOf(all, upcoming + past)
  {
    all := SortByStart(upcoming + past);
  }

  // ----- conservation -----

  /** Splitting and merging loses and invents nothing: the merge is a sorted permutation of all the
      events, and in it every past event stands before every upcoming one. */
  lemma SplitMergeConserves(upcoming: seq<EventView>, past: seq<EventView>, views: seq<EventView>,
                            merged: seq<EventView>, now: Instant)
    requires IsSplit(upcoming, past, views, now) && IsSortOf(merged, upcoming + past)
    ensures IsSortOf(merged, views)
    ensures forall i, j :: 0 <= i < |merged| && 0 <= j < |merged| && Past(merged[i], now) && !Past(merged[j], now) ==>
            i < j
  {
    SelectSplits(views, v => Past(v, now), v => !Past(v, now));
    assert multiset(merged) == multiset(upcoming) + multiset(past);
  }

  // ----- the group and status filters -----

  predicate Shown(v: EventView, groupIDs: set<string>, statuses: set<string>) {
    (groupIDs == {} || v.groupID in groupIDs) && (statuses == {} || v.statusKey in statuses)
  }

  method FilterEventViewData(items: seq<EventView>, groupIDs: set<string>, statuses: set<string>)
    returns (filtered: seq<EventView>)
    ensures filtered == Select(items, v => Shown(v, groupIDs, statuses))
    ensures forall v :: multiset(filtered)[v] ==
              if (groupIDs == {} || v.groupID in groupIDs) && (statuses == {} || v.statusKey in statuses)
              then multiset(items)[v] else 0
  {
    SelectCount(items, v => Shown(v, groupIDs, statuses));
    if groupIDs == {} && statuses == {} {
      SelectAll(items, v => Shown(v, groupIDs, statuses));
      return items;
    }
    filtered := [];
    for i := 0 to |items|
      invariant filtered == Select(items[..i], v => Shown(v, groupIDs, statuses))
    {
      SelectSnoc(items, i, v => Shown(v, groupIDs, statuses));
      var item := items[i];
      if groupIDs != {} {
        if item.groupID !in groupIDs {
          continue;
        }
      }
      if statuses != {} {
        if item.statusKey !in statuses {
          continue;
        }
      }
      filtered := filtered + [item];
    }
    assert items[..|items|] == items;
  }

  lemma {:induction false} SelectAll(items: seq<EventView>, keep: EventView -> bool)
    requires forall v :: v in items ==> keep(v)
    ensures Select(items, keep) == items
  {
    if items != [] {
      var init, last := items[..|items| - 1], items[|items| - 1];
      assert last in items && forall v :: v in init ==> v in items;
      SelectAll(init, keep);
      assert items == init + [last];
    }
  }

  lemma KeyCount(views: seq<EventView>, key: string)
    ensures forall v :: multiset(Select(views, v => Shown(v, {}, {key})))[v] ==
                        if v.statusKey == key then multiset(views)[v] else 0
  {
    SelectCount(views, v => Shown(v, {}, {key}));
  }

  lemma KeysCover(views: seq<EventView>, a: string, b: string, c: string, d: string)
    requires a != b && a != c && a != d && b != c && b != d && c != d
    requires forall v :: v in views ==> v.statusKey == a || v.statusKey == b || v.statusKey == c || v.statusKey == d
    ensures multiset(views) ==
      multiset(Select(views, v => Shown(v, {}, {a}))) + multiset(Select(views, v => Shown(v, {}, {b})))
      + multiset(Select(views, v => Shown(v, {}, {c}))) + multiset(Select(views, v => Shown(v, {}, {d})))
  {
    KeyCount(views, a);
    KeyCount(views, b);
    KeyCount(views, c);
    KeyCount(views, d);
    assert forall v :: multiset(views)[v] > 0 ==> v in views;
  }

  /** The four status filters cut every list of views into four parts with no loss and no overlap. */
  lemma StatusFiltersPartition(events: seq<Event>, actors: seq<string>, names: map<string, string>,
                               parents: map<string, string>)
    ensures var views := Views(events, actors, names, parents);
      multiset(views) ==
        multiset(Select(views, v => Shown(v, {}, {"accepted"})))
        + multiset(Select(views, v => Shown(v, {}, {"declined"})))
        + multiset(Select(views, v => Shown(v, {}, {"unanswered"})))
        + multiset(Select(views, v => Shown(v, {}, {"other"})))
  {
    var views := Views(events, actors, names, parents);
    forall v | v in views
      ensures v.statusKey in STATUS_KEYS
    {
      var i :| 0 <= i < |views| && views[i] == v;
      StatusKeyMeaning(events[i], actors);
    }
    KeysCover(views, "accepted", "declined", "unanswered", "other");
  }

  // ----- what a row says, in terms of the event and the groups -----

  /** The k-th group is the last that lists the subgroup. */
  ghost predicate LastListing(groups: seq<Group>, subGroupID: string, k: int) {
    0 <= k < |groups| && Names(groups[k], subGroupID) && forall l :: k < l < |groups| ==> !Names(groups[l], subGroupID)
  }

  /** The group an event belongs to: the one it names; else the last group that lists its subgroup; else,
      or if that group has a blank id, none. */
  ghost predicate BelongsTo(e: Event, groups: seq<Group>, groupID: string) {
    if e.groupID.Some? && Trim(e.groupID.value) != "" then groupID == Trim(e.groupID.value)
    else if e.subGroupID.Some? && Trim(e.subGroupID.value) != ""
            && exists k :: LastListing(groups, Trim(e.subGroupID.value), k)
    then exists k :: LastListing(groups, Trim(e.subGroupID.value), k) && groupID == Trim(groups[k].id)
    else groupID == ""
  }

  lemma {:induction false} LastListingExists(groups: seq<Group>, subGroupID: string, k: nat) returns (l: nat)
    requires k < |groups| && Names(groups[k], subGroupID)
    ensures LastListing(groups, subGroupID, l)
    decreases |groups| - k
  {
    if i :| k < i < |groups| && Names(groups[i], subGroupID) {
      l := LastListingExists(groups, subGroupID, i);
    } else {
      l := k;
    }
  }

  lemma EventGroupExact(e: Event, groups: seq<Group>, groupID: string)
    ensures EventGroup(e, ParentsOf(groups)) == groupID <==> BelongsTo(e, groups, groupID)
  {
    if !(e.groupID.Some? && Trim(e.groupID.value) != "") && e.subGroupID.Some? && Trim(e.subGroupID.value) != "" {
      var sub := Trim(e.subGroupID.value);
      if k :| 0 <= k < |groups| && Names(groups[k], sub) {
        var l := LastListingExists(groups, sub, k);
        ParentsLast(groups, sub, l);
        TrimIdempotent(groups[l].id);
        assert forall m :: LastListing(groups, sub, m) ==> m == l;
      } else {
        ParentsNone(groups, sub);
      }
    }
  }

  /** The k-th group is the last with the id. */
  ghost predicate LastWithID(groups: seq<Group>, id: string, k: int) {
    0 <= k < |groups| && groups[k].id == id && forall l :: k < l < |groups| ==> groups[l].id != id
  }

  /** The name shown for a group id: the trimmed name of the last group with that id, the id itself if there
      is none or its name is blank, and a phrase for no group. */
  ghost predicate ShownAs(groupID: string, groups: seq<Group>, name: string) {
    if groupID == "" then name == "No group"
    else if exists k :: LastWithID(groups, groupID, k) && Trim(groups[k].name) != ""
    then exists k :: LastWithID(groups, groupID, k) && name == Trim(groups[k].name)
    else name == groupID
  }

  lemma {:induction false} LastWithIDExists(groups: seq<Group>, id: string, k: nat) returns (l: nat)
    requires k < |groups| && groups[k].id == id
    ensures LastWithID(groups, id, l)
    decreases |groups| - k
  {
    if i :| k < i < |groups| && groups[i].id == id {
      l := LastWithIDExists(groups, id, i);
    } else {
      l := k;
    }
  }

  lemma GroupNameExact(groupID: string, groups: seq<Group>, name: string)
    ensures GroupName(groupID, NamesOf(groups)) == name <==> ShownAs(groupID, groups, name)
  {
    if k :| 0 <= k < |groups| && groups[k].id == groupID {
      var l := LastWithIDExists(groups, groupID, k);
      NamesLast(groups, groupID, l);
      TrimIdempotent(groups[l].name);
      assert forall m :: LastWithID(groups, groupID, m) ==> m == l;
    } else {
      NamesNone(groups, groupID);
    }
  }

  /** Some actor is in a response list. */
  ghost predicate Answered(ids: Option<seq<string>>, actors: seq<string>) {
    ids.Some? && exists i, j ::
      0 <= i < |ids.value| && 0 <= j < |actors| && ids.value[i] == Trim(actors[j]) && ids.value[i] != ""
  }

  /** The status shown follows the first of the five response lists, in this order, that names an actor. */
  ghost predicate ShowsStatus(e: Event, actors: seq<string>, status: string, key: string, css: string) {
    var r := if e.responses.Some? then e.responses.value else EventResponses(None, None, None, None, None);
    if Answered(r.accepted, actors) then status == "Accepted" && key == "accepted" && css == "accepted"
    else if Answered(r.declined, actors) then status == "Declined" && key == "declined" && css == "declined"
    else if Answered(r.waitinglist, actors) then status == "Waiting list" && key == "other" && css == "waiting"
    else if Answered(r.unconfirmed, actors) then status == "Unconfirmed" && key == "other" && css == "unconfirmed"
    else if Answered(r.unanswered, actors) then status == "Unanswered" && key == "unanswered" && css == "unanswered"
    else status == "Unknown" && key == "other" && css == "unknown"
  }

  lemma StatusExact(e: Event, actors: seq<string>)
    ensures var s := ResponseStatus(e.responses, actors); ShowsStatus(e, actors, s.name, StatusKey(e, actors), s.css)
  {
    TrimmedWords();
    if e.responses.Some? {
      var r := e.responses.value;
      IncludesAnyExact(r.accepted, actors);
      IncludesAnyExact(r.declined, actors);
      IncludesAnyExact(r.waitinglist, actors);
      IncludesAnyExact(r.unconfirmed, actors);
      IncludesAnyExact(r.unanswered, actors);
    }
  }

  /** A row says of its event what it is: its id, heading and times, the group it belongs to with that
      group's name, and the actors' status. */
  ghost predicate Describes(v: EventView, e: Event, actors: seq<string>, groups: seq<Group>) {
    && v.eventID == e.id && v.heading == e.heading && v.startAt == e.start && v.endAt == e.end
    && BelongsTo(e, groups, v.groupID) && ShownAs(v.groupID, groups, v.groupName)
    && ShowsStatus(e, actors, v.status, v.statusKey, v.statusCSS)
  }

  lemma ViewDescribes(e: Event, actors: seq<string>, groups: seq<Group>)
    ensures Describes(ViewOf(e, actors, NamesOf(groups), ParentsOf(groups)), e, actors, groups)
  {
    var v := ViewOf(e, actors, NamesOf(groups), ParentsOf(groups));
    EventGroupExact(e, groups, v.groupID);
    GroupNameExact(v.groupID, groups, v.groupName);
    StatusExact(e, actors);
  }

  /** The rows built for a list of events describe them one by one; those that start before `now` are the
      past ones, in order of their start, and the others the upcoming ones. */
  lemma BuiltViewsDescribe(events: seq<Event>, actors: seq<string>, groups: seq<Group>, now: Instant,
                           upcoming: seq<EventView>, past: seq<EventView>)
    requires IsSplit(upcoming, past, Views(events, actors, NamesOf(groups), ParentsOf(groups)), now)
    ensures exists views: seq<EventView> ::
              && |views| == |events| && multiset(views) == multiset(upcoming) + multiset(past)
              && (forall i :: 0 <= i < |events| ==> Describes(views[i], events[i], actors, groups))
    ensures forall v :: v in past ==> v.startAt.nanos < now.nanos
    ensures forall v :: v in upcoming ==> v.startAt.nanos >= now.nanos
    ensures forall i, j :: 0 <= i < j < |past| ==> past[i].startAt.nanos <= past[j].startAt.nanos
    ensures forall i, j :: 0 <= i < j < |upcoming| ==> upcoming[i].startAt.nanos <= upcoming[j].startAt.nanos
  {
    var views := Views(events, actors, NamesOf(groups), ParentsOf(groups));
    SelectSplits(views, v => Past(v, now), v => !Past(v, now));
    forall i | 0 <= i < |events|
      ensures Describes(views[i], events[i], actors, groups)
    {
      ViewDescribes(events[i], actors, groups);
    }
    SplitSides(views, past, v => Past(v, now));
    SplitSides(views, upcoming, v => !Past(v, now));
  }

  lemma SplitSides(views: seq<EventView>, side: seq<EventView>, keep: EventView -> bool)
    requires multiset(side) == multiset(Select(views, keep))
    ensures forall v :: v in side ==> keep(v)
  {
    forall v | v in side
      ensures keep(v)
    {
      assert v in multiset(side);
      SelectIn(views, keep, v);
    }
  }
}
