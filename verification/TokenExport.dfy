/** The export behind an access token, end to end: authorisation, fetch, view, scope filter, print. */
module TokenExport {
  import opened Text
  import FilterLists
  import opened EventModel
  import opened Lists
  import EventFetch
  import opened EventViews
  import opened AccessScope
  import IcsText
  import IcsDocument
  import IcsRoundTrip
  import EventUids
  import AccessTokens
  import UserTokens

  // ----- what a scope exports -----

  ghost predicate AllowedView(scope: Scope, v: EventView, now: Instant) {
    Allowed(scope, v.groupID, v.statusKey, Past(v, now))
  }

  /** The views of the fetched events that the scope allows. */
  ghost function ExportList(fetched: seq<Event>, scope: Scope, names: map<string, string>,
                            parents: map<string, string>, now: Instant): seq<EventView>
  {
    Select(Views(fetched, scope.actorIDs, names, parents), v => AllowedView(scope, v, now))
  }

  /** An event is exported when the rule that governs the group it belongs to lists its status and, if it
      has started, includes the past. */
  ghost predicate EventExported(e: Event, scope: Scope, groups: seq<Group>, now: Instant) {
    exists v ::
      Describes(v, e, scope.actorIDs, groups)
      && Allowed(scope, v.groupID, v.statusKey, e.start.nanos < now.nanos)
  }

  lemma ViewExported(e: Event, scope: Scope, groups: seq<Group>, now: Instant)
    ensures AllowedView(scope, ViewOf(e, scope.actorIDs, NamesOf(groups), ParentsOf(groups)), now) <==>
            EventExported(e, scope, groups, now)
  {
    var view := ViewOf(e, scope.actorIDs, NamesOf(groups), ParentsOf(groups));
    ViewDescribes(e, scope.actorIDs, groups);
    if EventExported(e, scope, groups, now) {
      var v :| Describes(v, e, scope.actorIDs, groups)
               && Allowed(scope, v.groupID, v.statusKey, e.start.nanos < now.nanos);
      DescribedAlike(v, view, e, scope.actorIDs, groups);
    }
  }

  /** Two rows that describe an event agree on its group and status. */
  lemma DescribedAlike(v: EventView, w: EventView, e: Event, actors: seq<string>, groups: seq<Group>)
    requires Describes(v, e, actors, groups) && Describes(w, e, actors, groups)
    ensures v.groupID == w.groupID && v.statusKey == w.statusKey
  {
    EventGroupExact(e, groups, v.groupID);
    EventGroupExact(e, groups, w.groupID);
  }

  ghost function ExportedAt(fetched: seq<Event>, scope: Scope, groups: seq<Group>, now: Instant): int -> bool {
    i => 0 <= i < |fetched| && EventExported(fetched[i], scope, groups, now)
  }

  /** The listed rows describe, one by one and in the order fetched, the events at the given positions,
      which are those of exactly the exported events. */
  ghost predicate ListsExported(list: seq<EventView>, fetched: seq<Event>, scope: Scope, groups: seq<Group>,
                                now: Instant, at: seq<nat>)
  {
    Picks(|fetched|, at, ExportedAt(fetched, scope, groups, now)) && DescribesAt(list, fetched, scope, groups, at)
  }

  ghost predicate DescribesAt(list: seq<EventView>, fetched: seq<Event>, scope: Scope, groups: seq<Group>,
                              at: seq<nat>)
  {
    && |at| == |list|
    && forall k :: 0 <= k < |at| ==>
         at[k] < |fetched| && Describes(list[k], fetched[at[k]], scope.actorIDs, groups)
  }

  lemma DescribesSnoc(list: seq<EventView>, fetched: seq<Event>, scope: Scope, groups: seq<Group>, at: seq<nat>,
                      view: EventView)
    requires fetched != [] && DescribesAt(list, fetched[..|fetched| - 1], scope, groups, at)
    requires Describes(view, fetched[|fetched| - 1], scope.actorIDs, groups)
    ensures DescribesAt(list, fetched, scope, groups, at)
    ensures DescribesAt(list + [view], fetched, scope, groups, at + [|fetched| - 1])
  {
  }

  /** The export list in terms of events and groups. */
  lemma {:induction false} ExportListOfEvents(fetched: seq<Event>, scope: Scope, groups: seq<Group>, now: Instant)
    returns (at: seq<nat>)
    ensures ListsExported(ExportList(fetched, scope, NamesOf(groups), ParentsOf(groups), now),
                          fetched, scope, groups, now, at)
  {
    if fetched == [] {
      return [];
    }
    var init, e := fetched[..|fetched| - 1], fetched[|fetched| - 1];
    at := ExportListOfEvents(init, scope, groups, now);
    ExportListSnoc(fetched, scope, groups, now);
    ViewExported(e, scope, groups, now);
    ViewDescribes(e, scope.actorIDs, groups);
    DescribesSnoc(ExportList(init, scope, NamesOf(groups), ParentsOf(groups), now), fetched, scope, groups, at,
                  ViewOf(e, scope.actorIDs, NamesOf(groups), ParentsOf(groups)));
    PicksSnoc(|init|, at, ExportedAt(init, scope, groups, now), ExportedAt(fetched, scope, groups, now));
    if EventExported(e, scope, groups, now) {
      at := at + [|fetched| - 1];
    }
  }

  lemma ExportListSnoc(fetched: seq<Event>, scope: Scope, groups: seq<Group>, now: Instant)
    requires fetched != []
    ensures var names, parents, n := NamesOf(groups), ParentsOf(groups), |fetched| - 1;
      var view := ViewOf(fetched[n], scope.actorIDs, names, parents);
      ExportList(fetched, scope, names, parents, now) ==
      ExportList(fetched[..n], scope, names, parents, now) + if AllowedView(scope, view, now) then [view] else []
  {
    MapInit(fetched, e => ViewOf(e, scope.actorIDs, NamesOf(groups), ParentsOf(groups)));
    var views := Views(fetched, scope.actorIDs, NamesOf(groups), ParentsOf(groups));
    SelectSnoc(views, |views| - 1, v => AllowedView(scope, v, now));
    assert views[..|views|] == views;
  }

  /** The two halves of the view, filtered by the rules and merged, are a sorted permutation of the
      export list: the chain is sound and complete for every scope. */
  lemma ExportSoundComplete(fetched: seq<Event>, scope: Scope, names: map<string, string>,
                            parents: map<string, string>, now: Instant,
                            upcoming: seq<EventView>, past: seq<EventView>, out: seq<EventView>)
    requires IsSplit(upcoming, past, Views(fetched, scope.actorIDs, names, parents), now)
    requires var rules := RulesByID(scope.groups);
      IsSortOf(out, Select(upcoming, v => Matches(rules, v, true)) + Select(past, v => Matches(rules, v, false)))
    ensures IsSortOf(out, ExportList(fetched, scope, names, parents, now))
  {
    var views := Views(fetched, scope.actorIDs, names, parents);
    var rules := RulesByID(scope.groups);
    SelectCount(views, v => !Past(v, now));
    SelectCount(views, v => Past(v, now));
    SelectCount(upcoming, v => Matches(rules, v, true));
    SelectCount(past, v => Matches(rules, v, false));
    SelectCount(views, v => AllowedView(scope, v, now));
    var kept, keptPast := Select(upcoming, v => Matches(rules, v, true)), Select(past, v => Matches(rules, v, false));
    forall v
      ensures multiset(kept + keptPast)[v] == multiset(ExportList(fetched, scope, names, parents, now))[v]
    {
      AllowedMatches(scope, v, now);
      assert multiset(kept + keptPast)[v] == multiset(kept)[v] + multiset(keptPast)[v];
    }
    assert multiset(kept + keptPast) == multiset(ExportList(fetched, scope, names, parents, now));
  }

  /** A view is allowed exactly if it is kept in its half. */
  lemma AllowedMatches(scope: Scope, v: EventView, now: Instant)
    ensures AllowedView(scope, v, now) <==> Matches(RulesByID(scope.groups), v, !Past(v, now))
  {
    MatchesExact(scope, v, !Past(v, now));
  }

  /** An event without a resolved group is never exported, and an exported event's group has a rule. */
  lemma ExportedHasGroup(fetched: seq<Event>, scope: Scope, names: map<string, string>, parents: map<string, string>,
                         now: Instant, v: EventView)
    requires CanonicalScope(scope)
    ensures v in ExportList(fetched, scope, names, parents, now) ==>
            v.groupID != "" && exists i :: 0 <= i < |scope.groups| && scope.groups[i].groupID == v.groupID
  {
    SelectIn(Views(fetched, scope.actorIDs, names, parents), v' => AllowedView(scope, v', now), v);
  }

  /** Widening the rules of a scope, for fixed fetched events, never removes an event. */
  lemma WideningMonotone(fetched: seq<Event>, scope: Scope, wider: Scope, names: map<string, string>,
                         parents: map<string, string>, now: Instant)
    requires Widens(scope, wider) && scope.actorIDs == wider.actorIDs
    ensures multiset(ExportList(fetched, scope, names, parents, now)) <=
            multiset(ExportList(fetched, wider, names, parents, now))
  {
    forall v: EventView | AllowedView(scope, v, now)
      ensures AllowedView(wider, v, now)
    {
      WidensAllowed(scope, wider, v.groupID, v.statusKey, Past(v, now));
    }
    SelectMonotone(Views(fetched, scope.actorIDs, names, parents),
                   v => AllowedView(scope, v, now),
                   v => AllowedView(wider, v, now));
  }

  lemma DescribedNotBlank(v: EventView, e: Event, actors: seq<string>, groups: seq<Group>)
    requires Describes(v, e, actors, groups)
    ensures Trim(v.groupName) != "" && Trim(v.status) != ""
  {
    TrimFixes("No group");
    if e.groupID.Some? {
      TrimIdempotent(e.groupID.value);
    }
    forall k | 0 <= k < |groups|
      ensures Trim(Trim(groups[k].id)) == Trim(groups[k].id) && Trim(Trim(groups[k].name)) == Trim(groups[k].name)
    {
      TrimIdempotent(groups[k].id);
      TrimIdempotent(groups[k].name);
    }
  }

  /** What a calendar reader sees of one event: its own id, or else its second and heading; its times and
      heading; its group's name and the actors' status as the description, and the name as the one
      category. */
  lemma ExportedEventReads(v: EventView, e: Event, actors: seq<string>, groups: seq<Group>, generatedAt: Instant)
    requires Describes(v, e, actors, groups)
    ensures var p := IcsDocument.Expected(v, generatedAt);
      && p.start == e.start.utc && p.end == e.end.utc && p.stamp == generatedAt.utc
      && p.summary == IcsText.Readable(e.heading)
      && (Trim(e.id) != "" ==> p.uid == IcsText.Readable(e.id))
      && (Trim(e.id) == "" ==>
            p.uid == IcsDocument.IntText(Unix(e.start)) + "-" + IcsDocument.SanitizeUID(e.heading) + "@spond-webcal")
      && p.description == Some(IcsText.Readable("Group: " + v.groupName + "\n" + "Status: " + v.status))
      && p.categories == [IcsText.Readable(v.groupName)]
  {
    TrimIdempotent(e.id);
    DescribedNotBlank(v, e, actors, groups);
    IcsDocument.DescriptionReads(v, generatedAt);
    if Trim(e.id) == "" {
      EventUids.GeneratedReadable(Unix(e.start), e.heading);
    }
  }

  // ----- the request handler -----

  /** The Spond API as one user's token sees it, and the decoder of stored scopes. */
  datatype Backend = Backend(
    groups: string -> Result<seq<Group>, string>,
    groupEvents: string -> string -> EventFetch.Reply,
    allEvents: string -> EventFetch.Reply,
    decode: string -> Option<Scope>)

  function RequestedGroups(scope: Scope): seq<string> {
    FilterLists.FilterList(Map(scope.groups, (r: Rule) => r.groupID))
  }

  /** For a normalised scope the handler asks for exactly the groups of the rules, in their order, and
      does not refuse for want of groups. */
  lemma NormalizedScopeRequests(req: TokenRequest, actorIDs: seq<string>)
    requires Normalize(req, actorIDs).Ok?
    ensures var scope := Normalize(req, actorIDs).value.1;
      && DistinctGroups(scope.groups)
      && RequestedGroups(scope) == Map(scope.groups, (r: Rule) => r.groupID)
      && RequestedGroups(scope) != []
  {
    NormalizeCanonical(req, actorIDs);
    var scope := Normalize(req, actorIDs).value.1;
    var ids := Map(scope.groups, (r: Rule) => r.groupID);
    forall id | id in ids
      ensures id != "" && Trimmed(id)
    {
      var i :| 0 <= i < |ids| && ids[i] == id;
      assert CanonicalRule(scope.groups[i]);
    }
    FilterLists.NonBlankFixes(ids);
    DedupFixes(ids);
  }

  /** What the steps before the view come to: a refusal with a status, or the data to export. */
  datatype Plan = Refuse(status: int) | Export(scope: Scope, groups: seq<Group>, fetched: seq<Event>)

  function PlanFor(record: AccessTokens.Entry, users: map<nat, UserTokens.User>, backend: Backend): Plan {
    if Trim(Lower(record.category)) != ICAL then Refuse(403)
    else
      match backend.decode(record.scope)
      case None => Refuse(500)
      case Some(scope) =>
        if RequestedGroups(scope) == [] then Refuse(403)
        else if record.userID !in users || users[record.userID].token == "" then Refuse(401)
        else
          var token := users[record.userID].token;
          match backend.groups(token)
          case Err(_) => Refuse(502)
          case Ok(groups) =>
            match EventFetch.FetchForGroups(token, RequestedGroups(scope),
                                            backend.groupEvents(token), backend.allEvents(token))
            case Err(_) => Refuse(502)
            case Ok(fetched) => Export(scope, groups, fetched)
  }

  /** The API answers the token: it lists the groups and replies for each of the scope's groups. */
  predicate ApiAnswers(token: string, scope: Scope, backend: Backend) {
    && backend.groups(token).Ok?
    && forall i :: 0 <= i < |scope.groups| && Trim(scope.groups[i].groupID) != "" ==>
         backend.groupEvents(token)(Trim(scope.groups[i].groupID)).Ok?
  }

  /** The user's API token, if there is one. */
  function ApiToken(userID: nat, users: map<nat, UserTokens.User>): Option<string> {
    if userID in users && users[userID].token != "" then Some(users[userID].token) else None
  }

  /** Each refusal and its exact guard, in the order they are met; an export is planned exactly when none of
      them holds, for the decoded scope, the listed groups and the events fetched for the scope's groups. */
  lemma PlanExact(record: AccessTokens.Entry, users: map<nat, UserTokens.User>, backend: Backend)
    ensures var plan, token := PlanFor(record, users, backend), ApiToken(record.userID, users);
      if Trim(Lower(record.category)) != "ical" then plan == Refuse(403)
      else
        match backend.decode(record.scope)
        case None => plan == Refuse(500)
        case Some(scope) =>
          if forall i :: 0 <= i < |scope.groups| ==> Trim(scope.groups[i].groupID) == "" then plan == Refuse(403)
          else if token == None then plan == Refuse(401)
          else if !ApiAnswers(token.value, scope, backend) then plan == Refuse(502)
          else
            && plan.Export? && plan.scope == scope && backend.groups(token.value) == Ok(plan.groups)
            && EventFetch.FetchForGroups(token.value, Map(scope.groups, (r: Rule) => r.groupID),
                                         backend.groupEvents(token.value), backend.allEvents(token.value)) ==
               Ok(plan.fetched)
  {
    if backend.decode(record.scope).Some? {
      var scope := backend.decode(record.scope).value;
      RequestedExact(scope);
      if ApiToken(record.userID, users).Some? && RequestedGroups(scope) != [] {
        FetchAnswers(ApiToken(record.userID, users).value, scope, backend);
      }
    }
  }

  lemma RequestedExact(scope: Scope)
    ensures RequestedGroups(scope) == [] <==>
            forall i :: 0 <= i < |scope.groups| ==> Trim(scope.groups[i].groupID) == ""
    ensures forall g :: g in RequestedGroups(scope) <==>
              g != "" && exists i :: 0 <= i < |scope.groups| && Trim(scope.groups[i].groupID) == g
    ensures FilterLists.FilterList(RequestedGroups(scope)) == RequestedGroups(scope)
  {
    var ids := Map(scope.groups, (r: Rule) => r.groupID);
    FilterLists.FilterListCanonical(ids);
    assert forall i :: 0 <= i < |scope.groups| ==> ids[i] == scope.groups[i].groupID;
    if RequestedGroups(scope) != [] {
      assert RequestedGroups(scope)[0] in RequestedGroups(scope);
    }
    if i :| 0 <= i < |scope.groups| && Trim(scope.groups[i].groupID) != "" {
      assert Trim(ids[i]) in RequestedGroups(scope);
    }
  }

  lemma FetchAnswers(token: string, scope: Scope, backend: Backend)
    requires token != "" && RequestedGroups(scope) != []
    ensures var fetch, fetchAll := backend.groupEvents(token), backend.allEvents(token);
      var r := EventFetch.FetchForGroups(token, RequestedGroups(scope), fetch, fetchAll);
      && (r.Ok? <==> forall i :: 0 <= i < |scope.groups| && Trim(scope.groups[i].groupID) != "" ==>
                       fetch(Trim(scope.groups[i].groupID)).Ok?)
      && r == EventFetch.FetchForGroups(token, Map(scope.groups, (r: Rule) => r.groupID), fetch, fetchAll)
  {
    RequestedExact(scope);
    EventFetch.FetchOutcome(token, RequestedGroups(scope), backend.groupEvents(token), backend.allEvents(token));
  }

  method PlanExport(record: AccessTokens.Entry, users: UserTokens.MemoryUserTokenStore, backend: Backend)
    returns (plan: Plan)
    ensures plan == PlanFor(record, users.users, backend)
  {
    if Trim(Lower(record.category)) != ICAL {
      return Refuse(403);
    }
    var decoded := backend.decode(record.scope);
    if decoded == None {
      return Refuse(500);
    }
    var scope := decoded.value;
    var groupIDs := FilterLists.NormalizeFilterList(Map(scope.groups, (r: Rule) => r.groupID));
    if |groupIDs| == 0 {
      return Refuse(403);
    }
    var token := users.TokenByUserID(record.userID);
    if token.Err? {
      return Refuse(401);
    }
    var groups := backend.groups(token.value);
    if groups.Err? {
      return Refuse(502);
    }
    var events := EventFetch.FetchEventsForGroups(token.value, groupIDs, backend.groupEvents(token.value),
      backend.allEvents(token.value));
    if events.Err? {
      return Refuse(502);
    }
    return Export(scope, groups.value, events.value);
  }

  datatype Answer = Answer(status: int, ics: string)

  /** The calendar a plan is answered with holds, read back, a sorted permutation of the export list. */
  ghost predicate Carries(ics: string, plan: Plan, now: Instant, generatedAt: Instant)
    requires plan.Export?
  {
    exists out ::
      && IsSortOf(out, ExportList(plan.fetched, plan.scope, NamesOf(plan.groups), ParentsOf(plan.groups), now))
      && IcsDocument.ParseCalendar(ics) == Some(IcsDocument.ExpectedAll(out, generatedAt))
  }

  method PrintExport(plan: Plan, now: Instant, generatedAt: Instant) returns (ics: string)
    requires plan.Export?
    ensures Carries(ics, plan, now, generatedAt)
  {
    var names := BuildGroupNamesByID(plan.groups);
    var parents := BuildSubGroupParentByID(plan.groups);
    var upcoming, past := BuildEventViewData(plan.fetched, plan.scope.actorIDs, names, parents, now);
    var allowed := FilterEventsByICalScope(upcoming, past, plan.scope);
    ics := IcsDocument.BuildICSCalendar(allowed, generatedAt);
    ExportSoundComplete(plan.fetched, plan.scope, names, parents, now, upcoming, past, allowed);
    IcsRoundTrip.DocumentRoundTrip(allowed, generatedAt);
  }

  /** A live token of the right kind, with a scope that names a group, a user with an API token, and an API
      that answers. */
  predicate Exportable(record: AccessTokens.Entry, users: map<nat, UserTokens.User>, backend: Backend) {
    && Trim(Lower(record.category)) == "ical" && backend.decode(record.scope).Some?
    && var scope, token := backend.decode(record.scope).value, ApiToken(record.userID, users);
      && (exists i :: 0 <= i < |scope.groups| && Trim(scope.groups[i].groupID) != "")
      && token.Some? && ApiAnswers(token.value, scope, backend)
  }

  /** An export is refused with 401 unless the token is live; a live token is answered as planned, with a
      calendar exactly when nothing stands in the way; an expired token met on the way is deleted. */
  method HandleEventsExportForAccessToken(tokens: AccessTokens.MemoryAccessTokenStore,
                                          users: UserTokens.MemoryUserTokenStore, backend: Backend,
                                          token: string, nowAuth: int, now: Instant, generatedAt: Instant)
    returns (answer: Answer)
    requires tokens.Valid()
    modifies tokens
    ensures tokens.Valid()
    ensures tokens.State() == AccessTokens.Step(old(tokens.State()),
            AccessTokens.At(nowAuth, AccessTokens.ExportOp(token)), true)
    ensures var granted := AccessTokens.Authorised(old(tokens.State()), token, nowAuth);
      match granted
      case None => answer == Answer(401, "")
      case Some(record) =>
        match PlanFor(record, old(users.users), backend)
        case Refuse(status) => answer == Answer(status, "")
        case Export(_, _, _) =>
          answer.status == 200 && Carries(answer.ics, PlanFor(record, old(users.users), backend), now, generatedAt)
    ensures var granted := AccessTokens.Authorised(old(tokens.State()), token, nowAuth);
      answer.status == 200 <==> granted.Some? && Exportable(granted.value, old(users.users), backend)
    ensures Trim(token) in old(tokens.byToken) ==>
              (Trim(token) in tokens.byToken <==>
               Trim(token) == "" || old(tokens.byToken)[Trim(token)].expiresAt == None
               || old(tokens.byToken)[Trim(token)].expiresAt.value > nowAuth)
  {
    var record := tokens.AccessTokenByToken(token);
    if record.Err? {
      return Answer(401, "");
    }
    if AccessTokens.ExpiredAt(record.value.expiresAt, nowAuth) {
      var _ := tokens.DeleteAccessTokenByToken(token);
      return Answer(401, "");
    }
    var plan := PlanExport(record.value, users, backend);
    PlanExact(record.value, users.users, backend);
    if plan.Refuse? {
      return Answer(plan.status, "");
    }
    var ics := PrintExport(plan, now, generatedAt);
    return Answer(200, ics);
  }

  // ----- from the request for a token to the calendar -----

  /** What a created token is for. If the request is accepted and the stored scope decodes to what was
      stored, then after any further operations that spare the token an export is granted exactly until
      the expiry; it is planned with the scope of the request, so the calendar carries exactly what that
      scope allows of the events fetched for the groups it names. It is refused exactly when the user's API
      token is missing (401) or the API does not answer (502). */
  lemma {:induction false} CreatedTokenExports(s: AccessTokens.TokenState, req: TokenRequest, actorIDs: seq<string>,
                                               created: AccessTokens.Timed, run: seq<AccessTokens.Timed>,
                                               reap: bool, now: int,
                                               users: map<nat, UserTokens.User>, backend: Backend)
    requires Normalize(req, actorIDs).Ok? && created.op.CreateOp?
    requires created.op.userID != 0 && Trim(created.op.token) != ""
    requires created.op.category == Normalize(req, actorIDs).value.0
    requires backend.decode(created.op.scope) == Some(Normalize(req, actorIDs).value.1)
    requires var op := created.op;
      var e := AccessTokens.Entry(s.nextID, op.userID, Trim(Lower(op.category)), op.scope, op.expiresAt, created.now);
      forall i :: 0 <= i < |run| ==> AccessTokens.Spares(run[i].op, op.token, e) && run[i].now <= now
    ensures var op, scope := created.op, Normalize(req, actorIDs).value.1;
      var after := AccessTokens.After(AccessTokens.Step(s, created, reap), run, reap);
      var granted := AccessTokens.Authorised(after, op.token, now);
      && (granted.Some? <==> !AccessTokens.ExpiredAt(op.expiresAt, now))
      && (granted.Some? ==> ServesScope(PlanFor(granted.value, users, backend), scope, op.userID, users, backend))
  {
    AccessTokens.CreatedUntilExpiry(s, created, run, reap, now);
    var op := created.op;
    var category := Trim(Lower(op.category));
    var record := AccessTokens.Entry(s.nextID, op.userID, category, op.scope, op.expiresAt, created.now);
    NormalizedPlan(req, actorIDs, record, users, backend);
  }

  lemma {:induction false} NormalizedPlan(req: TokenRequest, actorIDs: seq<string>, record: AccessTokens.Entry,
                                          users: map<nat, UserTokens.User>, backend: Backend)
    requires Normalize(req, actorIDs).Ok? && record.category == Category(Normalize(req, actorIDs).value.0)
    requires backend.decode(record.scope) == Some(Normalize(req, actorIDs).value.1)
    ensures ServesScope(PlanFor(record, users, backend), Normalize(req, actorIDs).value.1, record.userID, users,
            backend)
  {
    NormalizeCanonical(req, actorIDs);
    IcalFixed();
    PlanExact(record, users, backend);
    var scope := Normalize(req, actorIDs).value.1;
    assert CanonicalRule(scope.groups[0]);
    TrimFixes(scope.groups[0].groupID);
  }

  /** What becomes of an export for this scope. */
  predicate ServesScope(plan: Plan, scope: Scope, userID: nat, users: map<nat, UserTokens.User>, backend: Backend) {
    var token := ApiToken(userID, users);
    if token == None then plan == Refuse(401)
    else if !ApiAnswers(token.value, scope, backend) then plan == Refuse(502)
    else
      && plan.Export? && plan.scope == scope && backend.groups(token.value) == Ok(plan.groups)
      && EventFetch.FetchForGroups(token.value, Map(scope.groups, (r: Rule) => r.groupID),
                                   backend.groupEvents(token.value), backend.allEvents(token.value)) ==
         Ok(plan.fetched)
  }
}
