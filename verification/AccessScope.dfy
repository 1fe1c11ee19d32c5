/** The scope of an access token: normalising the request that creates it, and filtering the events it
    lets through. */
module AccessScope {
  import opened Text
  import FilterLists
  import opened EventModel
  import Lists
  import EventViews

  const ICAL := "ical"

  datatype GroupRequest = GroupRequest(groupID: string, statuses: seq<string>, includePast: bool)

  datatype TokenRequest = TokenRequest(category: string, groups: seq<GroupRequest>)

  /** A scope holds rules in the same form, normalised. */
  type Rule = GroupRequest

  datatype Scope = Scope(actorIDs: seq<string>, groups: seq<Rule>)

  /** The errors of a refused request, with what their messages quote. */
  datatype ScopeError =
    | UnsupportedCategory(category: string)
    | NoGroups
    | BlankGroup
    | DuplicateGroup(groupID: string)
    | NoStatus(groupID: string)
    | UnsupportedStatus(groupID: string, status: string)
    | NoActors

  // ----- normalisation -----

  function StatusKeyFromFilter(value: string): Option<string> {
    var trimmed := Trim(Lower(value));
    if trimmed == "0" || trimmed == "accepted" then Some("accepted")
    else if trimmed == "1" || trimmed == "declined" then Some("declined")
    else if trimmed == "2" || trimmed == "unanswered" then Some("unanswered")
    else if trimmed == "3" || trimmed == "other" then Some("other")
    else None
  }

  /** What the statuses of a request mean: the keys they name, and whether one is not understood. */
  function Meanings(statuses: seq<string>): set<Option<string>> {
    set s | s in statuses :: StatusKeyFromFilter(s)
  }

  /** The first status of a request that is not understood. */
  function FirstUnknown(statuses: seq<string>): (unknown: Option<string>)
    ensures unknown.Some? <==> None in Meanings(statuses)
    ensures unknown.Some? ==> StatusKeyFromFilter(unknown.value) == None
  {
    if statuses == [] then None
    else
      var init, s := statuses[..|statuses| - 1], statuses[|statuses| - 1];
      assert statuses == init + [s];
      match FirstUnknown(init)
      case Some(u) => Some(u)
      case None => if StatusKeyFromFilter(s) == None then Some(s) else None
  }

  /** Keys in the fixed order. */
  function Ordered(keys: set<string>): seq<string> {
    InOrder(keys, "accepted", "declined", "unanswered", "other")
  }

  function InOrder(keys: set<string>, a: string, b: string, c: string, d: string): seq<string> {
    (if a in keys then [a] else []) + (if b in keys then [b] else []) + (if c in keys then [c] else [])
      + (if d in keys then [d] else [])
  }

  function KeysOf(statuses: seq<string>): set<string> {
    set s | s in statuses && StatusKeyFromFilter(s).Some? :: StatusKeyFromFilter(s).value
  }

  function GroupIDs(rules: seq<Rule>): set<string> {
    set r | r in rules :: r.groupID
  }

  function NormalizeGroup(group: GroupRequest, seen: set<string>): Result<Rule, ScopeError> {
    var groupID := Trim(group.groupID);
    if groupID == "" then Err(BlankGroup)
    else if groupID in seen then Err(DuplicateGroup(groupID))
    else if |group.statuses| == 0 then Err(NoStatus(groupID))
    else
      match FirstUnknown(group.statuses)
      case Some(status) => Err(UnsupportedStatus(groupID, status))
      case None => Ok(GroupRequest(groupID, Ordered(KeysOf(group.statuses)), group.includePast))
  }

  function NormalizeGroups(groups: seq<GroupRequest>): Result<seq<Rule>, ScopeError> {
    if groups == [] then Ok([])
    else
      match NormalizeGroups(groups[..|groups| - 1])
      case Err(e) => Err(e)
      case Ok(rules) =>
        match NormalizeGroup(groups[|groups| - 1], GroupIDs(rules))
        case Err(e) => Err(e)
        case Ok(rule) => Ok(rules + [rule])
  }

  function Category(category: string): string {
    var c := Trim(Lower(category));
    if c == "" then ICAL else c
  }

  function Normalize(req: TokenRequest, actorIDs: seq<string>): Result<(string, Scope), ScopeError> {
    if Category(req.category) != ICAL then Err(UnsupportedCategory(Category(req.category)))
    else if |req.groups| == 0 then Err(NoGroups)
    else
      match NormalizeGroups(req.groups)
      case Err(e) => Err(e)
      case Ok(rules) =>
        var actors := FilterLists.FilterList(actorIDs);
        if actors == [] then Err(NoActors) else Ok((ICAL, Scope(actors, rules)))
  }

  /** The keys the statuses name, or the first status that is not understood. */
  method CollectStatuses(statuses: seq<string>) returns (result: Result<set<string>, string>)
    ensures match FirstUnknown(statuses)
            case Some(status) => result == Err(status)
            case None => result == Ok(KeysOf(statuses))
  {
    var statusSet: set<string> := {};
    for i := 0 to |statuses|
      invariant FirstUnknown(statuses[..i]) == None && statusSet == KeysOf(statuses[..i])
    {
      assert statuses[..i + 1][..i] == statuses[..i];
      assert statuses[..i + 1] == statuses[..i] + [statuses[i]];
      KeysSnoc(statuses[..i], statuses[i]);
      var key := StatusKeyFromFilter(statuses[i]);
      if key == None {
        FirstUnknownKept(statuses, i + 1);
        return Err(statuses[i]);
      }
      statusSet := statusSet + {key.value};
    }
    assert statuses[..|statuses|] == statuses;
    return Ok(statusSet);
  }

  lemma {:induction false} FirstUnknownKept(statuses: seq<string>, k: nat)
    requires k <= |statuses| && FirstUnknown(statuses[..k]).Some?
    ensures FirstUnknown(statuses) == FirstUnknown(statuses[..k])
    decreases |statuses|
  {
    if k == |statuses| {
      assert statuses[..k] == statuses;
    } else {
      var init := statuses[..|statuses| - 1];
      assert init[..k] == statuses[..k];
      FirstUnknownKept(init, k);
    }
  }

  lemma KeysSnoc(statuses: seq<string>, s: string)
    ensures StatusKeyFromFilter(s).Some? ==> KeysOf(statuses + [s]) == KeysOf(statuses) + {StatusKeyFromFilter(s).value}
  {
  }

  method NormalizeCreateAccessTokenRequest(req: TokenRequest, actorIDs: seq<string>)
    returns (result: Result<(string, Scope), ScopeError>)
    ensures result == Normalize(req, actorIDs)
  {
    var category := Trim(Lower(req.category));
    if category == "" {
      category := ICAL;
    }
    if category != ICAL {
      return Err(UnsupportedCategory(category));
    }
    if |req.groups| == 0 {
      return Err(NoGroups);
    }
    var normalized := NormalizeEach(req.groups);
    if normalized.Err? {
      return Err(normalized.error);
    }
    var actors := FilterLists.NormalizeFilterList(actorIDs);
    if |actors| == 0 {
      return Err(NoActors);
    }
    return Ok((category, Scope(actors, normalized.value)));
  }

  /** The loop over the groups. */
  method NormalizeEach(groups: seq<GroupRequest>) returns (result: Result<seq<Rule>, ScopeError>)
    ensures result == NormalizeGroups(groups)
  {
    var normalized: seq<Rule> := [];
    var seenGroupIDs: set<string> := {};
    for i := 0 to |groups|
      invariant NormalizeGroups(groups[..i]) == Ok(normalized)
      invariant seenGroupIDs == GroupIDs(normalized)
    {
      assert groups[..i + 1][..i] == groups[..i];
      var rule := NormalizeOne(groups[i], seenGroupIDs);
      if rule.Err? {
        NormalizeGroupsFails(groups, i + 1);
        return Err(rule.error);
      }
      GroupIDsSnoc(normalized, rule.value);
      seenGroupIDs := seenGroupIDs + {rule.value.groupID};
      normalized := normalized + [rule.value];
    }
    assert groups[..|groups|] == groups;
    return Ok(normalized);
  }

  /** The body of that loop. */
  method NormalizeOne(group: GroupRequest, seen: set<string>) returns (result: Result<Rule, ScopeError>)
    ensures result == NormalizeGroup(group, seen)
  {
    var groupID := Trim(group.groupID);
    if groupID == "" {
      return Err(BlankGroup);
    }
    if groupID in seen {
      return Err(DuplicateGroup(groupID));
    }
    if |group.statuses| == 0 {
      return Err(NoStatus(groupID));
    }
    var keys := CollectStatuses(group.statuses);
    if keys.Err? {
      return Err(UnsupportedStatus(groupID, keys.error));
    }
    var statuses := InFixedOrder(keys.value);
    return Ok(GroupRequest(groupID, statuses, group.includePast));
  }

  method InFixedOrder(keys: set<string>) returns (statuses: seq<string>)
    ensures statuses == Ordered(keys)
  {
    statuses := [];
    for k := 0 to |EventViews.STATUS_KEYS|
      invariant statuses == Ordered(set s | s in keys && s in EventViews.STATUS_KEYS[..k])
    {
      assert EventViews.STATUS_KEYS[..k + 1] == EventViews.STATUS_KEYS[..k] + [EventViews.STATUS_KEYS[k]];
      if EventViews.STATUS_KEYS[k] in keys {
        statuses := statuses + [EventViews.STATUS_KEYS[k]];
      }
    }
    OrderedKnown(keys);
  }

  lemma OrderedKnown(keys: set<string>)
    ensures Ordered(set s | s in keys && s in EventViews.STATUS_KEYS[..4]) == Ordered(keys)
  {
    assert EventViews.STATUS_KEYS[..4] == EventViews.STATUS_KEYS;
    var known := EventViews.STATUS_KEYS;
    assert "accepted" in known && "declined" in known && "unanswered" in known && "other" in known;
  }

  lemma GroupIDsSnoc(rules: seq<Rule>, rule: Rule)
    ensures GroupIDs(rules + [rule]) == GroupIDs(rules) + {rule.groupID}
  {
  }

  lemma {:induction false} NormalizeGroupsFails(groups: seq<GroupRequest>, k: nat)
    requires k <= |groups| && NormalizeGroups(groups[..k]).Err?
    ensures NormalizeGroups(groups) == NormalizeGroups(groups[..k])
    decreases |groups|
  {
    if k == |groups| {
      assert groups[..k] == groups;
    } else {
      var init := groups[..|groups| - 1];
      assert init[..k] == groups[..k];
      NormalizeGroupsFails(init, k);
    }
  }

  // ----- canonical scopes -----

  ghost predicate CanonicalRule(rule: Rule) {
    && rule.groupID != "" && Trimmed(rule.groupID)
    && rule.statuses != []
    && rule.statuses == Ordered(set s | s in rule.statuses)
  }

  ghost predicate DistinctGroups(rules: seq<Rule>) {
    forall i, j :: 0 <= i < j < |rules| ==> rules[i].groupID != rules[j].groupID
  }

  ghost predicate CanonicalScope(scope: Scope) {
    && scope.groups != [] && scope.actorIDs != [] && FilterLists.Canonical(scope.actorIDs)
    && DistinctGroups(scope.groups)
    && forall i :: 0 <= i < |scope.groups| ==> CanonicalRule(scope.groups[i])
  }

  lemma InOrderElements(keys: set<string>, a: string, b: string, c: string, d: string)
    requires NoDuplicates([a, b, c, d])
    ensures forall s :: s in InOrder(keys, a, b, c, d) <==> s in keys && s in [a, b, c, d]
    ensures NoDuplicates(InOrder(keys, a, b, c, d))
  {
    assert a == [a, b, c, d][0] && b == [a, b, c, d][1] && c == [a, b, c, d][2] && d == [a, b, c, d][3];
  }

  lemma OrderedElements(keys: set<string>)
    ensures forall s :: s in Ordered(keys) <==> s in keys && s in EventViews.STATUS_KEYS
    ensures Ordered(set s | s in Ordered(keys)) == Ordered(keys)
    ensures NoDuplicates(Ordered(keys))
  {
    var k := EventViews.STATUS_KEYS;
    InOrderElements(keys, k[0], k[1], k[2], k[3]);
    assert k[0] in k && k[1] in k && k[2] in k && k[3] in k;
  }

  lemma KeyIsKnown(value: string)
    ensures StatusKeyFromFilter(value).Some? ==> StatusKeyFromFilter(value).value in EventViews.STATUS_KEYS
  {
  }

  lemma NormalizedGroupCanonical(group: GroupRequest, seen: set<string>)
    requires NormalizeGroup(group, seen).Ok?
    ensures CanonicalRule(NormalizeGroup(group, seen).value) && NormalizeGroup(group, seen).value.groupID !in seen
  {
    TrimIdempotent(group.groupID);
    var keys := KeysOf(group.statuses);
    OrderedElements(keys);
    var first := group.statuses[0];
    KeyIsKnown(first);
    assert StatusKeyFromFilter(first) in Meanings(group.statuses);
    assert StatusKeyFromFilter(first).value in keys;
    assert StatusKeyFromFilter(first).value in Ordered(keys);
  }

  lemma {:induction false} NormalizedGroupsCanonical(groups: seq<GroupRequest>)
    ensures NormalizeGroups(groups).Ok? ==>
      var rules := NormalizeGroups(groups).value;
      && |rules| == |groups| && DistinctGroups(rules)
      && forall i :: 0 <= i < |rules| ==> CanonicalRule(rules[i])
  {
    if groups != [] && NormalizeGroups(groups).Ok? {
      var init := groups[..|groups| - 1];
      NormalizedGroupsCanonical(init);
      var before := NormalizeGroups(init).value;
      NormalizedGroupCanonical(groups[|groups| - 1], GroupIDs(before));
    }
  }

  lemma KeysFixed()
    ensures forall s :: s in EventViews.STATUS_KEYS ==> StatusKeyFromFilter(s) == Some(s)
  {
    assert Lower("accepted") == "accepted" && Lower("declined") == "declined";
    assert Lower("unanswered") == "unanswered" && Lower("other") == "other";
    TrimFixes("accepted");
    TrimFixes("declined");
    TrimFixes("unanswered");
    TrimFixes("other");
  }

  lemma RuleFixed(rule: Rule, seen: set<string>)
    requires CanonicalRule(rule) && rule.groupID !in seen
    ensures NormalizeGroup(rule, seen) == Ok(rule)
  {
    TrimFixes(rule.groupID);
    KeysFixed();
    var elements := set s | s in rule.statuses;
    OrderedElements(elements);
    assert forall s :: s in rule.statuses ==> s in EventViews.STATUS_KEYS;
    assert KeysOf(rule.statuses) == elements;
  }

  lemma {:induction false} RulesFixed(rules: seq<Rule>)
    requires DistinctGroups(rules) && forall i :: 0 <= i < |rules| ==> CanonicalRule(rules[i])
    ensures NormalizeGroups(rules) == Ok(rules)
  {
    if rules != [] {
      var init, last := rules[..|rules| - 1], rules[|rules| - 1];
      RulesFixed(init);
      RuleFixed(last, GroupIDs(init));
      InitLast(rules);
    }
  }

  /** An accepted request yields a canonical scope with one rule per requested group, and normalising it
      again changes nothing. */
  lemma NormalizeCanonical(req: TokenRequest, actorIDs: seq<string>)
    requires Normalize(req, actorIDs).Ok?
    ensures var (category, scope) := Normalize(req, actorIDs).value;
      && category == ICAL && CanonicalScope(scope) && |scope.groups| == |req.groups|
      && Normalize(TokenRequest(category, scope.groups), scope.actorIDs) == Ok((category, scope))
  {
    NormalizedGroupsCanonical(req.groups);
    FilterLists.FilterListCanonical(actorIDs);
    var scope := Normalize(req, actorIDs).value.1;
    RulesFixed(scope.groups);
    IcalFixed();
  }

  lemma IcalFixed()
    ensures Category(ICAL) == ICAL
  {
    assert Lower(ICAL) == ICAL;
    TrimFixes(ICAL);
  }

  lemma InitLast<T>(xs: seq<T>)
    requires xs != []
    ensures xs == xs[..|xs| - 1] + [xs[|xs| - 1]]
  {
  }

  // ----- respelling -----

  /** The same statuses up to order, repetition, case, white space and code or name. */
  ghost predicate SameGroup(a: GroupRequest, b: GroupRequest) {
    Trim(a.groupID) == Trim(b.groupID) && a.includePast == b.includePast && Meanings(a.statuses) == Meanings(b.statuses)
  }

  lemma MeaningsDecide(a: seq<string>, b: seq<string>)
    requires Meanings(a) == Meanings(b)
    ensures KeysOf(a) == KeysOf(b) && (a == [] <==> b == [])
  {
    assert KeysOf(a) == set m | m in Meanings(a) && m.Some? :: m.value;
    assert KeysOf(b) == set m | m in Meanings(b) && m.Some? :: m.value;
    if a != [] {
      assert StatusKeyFromFilter(a[0]) in Meanings(b);
    }
    if b != [] {
      assert StatusKeyFromFilter(b[0]) in Meanings(a);
    }
  }

  /** The error without the status its message quotes. */
  function Unquoted<T>(result: Result<T, ScopeError>): Result<T, ScopeError> {
    match result
    case Err(UnsupportedStatus(groupID, _)) => Err(UnsupportedStatus(groupID, ""))
    case _ => result
  }

  /** Respelling the statuses of a request changes neither the rules nor the error, except for the
      spelling of the status that the error quotes. */
  lemma {:induction false} RespellingInvariant(a: seq<GroupRequest>, b: seq<GroupRequest>)
    requires |a| == |b| && forall i :: 0 <= i < |a| ==> SameGroup(a[i], b[i])
    ensures Unquoted(NormalizeGroups(a)) == Unquoted(NormalizeGroups(b))
  {
    if a != [] {
      var n := |a| - 1;
      RespellingInvariant(a[..n], b[..n]);
      if NormalizeGroups(a[..n]).Ok? {
        SameGroupNormalizes(a[n], b[n], GroupIDs(NormalizeGroups(a[..n]).value));
      }
    }
  }

  lemma SameGroupNormalizes(a: GroupRequest, b: GroupRequest, seen: set<string>)
    requires SameGroup(a, b)
    ensures Unquoted(NormalizeGroup(a, seen)) == Unquoted(NormalizeGroup(b, seen))
  {
    MeaningsDecide(a.statuses, b.statuses);
  }

  // ----- filtering by scope -----

  /** Later rules for a group replace earlier ones. */
  function RulesByID(groups: seq<Rule>): map<string, Rule> {
    if groups == [] then map[]
    else RulesByID(groups[..|groups| - 1])[groups[|groups| - 1].groupID := groups[|groups| - 1]]
  }

  predicate Matches(rules: map<string, Rule>, v: EventView, includePast: bool) {
    && v.groupID in rules
    && (includePast || rules[v.groupID].includePast)
    && v.statusKey in rules[v.groupID].statuses
  }

  method FilterEventsByICalScope(upcoming: seq<EventView>, past: seq<EventView>, scope: Scope)
    returns (events: seq<EventView>)
    ensures var rules := RulesByID(scope.groups);
      EventViews.IsSortOf(events, Lists.Select(upcoming, v => Matches(rules, v, true))
                                  + Lists.Select(past, v => Matches(rules, v, false)))
  {
    var rules: map<string, Rule> := map[];
    for i := 0 to |scope.groups|
      invariant rules == RulesByID(scope.groups[..i])
    {
      assert scope.groups[..i + 1][..i] == scope.groups[..i];
      rules := rules[scope.groups[i].groupID := scope.groups[i]];
    }
    assert scope.groups[..|scope.groups|] == scope.groups;
    var filteredUpcoming := KeepMatching(rules, upcoming, true);
    var filteredPast := KeepMatching(rules, past, false);
    events := EventViews.MergedSortedEvents(filteredUpcoming, filteredPast);
  }

  method KeepMatching(rules: map<string, Rule>, views: seq<EventView>, includePast: bool) returns (kept: seq<EventView>)
    ensures kept == Lists.Select(views, v => Matches(rules, v, includePast))
  {
    kept := [];
    for i := 0 to |views|
      invariant kept == Lists.Select(views[..i], v => Matches(rules, v, includePast))
    {
      Lists.SelectSnoc(views, i, v => Matches(rules, v, includePast));
      if Matches(rules, views[i], includePast) {
        kept := kept + [views[i]];
      }
    }
    assert views[..|views|] == views;
  }

  /** The i-th rule is the last one for its group. */
  ghost predicate Governs(groups: seq<Rule>, i: int, groupID: string) {
    && 0 <= i < |groups| && groups[i].groupID == groupID
    && forall j :: i < j < |groups| ==> groups[j].groupID != groupID
  }

  predicate Admits(rule: Rule, statusKey: string, past: bool) {
    statusKey in rule.statuses && (!past || rule.includePast)
  }

  /** The rule that governs the group admits the status and, for past events, the past. */
  ghost predicate Allowed(scope: Scope, groupID: string, statusKey: string, past: bool) {
    exists i :: Governs(scope.groups, i, groupID) && Admits(scope.groups[i], statusKey, past)
  }

  lemma {:induction false} RulesByIDExact(groups: seq<Rule>, id: string)
    ensures id in RulesByID(groups) ==> exists i :: Governs(groups, i, id)
    ensures forall i :: Governs(groups, i, id) ==> id in RulesByID(groups) && RulesByID(groups)[id] == groups[i]
  {
    if groups != [] {
      var n := |groups| - 1;
      RulesByIDExact(groups[..n], id);
      forall i
        ensures Governs(groups, i, id) <==> if groups[n].groupID == id then i == n else Governs(groups[..n], i, id)
      {
        GovernsSnoc(groups, i, id);
      }
      assert groups[n].groupID == id ==> Governs(groups, n, id);
    }
  }

  lemma GovernsSnoc(groups: seq<Rule>, i: int, id: string)
    requires groups != []
    ensures var n := |groups| - 1;
      Governs(groups, i, id) <==> if groups[n].groupID == id then i == n else Governs(groups[..n], i, id)
  {
  }

  /** With one rule per group any rule for the group is the one that governs it. */
  lemma AllowedDistinct(scope: Scope, groupID: string, statusKey: string, past: bool)
    requires DistinctGroups(scope.groups)
    ensures Allowed(scope, groupID, statusKey, past) <==>
            exists i :: 0 <= i < |scope.groups| && scope.groups[i].groupID == groupID &&
              Admits(scope.groups[i], statusKey, past)
  {
    if i :| 0 <= i < |scope.groups| && scope.groups[i].groupID == groupID && Admits(scope.groups[i], statusKey, past) {
      assert Governs(scope.groups, i, groupID);
    }
  }

  lemma MatchesExact(scope: Scope, v: EventView, includePast: bool)
    ensures Matches(RulesByID(scope.groups), v, includePast) <==> Allowed(scope, v.groupID, v.statusKey, !includePast)
  {
    RulesByIDExact(scope.groups, v.groupID);
  }

  ghost predicate Covers(wider: Rule, rule: Rule) {
    && wider.groupID == rule.groupID
    && (forall s :: s in rule.statuses ==> s in wider.statuses)
    && (rule.includePast ==> wider.includePast)
  }

  /** Group by group, the rule of the second scope admits what that of the first admits. */
  ghost predicate Widens(scope: Scope, wider: Scope) {
    forall i, id :: Governs(scope.groups, i, id) ==>
      exists j :: Governs(wider.groups, j, id) && Covers(wider.groups[j], scope.groups[i])
  }

  lemma WidensAllowed(scope: Scope, wider: Scope, groupID: string, statusKey: string, past: bool)
    requires Widens(scope, wider) && Allowed(scope, groupID, statusKey, past)
    ensures Allowed(wider, groupID, statusKey, past)
  {
  }

  // ----- what is accepted, and what of it is kept -----

  function Code(key: string): string {
    if key == "accepted" then "0" else if key == "declined" then "1" else if key == "unanswered" then "2" else "3"
  }

  /** The status names the key, by word or by code, in any letter case and with white space around it. */
  ghost predicate Means(status: string, key: string) {
    Spells(status, key) || Spells(status, Code(key))
  }

  ghost predicate Understood(status: string) {
    Means(status, "accepted") || Means(status, "declined") || Means(status, "unanswered") || Means(status, "other")
  }

  lemma KeySpelled(status: string, key: string)
    requires key in EventViews.STATUS_KEYS
    ensures Means(status, key) <==> Trim(Lower(status)) == key || Trim(Lower(status)) == Code(key)
  {
    SpellsExact(status, key);
    SpellsExact(status, Code(key));
  }

  /** The four statuses, each by its word or its code and in any spelling, and nothing else. */
  lemma StatusSpelled(status: string, key: string)
    requires key in EventViews.STATUS_KEYS
    ensures StatusKeyFromFilter(status) == Some(key) <==> Means(status, key)
    ensures StatusKeyFromFilter(status).Some? <==> Understood(status)
  {
    var k := EventViews.STATUS_KEYS;
    assert k[0] in k && k[1] in k && k[2] in k && k[3] in k;
    KeySpelled(status, "accepted");
    KeySpelled(status, "declined");
    KeySpelled(status, "unanswered");
    KeySpelled(status, "other");
  }

  /** The place of a status in the fixed order. */
  function Rank(key: string): nat {
    if key == "accepted" then 0 else if key == "declined" then 1 else if key == "unanswered" then 2 else 3
  }

  /** What is kept of a requested group: its trimmed id, the past if asked for, and the statuses it names in
      some spelling, in the fixed order and each once. */
  ghost predicate Keeps(rule: Rule, group: GroupRequest) {
    && rule.groupID == Trim(group.groupID) && rule.includePast == group.includePast
    && (forall key :: key in rule.statuses <==>
          key in ["accepted", "declined", "unanswered", "other"] && exists s :: s in group.statuses && Means(s, key))
    && (forall i, j :: 0 <= i < j < |rule.statuses| ==> Rank(rule.statuses[i]) < Rank(rule.statuses[j]))
  }

  /** The first status that is not understood. */
  ghost predicate FirstNotUnderstood(statuses: seq<string>, k: int) {
    0 <= k < |statuses| && !Understood(statuses[k]) && forall j :: 0 <= j < k ==> Understood(statuses[j])
  }

  /** What is wrong with the i-th requested group. */
  ghost predicate Fault(groups: seq<GroupRequest>, i: int, e: ScopeError)
    requires 0 <= i < |groups|
  {
    var id, statuses := Trim(groups[i].groupID), groups[i].statuses;
    var repeated := exists j :: 0 <= j < i && Trim(groups[j].groupID) == id;
    match e
    case BlankGroup => id == ""
    case DuplicateGroup(g) => id != "" && repeated && g == id
    case NoStatus(g) => id != "" && !repeated && statuses == [] && g == id
    case UnsupportedStatus(g, s) =>
      id != "" && !repeated && g == id && exists k :: FirstNotUnderstood(statuses, k) && s == statuses[k]
    case _ => false
  }

  ghost predicate Fine(groups: seq<GroupRequest>, i: int)
    requires 0 <= i < |groups|
  {
    && Trim(groups[i].groupID) != ""
    && (forall j :: 0 <= j < i ==> Trim(groups[j].groupID) != Trim(groups[i].groupID))
    && groups[i].statuses != [] && forall s :: s in groups[i].statuses ==> Understood(s)
  }

  lemma {:induction false} FirstUnknownExact(statuses: seq<string>)
    ensures FirstUnknown(statuses) == None <==> forall s :: s in statuses ==> Understood(s)
    ensures FirstUnknown(statuses).Some? ==>
              exists k :: FirstNotUnderstood(statuses, k) && statuses[k] == FirstUnknown(statuses).value
  {
    if statuses != [] {
      var n := |statuses| - 1;
      var init := statuses[..n];
      FirstUnknownExact(init);
      StatusSpelled(statuses[n], EventViews.STATUS_KEYS[0]);
      assert statuses == init + [statuses[n]];
      if FirstUnknown(init).Some? {
        var k :| FirstNotUnderstood(init, k) && init[k] == FirstUnknown(init).value;
        assert FirstNotUnderstood(statuses, k);
      } else if !Understood(statuses[n]) {
        assert forall j :: 0 <= j < n ==> statuses[j] in init;
        assert FirstNotUnderstood(statuses, n);
      }
    }
  }

  lemma OrderedRanks(keys: set<string>)
    ensures var o := Ordered(keys); forall i, j :: 0 <= i < j < |o| ==> Rank(o[i]) < Rank(o[j])
  {
    OrderedElements(keys);
  }

  lemma NormalizedGroupKeeps(group: GroupRequest, seen: set<string>)
    requires NormalizeGroup(group, seen).Ok?
    ensures Keeps(NormalizeGroup(group, seen).value, group)
  {
    var keys := KeysOf(group.statuses);
    OrderedElements(keys);
    OrderedRanks(keys);
    forall key | key in EventViews.STATUS_KEYS
      ensures key in keys <==> exists s :: s in group.statuses && Means(s, key)
    {
      forall s
        ensures StatusKeyFromFilter(s) == Some(key) <==> Means(s, key)
      {
        StatusSpelled(s, key);
      }
    }
  }

  /** One group more: what the code makes of it. */
  lemma GroupOutcome(groups: seq<GroupRequest>, n: nat, rules: seq<Rule>)
    requires n < |groups| && |rules| == n
    requires forall i :: 0 <= i < n ==> rules[i].groupID == Trim(groups[i].groupID)
    ensures var r := NormalizeGroup(groups[n], GroupIDs(rules));
      && (r.Ok? <==> Fine(groups, n))
      && (r.Ok? ==> Keeps(r.value, groups[n]))
      && (r.Err? ==> Fault(groups, n, r.error))
  {
    var id := Trim(groups[n].groupID);
    FirstUnknownExact(groups[n].statuses);
    assert id in GroupIDs(rules) <==> exists j :: 0 <= j < n && Trim(groups[j].groupID) == id by {
      if j :| 0 <= j < n && Trim(groups[j].groupID) == id {
        assert rules[j] in rules && rules[j].groupID == id;
      }
    }
    if NormalizeGroup(groups[n], GroupIDs(rules)).Ok? {
      NormalizedGroupKeeps(groups[n], GroupIDs(rules));
    }
  }

  lemma FineInit(groups: seq<GroupRequest>, i: int)
    requires 0 <= i < |groups| - 1
    ensures Fine(groups[..|groups| - 1], i) <==> Fine(groups, i)
    ensures forall e :: Fault(groups[..|groups| - 1], i, e) <==> Fault(groups, i, e)
  {
    var init := groups[..|groups| - 1];
    assert forall j :: 0 <= j <= i ==> init[j] == groups[j];
  }

  ghost predicate AllFine(groups: seq<GroupRequest>) {
    forall i :: 0 <= i < |groups| ==> Fine(groups, i)
  }

  ghost predicate KeepsAll(rules: seq<Rule>, groups: seq<GroupRequest>) {
    |rules| == |groups| && forall i :: 0 <= i < |groups| ==> Keeps(rules[i], groups[i])
  }

  /** The first group at fault, and its fault. */
  ghost predicate FirstFault(groups: seq<GroupRequest>, i: int, e: ScopeError) {
    0 <= i < |groups| && Fault(groups, i, e) && forall j :: 0 <= j < i ==> Fine(groups, j)
  }

  lemma AllFineInit(groups: seq<GroupRequest>)
    requires groups != []
    ensures var n := |groups| - 1; AllFine(groups) <==> AllFine(groups[..n]) && Fine(groups, n)
  {
    var n := |groups| - 1;
    var init := groups[..n];
    forall i | 0 <= i < n
      ensures Fine(init, i) <==> Fine(groups, i)
    {
      FineInit(groups, i);
    }
    if AllFine(groups) {
      assert forall i :: 0 <= i < n ==> Fine(groups, i);
    } else if AllFine(init) {
      assert forall i :: 0 <= i < n ==> Fine(init, i);
    }
  }

  lemma FirstFaultInit(groups: seq<GroupRequest>, i: int, e: ScopeError)
    requires groups != [] && FirstFault(groups[..|groups| - 1], i, e)
    ensures FirstFault(groups, i, e)
  {
    FineInit(groups, i);
    forall j | 0 <= j < i
      ensures Fine(groups, j)
    {
      FineInit(groups, j);
    }
  }

  lemma {:induction false} NormalizeGroupsExact(groups: seq<GroupRequest>)
    ensures NormalizeGroups(groups).Ok? <==> AllFine(groups)
    ensures NormalizeGroups(groups).Ok? ==> KeepsAll(NormalizeGroups(groups).value, groups)
    ensures NormalizeGroups(groups).Err? ==> exists i :: FirstFault(groups, i, NormalizeGroups(groups).error)
  {
    if groups != [] {
      var n := |groups| - 1;
      var before := NormalizeGroups(groups[..n]);
      NormalizeGroupsExact(groups[..n]);
      AllFineInit(groups);
      if before.Err? {
        var i :| FirstFault(groups[..n], i, before.error);
        FirstFaultInit(groups, i, before.error);
      } else {
        GroupOutcome(groups, n, before.value);
        NormalizeLast(groups, before.value);
      }
    }
  }

  lemma NormalizeLast(groups: seq<GroupRequest>, rules: seq<Rule>)
    requires groups != [] && NormalizeGroups(groups[..|groups| - 1]) == Ok(rules)
    requires AllFine(groups[..|groups| - 1]) && KeepsAll(rules, groups[..|groups| - 1])
    requires var r := NormalizeGroup(groups[|groups| - 1], GroupIDs(rules));
      (r.Ok? ==> Keeps(r.value, groups[|groups| - 1])) && (r.Err? ==> Fault(groups, |groups| - 1, r.error))
    ensures NormalizeGroups(groups).Ok? ==> KeepsAll(NormalizeGroups(groups).value, groups)
    ensures NormalizeGroups(groups).Err? ==> FirstFault(groups, |groups| - 1, NormalizeGroups(groups).error)
  {
    forall i | 0 <= i < |groups| - 1
      ensures Fine(groups, i)
    {
      FineInit(groups, i);
    }
  }

  /** A request is accepted exactly if its category is blank or spells the one there is, it names at least
      one group, every group has an id of its own and only statuses that are understood, at least one, and
      there is an actor. The scope then keeps of each group what it says and of the actors the ids; a
      refusal over the groups names the first group at fault. */
  lemma NormalizeExact(req: TokenRequest, actorIDs: seq<string>)
    ensures var r := Normalize(req, actorIDs);
      && (r.Ok? <==>
            && (AllSpace(req.category) || Spells(req.category, "ical"))
            && req.groups != [] && AllFine(req.groups)
            && exists a :: a in actorIDs && !AllSpace(a))
      && (r.Ok? ==>
            var (category, scope) := r.value;
            && category == "ical" && KeepsAll(scope.groups, req.groups)
            && (forall a :: a in scope.actorIDs <==>
                  a != "" && exists i :: 0 <= i < |actorIDs| && Trim(actorIDs[i]) == a))
      && (r.Err? ==>
            match r.error
            case UnsupportedCategory(_) => !(AllSpace(req.category) || Spells(req.category, "ical"))
            case NoGroups => req.groups == []
            case NoActors => AllFine(req.groups) && forall a :: a in actorIDs ==> AllSpace(a)
            case _ => exists i :: FirstFault(req.groups, i, r.error))
  {
    BlankExact(req.category);
    SpellsExact(req.category, ICAL);
    NormalizeGroupsExact(req.groups);
    FilterLists.FilterListCanonical(actorIDs);
    ActorsExact(actorIDs);
  }

  lemma ActorsExact(actorIDs: seq<string>)
    ensures FilterLists.FilterList(actorIDs) != [] <==> exists a :: a in actorIDs && !AllSpace(a)
  {
    FilterLists.FilterListCanonical(actorIDs);
    forall i | 0 <= i < |actorIDs|
      ensures Trim(actorIDs[i]) == "" <==> AllSpace(actorIDs[i])
    {
      BlankExact(actorIDs[i]);
    }
    var list := FilterLists.FilterList(actorIDs);
    if list != [] {
      assert list[0] in list;
    }
    if a :| a in actorIDs && !AllSpace(a) {
      var i :| 0 <= i < |actorIDs| && actorIDs[i] == a;
      assert Trim(actorIDs[i]) in list;
    }
  }
}
