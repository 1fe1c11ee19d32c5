/** The in-memory user-token store, where its tokens come from over whole runs, and the choice of the
    token a sync uses. */
module UserTokens {
  import opened Text

  datatype User = User(profileID: string, email: string, token: string, expiresAt: Option<int>,
                       refreshToken: string, refreshExpiresAt: Option<int>)

  datatype UserState = UserState(nextID: nat, users: map<nat, User>, byProf: map<string, nat>)

  datatype UserError = ProfileRequired | UserNotFound | TokenEmpty | RefreshEmpty

  // ----- the operations on values -----

  function Upsert(s: UserState, u: User): UserState {
    if u.profileID == "" then s
    else if u.profileID in s.byProf then s.(users := s.users[s.byProf[u.profileID] := u])
    else UserState(s.nextID + 1, s.users[s.nextID := u], s.byProf[u.profileID := s.nextID])
  }

  function Promote(s: UserState, userID: nat): UserState {
    if userID !in s.users || s.users[userID].refreshToken == "" then s
    else
      var u := s.users[userID];
      s.(users := s.users[userID := u.(token := u.refreshToken, expiresAt := u.refreshExpiresAt)])
  }

  /** The two indexes are inverse to each other, and ids are positive and below the counter. */
  ghost predicate Inverse(s: UserState) {
    && s.nextID > 0
    && (forall p :: p in s.byProf ==> p != "" && s.byProf[p] in s.users && s.users[s.byProf[p]].profileID == p)
    && (forall id :: id in s.users ==>
          && 0 < id < s.nextID
          && s.users[id].profileID in s.byProf
          && s.byProf[s.users[id].profileID] == id)
  }

  class MemoryUserTokenStore {
    var nextID: nat
    var users: map<nat, User>
    var byProf: map<string, nat>

    ghost function State(): UserState
      reads this
    {
      UserState(nextID, users, byProf)
    }

    ghost predicate Valid()
      reads this
    {
      Inverse(State())
    }

    constructor ()
      ensures Valid() && State() == START
    {
      nextID, users, byProf := 1, map[], map[];
    }

    method UpsertUserToken(u: User) returns (userID: nat, error: Option<UserError>)
      requires Valid()
      modifies this
      ensures Valid()
      ensures State() == Upsert(old(State()), u)
      ensures error == if u.profileID == "" then Some(ProfileRequired) else None
      ensures u.profileID != "" ==> u.profileID in byProf && userID == byProf[u.profileID]
    {
      if u.profileID == "" {
        return 0, Some(ProfileRequired);
      }
      if u.profileID in byProf {
        userID := byProf[u.profileID];
        var stored := users[userID];
        stored := stored.(email := u.email, token := u.token, expiresAt := u.expiresAt,
                          refreshToken := u.refreshToken, refreshExpiresAt := u.refreshExpiresAt);
        users := users[userID := stored];
        return userID, None;
      }
      userID := nextID;
      nextID := nextID + 1;
      byProf := byProf[u.profileID := userID];
      users := users[userID := u];
      return userID, None;
    }

    method TokenByUserID(userID: nat) returns (token: Result<string, UserError>)
      ensures token == if userID !in users then Err(UserNotFound)
                       else if users[userID].token == "" then Err(TokenEmpty) else Ok(users[userID].token)
    {
      if userID !in users {
        return Err(UserNotFound);
      }
      if users[userID].token == "" {
        return Err(TokenEmpty);
      }
      return Ok(users[userID].token);
    }

    method PromoteRefreshTokenByUserID(userID: nat) returns (error: Option<UserError>)
      requires Valid()
      modifies this
      ensures Valid()
      ensures State() == Promote(old(State()), userID)
      ensures error == if userID !in old(users) then Some(UserNotFound)
                       else if old(users)[userID].refreshToken == "" then Some(RefreshEmpty) else None
    {
      if userID !in users {
        return Some(UserNotFound);
      }
      var u := users[userID];
      if u.refreshToken == "" {
        return Some(RefreshEmpty);
      }
      u := u.(token := u.refreshToken);
      u := u.(expiresAt := u.refreshExpiresAt);
      users := users[userID := u];
      return None;
    }
  }

  // ----- runs -----

  datatype Op = UpsertOp(user: User) | PromoteOp(userID: nat)

  const START := UserState(1, map[], map[])

  function Step(s: UserState, op: Op): UserState {
    match op
    case UpsertOp(u) => Upsert(s, u)
    case PromoteOp(userID) => Promote(s, userID)
  }

  /** The state after a run from the empty store. */
  function After(ops: seq<Op>): UserState {
    if ops == [] then START else Step(After(ops[..|ops| - 1]), ops[|ops| - 1])
  }

  /** The latest upsert of a profile in a run. */
  function LatestUpsert(ops: seq<Op>, profileID: string): Option<User> {
    if ops == [] then None
    else
      var op := ops[|ops| - 1];
      if op.UpsertOp? && op.user.profileID == profileID then Some(op.user)
        else LatestUpsert(ops[..|ops| - 1], profileID)
  }

  /** The stored token travels with its own expiry: it is the access pair or the refresh pair of one
      and the same upsert. */
  ghost predicate From(stored: User, upsert: User) {
    && stored.profileID == upsert.profileID && stored.email == upsert.email
    && stored.refreshToken == upsert.refreshToken && stored.refreshExpiresAt == upsert.refreshExpiresAt
    && ((stored.token == upsert.token && stored.expiresAt == upsert.expiresAt)
        || (upsert.refreshToken != "" && stored.token == upsert.refreshToken &&
          stored.expiresAt == upsert.refreshExpiresAt))
  }

  /** Each stored user comes from the latest upsert of its profile, and every profile ever upserted is
      stored. */
  ghost predicate Traced(s: UserState, ops: seq<Op>) {
    && Inverse(s)
    && (forall id :: id in s.users ==>
          LatestUpsert(ops, s.users[id].profileID).Some? &&
            From(s.users[id], LatestUpsert(ops, s.users[id].profileID).value))
    && (forall p :: p != "" && LatestUpsert(ops, p).Some? ==> p in s.byProf)
  }

  lemma LatestSnoc(ops: seq<Op>, op: Op, profileID: string)
    ensures LatestUpsert(ops + [op], profileID) ==
            if op.UpsertOp? && op.user.profileID == profileID then Some(op.user) else LatestUpsert(ops, profileID)
  {
    assert (ops + [op])[..|ops|] == ops;
  }

  lemma InverseUpsert(s: UserState, u: User)
    requires Inverse(s)
    ensures Inverse(Upsert(s, u))
  {
  }

  lemma TracedUpsert(s: UserState, ops: seq<Op>, u: User)
    requires Traced(s, ops)
    ensures Traced(Upsert(s, u), ops + [UpsertOp(u)])
  {
    var s', more := Upsert(s, u), ops + [UpsertOp(u)];
    forall p: string
      ensures LatestUpsert(more, p) == if u.profileID == p then Some(u) else LatestUpsert(ops, p)
    {
      LatestSnoc(ops, UpsertOp(u), p);
    }
    InverseUpsert(s, u);
    forall id | id in s'.users
      ensures LatestUpsert(more, s'.users[id].profileID).Some? &&
              From(s'.users[id], LatestUpsert(more, s'.users[id].profileID).value)
    {
      if s'.users[id].profileID == u.profileID {
        assert s'.users[id] == u;
      } else {
        assert s'.users[id] == s.users[id];
      }
    }
  }

  lemma TracedPromote(s: UserState, ops: seq<Op>, userID: nat)
    requires Traced(s, ops)
    ensures Traced(Promote(s, userID), ops + [PromoteOp(userID)])
  {
    forall p: string
      ensures LatestUpsert(ops + [PromoteOp(userID)], p) == LatestUpsert(ops, p)
    {
      LatestSnoc(ops, PromoteOp(userID), p);
    }
  }

  /** After every run the indexes are inverse and every stored token can be traced to the latest upsert
      of its profile. */
  lemma {:induction false} Provenance(ops: seq<Op>)
    ensures Traced(After(ops), ops)
  {
    if ops != [] {
      var init, op := ops[..|ops| - 1], ops[|ops| - 1];
      Provenance(init);
      assert ops == init + [op];
      match op
      case UpsertOp(u) => TracedUpsert(After(init), init, u);
      case PromoteOp(userID) => TracedPromote(After(init), init, userID);
    }
  }

  /** An id, once given to a profile, stays with it. */
  lemma {:induction false} IDsStable(ops: seq<Op>, more: seq<Op>, profileID: string)
    requires profileID in After(ops).byProf
    ensures profileID in After(ops + more).byProf && After(ops + more).byProf[profileID] == After(ops).byProf[profileID]
  {
    if more == [] {
      assert ops + more == ops;
    } else {
      assert (ops + more)[..|ops + more| - 1] == ops + more[..|more| - 1];
      IDsStable(ops, more[..|more| - 1], profileID);
    }
  }

  /** Whether the profile's refresh token took the place of its access token after its latest upsert. */
  function PromotedSince(ops: seq<Op>, profileID: string): bool {
    if ops == [] then false
    else
      var init, op := ops[..|ops| - 1], ops[|ops| - 1];
      match op
      case UpsertOp(u) => u.profileID != profileID && PromotedSince(init, profileID)
      case PromoteOp(userID) =>
        PromotedSince(init, profileID) || (profileID in After(init).byProf && After(init).byProf[profileID] == userID)
  }

  /** What is stored for a user whose latest upsert is known. */
  function Current(u: User, promoted: bool): User {
    if promoted && u.refreshToken != "" then u.(token := u.refreshToken, expiresAt := u.refreshExpiresAt) else u
  }

  /** After every run each stored user is exactly what the latest upsert of the profile brought, with the
      refresh pair in place of the access pair exactly if a promotion followed and there is a refresh
      token. */
  lemma {:induction false} StoredExact(ops: seq<Op>, userID: nat)
    requires userID in After(ops).users
    ensures var u := After(ops).users[userID];
      LatestUpsert(ops, u.profileID).Some?
      && u == Current(LatestUpsert(ops, u.profileID).value, PromotedSince(ops, u.profileID))
  {
    var init, op := ops[..|ops| - 1], ops[|ops| - 1];
    Provenance(init);
    assert ops == init + [op];
    if userID in After(init).users {
      StoredExact(init, userID);
    }
    match op
    case UpsertOp(u) => StoredUpsert(After(init), u, userID);
    case PromoteOp(id) => StoredPromote(After(init), id, userID);
  }

  /** An upsert replaces the record of its profile, or adds it under the next id, and leaves all others. */
  lemma StoredUpsert(s: UserState, u: User, userID: nat)
    requires Inverse(s) && userID in Upsert(s, u).users
    ensures var t := Upsert(s, u);
      if t.users[userID].profileID == u.profileID then t.users[userID] == u
      else userID in s.users && t.users[userID] == s.users[userID]
    ensures u.profileID != "" ==>
              var t := Upsert(s, u);
              u.profileID in t.byProf && t.byProf[u.profileID] in t.users && t.users[t.byProf[u.profileID]] == u
  {
  }

  /** A promotion puts the refresh token and its expiry in place of the access token's, if there is one, and
      leaves everything else. */
  lemma StoredPromote(s: UserState, id: nat, userID: nat)
    requires Inverse(s) && userID in s.users
    ensures var was, t := s.users[userID], Promote(s, id);
      && t.byProf == s.byProf && t.users.Keys == s.users.Keys
      && t.users[userID].token == (if userID == id && was.refreshToken != "" then was.refreshToken else was.token)
      && t.users[userID].expiresAt ==
         (if userID == id && was.refreshToken != "" then was.refreshExpiresAt else was.expiresAt)
      && t.users[userID].(token := was.token, expiresAt := was.expiresAt) == was
  {
  }

  // ----- choosing the token for a sync -----

  const EXPIRY_SKEW := 30_000_000_000

  const NO_TOKEN := "no usable spond token is stored"
  const BOTH_EXPIRED := "access and refresh tokens are expired"
  const ACCESS_EXPIRED := "access token expired and no refresh token stored"
  const NONE_AVAILABLE := "no usable spond token is available"

  /** `chooseTokenForSync` and `chooseTokenForImmediateSync`, which are the same code. */
  function ChooseToken(access: string, accessExpires: Option<int>, refresh: string, refreshExpires: Option<int>,
                       now: int): Result<string, string>
  {
    var accessToken, refreshToken := Trim(access), Trim(refresh);
    var limit := now + EXPIRY_SKEW;
    if accessToken != "" && (accessExpires == None || accessExpires.value > limit) then Ok(accessToken)
    else if refreshToken != "" && (refreshExpires == None || refreshExpires.value > limit) then Ok(refreshToken)
    else if accessToken == "" && refreshToken == "" then Err(NO_TOKEN)
    else if accessExpires.Some? && accessExpires.value < limit && refreshExpires.Some? &&
      refreshExpires.value < limit then Err(BOTH_EXPIRED)
    else if accessExpires.Some? && accessExpires.value < limit && refreshToken == "" then Err(ACCESS_EXPIRED)
    else if accessToken != "" then Ok(accessToken)
    else Err(NONE_AVAILABLE)
  }

  predicate ValidBeyond(token: string, expires: Option<int>, limit: int) {
    Trim(token) != "" && (expires == None || expires.value > limit)
  }

  /** The boundary at which the code falls through to an access token that is not valid long enough: it
      expires exactly at the limit, or a refresh token beside it does. */
  predicate FallsThrough(access: string, accessExpires: Option<int>, refresh: string, refreshExpires: Option<int>,
                         limit: int)
  {
    && Trim(access) != "" && accessExpires.Some? && accessExpires.value <= limit
    && !ValidBeyond(refresh, refreshExpires, limit)
    && (accessExpires.value == limit || (Trim(refresh) != "" && refreshExpires == Some(limit)))
  }

  /** Exactly what is chosen: the access token if it is valid beyond the skew, else the refresh token if
      it is, else an error, except at the boundary. */
  lemma ChooseTokenExact(access: string, accessExpires: Option<int>, refresh: string, refreshExpires: Option<int>,
                         now: int)
    ensures var r, limit := ChooseToken(access, accessExpires, refresh, refreshExpires, now), now + EXPIRY_SKEW;
      && (ValidBeyond(access, accessExpires, limit) ==> r == Ok(Trim(access)))
      && (!ValidBeyond(access, accessExpires, limit) && ValidBeyond(refresh, refreshExpires, limit) ==>
        r == Ok(Trim(refresh)))
      && (!ValidBeyond(access, accessExpires, limit) && !ValidBeyond(refresh, refreshExpires, limit) ==>
            (r.Ok? <==> FallsThrough(access, accessExpires, refresh, refreshExpires, limit)) &&
              (r.Ok? ==> r.value == Trim(access)))
  {
  }

  /** Away from the boundary a token is chosen exactly if one is valid beyond the skew, and it is. */
  lemma ChooseTokenSafe(access: string, accessExpires: Option<int>, refresh: string, refreshExpires: Option<int>,
                        now: int)
    requires accessExpires != Some(now + EXPIRY_SKEW) && refreshExpires != Some(now + EXPIRY_SKEW)
    ensures var r, limit := ChooseToken(access, accessExpires, refresh, refreshExpires, now), now + EXPIRY_SKEW;
      && (r.Ok? <==> ValidBeyond(access, accessExpires, limit) || ValidBeyond(refresh, refreshExpires, limit))
      && (r.Ok? ==> (r.value == Trim(access) && ValidBeyond(access, accessExpires, limit))
                    || (r.value == Trim(refresh) && ValidBeyond(refresh, refreshExpires, limit)))
  {
    ChooseTokenExact(access, accessExpires, refresh, refreshExpires, now);
  }

  /** The boundary met twice: an access token that expires exactly at the skew, and one long expired
      beside a refresh token that does. Both are sent to the API. */
  lemma ChooserBoundary()
    ensures ChooseToken("a", Some(EXPIRY_SKEW), "", None, 0) == Ok("a")
    ensures ChooseToken("a", Some(0), "r", Some(EXPIRY_SKEW), 0) == Ok("a")
  {
    TrimFixes("a");
    TrimFixes("r");
    TrimFixes("");
  }
}
