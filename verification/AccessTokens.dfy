/** The in-memory access-token store, and what expiry sweeping can and cannot change. Times are
    nanoseconds; a missing expiry never expires. */
module AccessTokens {
  import opened Text

  datatype Entry = Entry(id: nat, userID: nat, category: string, scope: string, expiresAt: Option<int>, createdAt: int)

  datatype TokenState = TokenState(nextID: nat, byToken: map<string, Entry>)

  datatype TokenError = TokenRequired | UserRequired | IDRequired | NotFound

  /** `isAccessTokenExpiredAt`. */
  predicate ExpiredAt(expiresAt: Option<int>, now: int) {
    expiresAt.Some? && !(expiresAt.value > now)
  }

  // ----- the operations on values -----

  function Inserted(s: TokenState, userID: nat, token: string, category: string, scope: string,
                    expiresAt: Option<int>, now: int): TokenState
  {
    var entry := Entry(s.nextID, userID, Trim(Lower(category)), scope, expiresAt, now);
    TokenState(s.nextID + 1, s.byToken[Trim(token) := entry])
  }

  function Create(s: TokenState, userID: nat, token: string, category: string, scope: string, expiresAt: Option<int>,
                  now: int): TokenState
  {
    if Trim(token) == "" || userID == 0 then s else Inserted(s, userID, token, category, scope, expiresAt, now)
  }

  predicate Selected(e: Entry, userID: nat, tokenID: nat) {
    e.id == tokenID && e.userID == userID
  }

  function RemoveByID(s: TokenState, userID: nat, tokenID: nat): TokenState {
    if userID == 0 || tokenID == 0 then s
    else s.(byToken := map k | k in s.byToken && !Selected(s.byToken[k], userID, tokenID) :: s.byToken[k])
  }

  function RemoveByToken(s: TokenState, token: string): TokenState {
    if Trim(token) == "" then s else s.(byToken := s.byToken - {Trim(token)})
  }

  predicate Sweepable(e: Entry, userID: nat, now: int) {
    e.userID == userID && ExpiredAt(e.expiresAt, now)
  }

  function Sweep(s: TokenState, userID: nat, now: int): TokenState {
    if userID == 0 then s
    else s.(byToken := map k | k in s.byToken && !Sweepable(s.byToken[k], userID, now) :: s.byToken[k])
  }

  /** Ids are positive, below the counter, and no two tokens share one. */
  ghost predicate UniqueIDs(s: TokenState) {
    && s.nextID > 0
    && (forall k :: k in s.byToken ==> 0 < s.byToken[k].id < s.nextID)
    && (forall k, l :: k in s.byToken && l in s.byToken && k != l ==> s.byToken[k].id != s.byToken[l].id)
  }

  // ----- the store -----

  class MemoryAccessTokenStore {
    var nextID: nat
    var byToken: map<string, Entry>

    ghost function State(): TokenState
      reads this
    {
      TokenState(nextID, byToken)
    }

    ghost predicate Valid()
      reads this
    {
      UniqueIDs(State())
    }

    constructor ()
      ensures Valid() && State() == TokenState(1, map[])
    {
      nextID, byToken := 1, map[];
    }

    method CreateAccessToken(userID: nat, token: string, category: string, scope: string, expiresAt: Option<int>,
                             now: int)
      returns (error: Option<TokenError>)
      requires Valid()
      modifies this
      ensures Valid()
      ensures State() == Create(old(State()), userID, token, category, scope, expiresAt, now)
      ensures error == if Trim(token) == "" then Some(TokenRequired) else if userID == 0 then Some(UserRequired)
              else None
    {
      var key := Trim(token);
      if key == "" {
        return Some(TokenRequired);
      }
      if userID == 0 {
        return Some(UserRequired);
      }
      var id := nextID;
      nextID := nextID + 1;
      byToken := byToken[key := Entry(id, userID, Trim(Lower(category)), scope, expiresAt, now)];
      return None;
    }

    method AccessTokenByToken(token: string) returns (record: Result<Entry, TokenError>)
      ensures record == if Trim(token) == "" then Err(TokenRequired)
                        else if Trim(token) in byToken then Ok(byToken[Trim(token)]) else Err(NotFound)
    {
      var key := Trim(token);
      if key == "" {
        return Err(TokenRequired);
      }
      if key !in byToken {
        return Err(NotFound);
      }
      return Ok(byToken[key]);
    }

    /** Deletes the first match met in an arbitrary iteration order; unique ids make the order
        irrelevant. */
    method DeleteAccessTokenByID(userID: nat, tokenID: nat) returns (error: Option<TokenError>)
      requires Valid()
      modifies this
      ensures Valid()
      ensures State() == RemoveByID(old(State()), userID, tokenID)
      ensures error == (if userID == 0 then Some(UserRequired) else if tokenID == 0 then Some(IDRequired)
                        else if exists k :: k in old(byToken) && Selected(old(byToken)[k], userID, tokenID) then None
                        else Some(NotFound))
    {
      if userID == 0 {
        return Some(UserRequired);
      }
      if tokenID == 0 {
        return Some(IDRequired);
      }
      var left := byToken.Keys;
      while left != {}
        invariant left <= byToken.Keys
        invariant forall k :: k in byToken && k !in left ==> !Selected(byToken[k], userID, tokenID)
        decreases left
      {
        var token :| token in left;
        if Selected(byToken[token], userID, tokenID) {
          byToken := byToken - {token};
          return None;
        }
        left := left - {token};
      }
      return Some(NotFound);
    }

    method DeleteAccessTokenByToken(token: string) returns (error: Option<TokenError>)
      requires Valid()
      modifies this
      ensures Valid()
      ensures State() == RemoveByToken(old(State()), token)
      ensures error == if Trim(token) == "" then Some(TokenRequired)
                       else if Trim(token) in old(byToken) then None else Some(NotFound)
    {
      var key := Trim(token);
      if key == "" {
        return Some(TokenRequired);
      }
      if key !in byToken {
        return Some(NotFound);
      }
      byToken := byToken - {key};
      return None;
    }

    /** Deletes while iterating, in an arbitrary order; the count and the survivors add up. */
    method DeleteExpiredAccessTokensByUserID(userID: nat, now: int) returns (deleted: nat, error: Option<TokenError>)
      requires Valid()
      modifies this
      ensures Valid()
      ensures State() == Sweep(old(State()), userID, now)
      ensures deleted + |byToken| == |old(byToken)|
      ensures forall k :: k in old(byToken) && old(byToken)[k].userID != userID ==>
              k in byToken && byToken[k] == old(byToken)[k]
      ensures error == if userID == 0 then Some(UserRequired) else None
    {
      if userID == 0 {
        return 0, Some(UserRequired);
      }
      deleted := 0;
      var all := byToken;
      var left := all.Keys;
      while left != {}
        invariant left <= all.Keys && nextID == old(nextID)
        invariant forall k :: k in byToken <==> k in all && (k in left || !Sweepable(all[k], userID, now))
        invariant forall k :: k in byToken ==> byToken[k] == all[k]
        invariant deleted + |byToken| == |all|
        decreases left
      {
        var token :| token in left;
        var entry := byToken[token];
        left := left - {token};
        if entry.userID != userID {
          continue;
        }
        if entry.expiresAt == None || entry.expiresAt.value > now {
          continue;
        }
        assert |byToken| == |byToken - {token}| + 1 by {
          assert (byToken - {token}).Keys == byToken.Keys - {token};
        }
        byToken := byToken - {token};
        deleted := deleted + 1;
      }
      assert byToken == Sweep(old(State()), userID, now).byToken;
      return deleted, None;
    }
  }

  // ----- runs -----

  datatype Op =
    | CreateOp(userID: nat, token: string, category: string, scope: string, expiresAt: Option<int>)
    | DeleteIDOp(userID: nat, tokenID: nat)
    | DeleteTokenOp(token: string)
    | SweepOp(userID: nat)
    | ExportOp(token: string)

  datatype Timed = At(now: int, op: Op)

  /** What an export is granted: the live record of the token, if there is one. */
  function Authorised(s: TokenState, token: string, now: int): Option<Entry> {
    var key := Trim(token);
    if key != "" && key in s.byToken && !ExpiredAt(s.byToken[key].expiresAt, now) then Some(s.byToken[key]) else None
  }

  /** `reap` says whether an export that meets an expired token deletes it, as the handler does. */
  function Step(s: TokenState, t: Timed, reap: bool): TokenState {
    match t.op
    case CreateOp(userID, token, category, scope, expiresAt) =>
      Create(s, userID, token, category, scope, expiresAt, t.now)
    case DeleteIDOp(userID, tokenID) => RemoveByID(s, userID, tokenID)
    case DeleteTokenOp(token) => RemoveByToken(s, token)
    case SweepOp(userID) => Sweep(s, userID, t.now)
    case ExportOp(token) =>
      if reap && Trim(token) in s.byToken && Authorised(s, token, t.now) == None then RemoveByToken(s, token) else s
  }

  /** The answers to the exports of a run, in order. */
  function Answers(s: TokenState, run: seq<Timed>, reap: bool): seq<Option<Entry>>
    decreases |run|
  {
    if run == [] then []
    else
      (if run[0].op.ExportOp? then [Authorised(s, run[0].op.token, run[0].now)] else [])
      + Answers(Step(s, run[0], reap), run[1..], reap)
  }

  function WithoutSweeps(run: seq<Timed>): seq<Timed> {
    if run == [] then []
    else (if run[0].op.SweepOp? then [] else [run[0]]) + WithoutSweeps(run[1..])
  }

  predicate ClockFrom(run: seq<Timed>, clock: int) {
    && (forall i :: 0 <= i < |run| ==> clock <= run[i].now)
    && (forall i, j :: 0 <= i < j < |run| ==> run[i].now <= run[j].now)
  }

  /** The two states hold the same tokens, apart from tokens that have expired by `clock`. */
  ghost predicate AgreeLive(s: TokenState, t: TokenState, clock: int) {
    && s.nextID == t.nextID
    && (forall k :: k in s.byToken && k in t.byToken ==> s.byToken[k] == t.byToken[k])
    && (forall k :: k in s.byToken && k !in t.byToken ==> ExpiredAt(s.byToken[k].expiresAt, clock))
    && (forall k :: k in t.byToken && k !in s.byToken ==> ExpiredAt(t.byToken[k].expiresAt, clock))
  }

  lemma AgreeCreate(s: TokenState, t: TokenState, now: int, op: Op)
    requires AgreeLive(s, t, now) && op.CreateOp?
    ensures AgreeLive(Step(s, At(now, op), false), Step(t, At(now, op), false), now)
  {
  }

  lemma AgreeRemoveByID(s: TokenState, t: TokenState, now: int, userID: nat, tokenID: nat)
    requires AgreeLive(s, t, now)
    ensures AgreeLive(RemoveByID(s, userID, tokenID), RemoveByID(t, userID, tokenID), now)
  {
  }

  lemma AgreeRemoveByToken(s: TokenState, t: TokenState, now: int, token: string)
    requires AgreeLive(s, t, now)
    ensures AgreeLive(RemoveByToken(s, token), RemoveByToken(t, token), now)
  {
  }

  /** Sweeping one side only. */
  lemma AgreeSweep(s: TokenState, t: TokenState, now: int, userID: nat)
    requires AgreeLive(s, t, now)
    ensures AgreeLive(Sweep(s, userID, now), t, now)
  {
  }

  lemma AgreeStep(s: TokenState, t: TokenState, x: Timed, reapS: bool, reapT: bool)
    requires AgreeLive(s, t, x.now)
    ensures AgreeLive(Step(s, x, reapS), if x.op.SweepOp? then t else Step(t, x, reapT), x.now)
    ensures x.op.ExportOp? ==> Authorised(s, x.op.token, x.now) == Authorised(t, x.op.token, x.now)
  {
    match x.op
    case CreateOp(_, _, _, _, _) => AgreeCreate(s, t, x.now, x.op);
    case DeleteIDOp(userID, tokenID) => AgreeRemoveByID(s, t, x.now, userID, tokenID);
    case DeleteTokenOp(token) => AgreeRemoveByToken(s, t, x.now, token);
    case SweepOp(userID) => AgreeSweep(s, t, x.now, userID);
    case ExportOp(token) =>
      var s' := Step(s, x, reapS);
  }

  /** Over every run with a clock that does not go back: dropping all sweeps from the run, and letting
      exports delete expired tokens or not, changes no answer to any export. */
  lemma {:induction false} SweepingUnobservable(s: TokenState, t: TokenState, clock: int, run: seq<Timed>,
                                                reapS: bool, reapT: bool)
    requires AgreeLive(s, t, clock) && ClockFrom(run, clock)
    ensures Answers(s, run, reapS) == Answers(t, WithoutSweeps(run), reapT)
    decreases |run|
  {
    if run != [] {
      var x, rest := run[0], WithoutSweeps(run[1..]);
      AgreeStep(s, t, x, reapS, reapT);
      var t' := if x.op.SweepOp? then t else Step(t, x, reapT);
      SweepingUnobservable(Step(s, x, reapS), t', x.now, run[1..], reapS, reapT);
      if x.op.SweepOp? {
        assert WithoutSweeps(run) == rest;
        assert Answers(s, run, reapS) == Answers(Step(s, x, reapS), run[1..], reapS);
      } else {
        assert WithoutSweeps(run) == [x] + rest;
      }
    }
  }

  /** Two runs that differ only in their sweeps answer every export alike. */
  lemma SweepsInterchangeable(s: TokenState, clock: int, a: seq<Timed>, b: seq<Timed>, reapA: bool, reapB: bool)
    requires ClockFrom(a, clock) && ClockFrom(b, clock) && WithoutSweeps(a) == WithoutSweeps(b)
    ensures Answers(s, a, reapA) == Answers(s, b, reapB)
  {
    SweepingUnobservable(s, s, clock, a, reapA, false);
    SweepingUnobservable(s, s, clock, b, reapB, false);
  }

  /** No step of any kind breaks the uniqueness of ids. */
  lemma {:induction false} UniqueIDsKept(s: TokenState, run: seq<Timed>, reap: bool)
    requires UniqueIDs(s)
    ensures UniqueIDs(After(s, run, reap))
    decreases |run|
  {
    if run != [] {
      UniqueIDsStep(s, run[0], reap);
      UniqueIDsKept(Step(s, run[0], reap), run[1..], reap);
    }
  }

  lemma UniqueIDsStep(s: TokenState, x: Timed, reap: bool)
    requires UniqueIDs(s)
    ensures UniqueIDs(Step(s, x, reap))
  {
    match x.op
    case CreateOp(userID, token, category, scope, expiresAt) =>
      UniqueIDsCreate(s, userID, token, category, scope, expiresAt, x.now);
    case DeleteIDOp(_, _) =>
    case DeleteTokenOp(_) =>
    case SweepOp(_) =>
    case ExportOp(_) =>
  }

  lemma UniqueIDsCreate(s: TokenState, userID: nat, token: string, category: string, scope: string,
                        expiresAt: Option<int>, now: int)
    requires UniqueIDs(s)
    ensures UniqueIDs(Create(s, userID, token, category, scope, expiresAt, now))
  {
  }

  function After(s: TokenState, run: seq<Timed>, reap: bool): TokenState
    decreases |run|
  {
    if run == [] then s else After(Step(s, run[0], reap), run[1..], reap)
  }

  /** The clock matters: a token swept at its expiry is refused when judged by an earlier time at which
      it would still have been accepted. */
  lemma ClockNeeded(s: TokenState, token: string, now: int, earlier: int)
    requires Trim(token) != "" && Trim(token) in s.byToken && s.byToken[Trim(token)].userID != 0
    requires s.byToken[Trim(token)].expiresAt.Some? && earlier < s.byToken[Trim(token)].expiresAt.value <= now
    ensures Authorised(s, token, earlier).Some?
    ensures Authorised(Sweep(s, s.byToken[Trim(token)].userID, now), token, earlier) == None
  {
  }

  // ----- a token's life -----

  /** The step neither deletes the token nor puts another one in its place. */
  predicate Spares(op: Op, token: string, e: Entry) {
    match op
    case CreateOp(_, other, _, _, _) => Trim(other) != Trim(token)
    case DeleteIDOp(userID, tokenID) => !(userID == e.userID && tokenID == e.id)
    case DeleteTokenOp(other) => Trim(other) != Trim(token)
    case SweepOp(_) => true
    case ExportOp(_) => true
  }

  lemma {:induction false} HeldThrough(s: TokenState, token: string, e: Entry, run: seq<Timed>, reap: bool, now: int)
    requires Trim(token) in s.byToken ==> s.byToken[Trim(token)] == e
    requires forall i :: 0 <= i < |run| ==> Spares(run[i].op, token, e) && run[i].now <= now
    ensures var t := After(s, run, reap);
      && (Trim(token) in t.byToken ==> t.byToken[Trim(token)] == e)
      && (Trim(token) in s.byToken && !ExpiredAt(e.expiresAt, now) ==> Trim(token) in t.byToken)
    decreases |run|
  {
    if run != [] {
      HeldThrough(Step(s, run[0], reap), token, e, run[1..], reap, now);
    }
  }

  /** A created token is good for exports, under the scope it was created with, exactly until it expires,
      whatever else happens to the store in between, unless it is deleted or created anew. */
  lemma CreatedUntilExpiry(s: TokenState, created: Timed, run: seq<Timed>, reap: bool, now: int)
    requires created.op.CreateOp? && created.op.userID != 0 && Trim(created.op.token) != ""
    requires var op := created.op;
      var e := Entry(s.nextID, op.userID, Trim(Lower(op.category)), op.scope, op.expiresAt, created.now);
      forall i :: 0 <= i < |run| ==> Spares(run[i].op, op.token, e) && run[i].now <= now
    ensures var op := created.op;
      var e := Entry(s.nextID, op.userID, Trim(Lower(op.category)), op.scope, op.expiresAt, created.now);
      Authorised(After(Step(s, created, reap), run, reap), op.token, now) ==
      if ExpiredAt(op.expiresAt, now) then None else Some(e)
  {
    var op := created.op;
    var e := Entry(s.nextID, op.userID, Trim(Lower(op.category)), op.scope, op.expiresAt, created.now);
    HeldThrough(Step(s, created, reap), op.token, e, run, reap, now);
  }

  // ----- revocation -----

  /** No step puts a token in this place. */
  predicate NeverCreates(run: seq<Timed>, token: string) {
    forall i :: 0 <= i < |run| && run[i].op.CreateOp? ==> Trim(run[i].op.token) != Trim(token)
  }

  lemma {:induction false} StaysGone(s: TokenState, token: string, run: seq<Timed>, reap: bool)
    requires Trim(token) !in s.byToken && NeverCreates(run, token)
    ensures Trim(token) !in After(s, run, reap).byToken
    decreases |run|
  {
    if run != [] {
      assert Trim(token) !in Step(s, run[0], reap).byToken;
      StaysGone(Step(s, run[0], reap), token, run[1..], reap);
    }
  }

  /** A token deleted by itself answers no export any more, at whatever time and after whatever operations,
      until it is created anew; every other token keeps its record. */
  lemma RevokedByToken(s: TokenState, token: string, run: seq<Timed>, reap: bool, now: int, other: string)
    requires NeverCreates(run, token)
    ensures Authorised(After(RemoveByToken(s, token), run, reap), token, now) == None
    ensures Trim(other) != Trim(token) ==> Authorised(RemoveByToken(s, token), other, now) == Authorised(s, other, now)
  {
    if Trim(token) != "" {
      StaysGone(RemoveByToken(s, token), token, run, reap);
    }
  }

  /** The same for a token deleted by its id: the user's token with that id is gone, and every token with
      another id or of another user keeps its record. */
  lemma RevokedByID(s: TokenState, userID: nat, tokenID: nat, run: seq<Timed>, reap: bool, now: int, token: string)
    requires userID != 0 && tokenID != 0 && Trim(token) in s.byToken
    ensures var e := s.byToken[Trim(token)];
      if e.id == tokenID && e.userID == userID
      then NeverCreates(run, token) ==> Authorised(After(RemoveByID(s, userID, tokenID), run, reap), token, now) == None
      else Authorised(RemoveByID(s, userID, tokenID), token, now) == Authorised(s, token, now)
  {
    if Selected(s.byToken[Trim(token)], userID, tokenID) && NeverCreates(run, token) {
      StaysGone(RemoveByID(s, userID, tokenID), token, run, reap);
    }
  }

  /** A sweep removes exactly the user's tokens that have expired by then. */
  lemma SweepExact(s: TokenState, userID: nat, now: int, key: string)
    requires userID != 0 && key in s.byToken
    ensures var e := s.byToken[key];
      key in Sweep(s, userID, now).byToken <==> e.userID != userID || e.expiresAt == None || e.expiresAt.value > now
    ensures key in Sweep(s, userID, now).byToken ==> Sweep(s, userID, now).byToken[key] == s.byToken[key]
  {
  }
}
