/** Refresh tokens and the session limit. Issuing a token is two statements, an insert and an
    enforcement, and the statements of concurrent logins and rotations interleave. */
module RefreshSessions {
  import opened Text

  type UserId = nat
  type TokenId = nat
  type IssueId = nat

  datatype Token = Token(user: UserId, version: int, createdAt: int, expiresAt: int, revoked: bool)
  type Tokens = map<TokenId, Token>

  /** `revoked_at IS NULL AND expires_at > NOW()` */
  predicate IsLive(token: Token, now: int) {
    !token.revoked && token.expiresAt > now
  }

  function Live(tokens: Tokens, user: UserId, now: int): set<TokenId> {
    set id | id in tokens && tokens[id].user == user && IsLive(tokens[id], now)
  }

  /** `refresh_max_sessions.max(1)` */
  function SessionLimit(configured: int): (limit: nat)
    ensures limit >= 1 && limit >= configured && (limit == 1 || limit == configured)
  {
    if configured < 1 then 1 else configured
  }

  /** `refresh_ttl_seconds.max(600)` */
  function Lifetime(configured: int): int {
    if configured < 600 then 600 else configured
  }

  function Inserted(tokens: Tokens, id: TokenId, user: UserId, version: int, ttl: int, now: int): Tokens {
    tokens[id := Token(user, version, now, now + Lifetime(ttl), false)]
  }

  function RevokedAll(tokens: Tokens, ids: set<TokenId>): Tokens {
    map id | id in tokens :: if id in ids then tokens[id].(revoked := true) else tokens[id]
  }

  /** `row_number() OVER (ORDER BY created_at DESC)` over a user's live tokens; ties in any order. */
  ghost predicate Ranks(tokens: Tokens, user: UserId, now: int, ranking: seq<TokenId>) {
    && (forall i, j :: 0 <= i < j < |ranking| ==> ranking[i] != ranking[j])
    && (forall id :: id in ranking <==> id in Live(tokens, user, now))
    && (forall i, j :: 0 <= i < j < |ranking| ==>
          && ranking[i] in tokens && ranking[j] in tokens
          && tokens[ranking[i]].createdAt >= tokens[ranking[j]].createdAt)
  }

  function Beyond(ranking: seq<TokenId>, limit: nat): set<TokenId> {
    set i | limit <= i < |ranking| :: ranking[i]
  }

  /** `enforce_refresh_session_limit` */
  function Enforced(tokens: Tokens, ranking: seq<TokenId>, limit: nat): Tokens {
    RevokedAll(tokens, Beyond(ranking, limit))
  }

  /** Enforcement keeps a user's newest tokens up to the limit, and touches no one else's. */
  lemma EnforcementKeepsNewest(tokens: Tokens, user: UserId, now: int, ranking: seq<TokenId>, limit: nat)
    requires Ranks(tokens, user, now, ranking)
    ensures var kept := Live(Enforced(tokens, ranking, limit), user, now);
            && kept <= Live(tokens, user, now)
            && |kept| == (if |ranking| <= limit then |ranking| else limit)
            && (forall k, r :: k in kept && r in Live(tokens, user, now) - kept ==>
                tokens[k].createdAt >= tokens[r].createdAt)
    ensures forall other :: other != user ==>
            Live(Enforced(tokens, ranking, limit), other, now) == Live(tokens, other, now)
  {
    var kept := Live(Enforced(tokens, ranking, limit), user, now);
    var n := if |ranking| <= limit then |ranking| else limit;
    forall id ensures id in kept <==> id in ranking[..n] {
      if id in ranking {
        var i :| 0 <= i < |ranking| && ranking[i] == id;
        assert id in Live(tokens, user, now);
        assert i < n ==> ranking[..n][i] == id;
      }
      if id in ranking[..n] {
        var i :| 0 <= i < n && ranking[..n][i] == id;
        assert ranking[i] in ranking && ranking[i] in Live(tokens, user, now);
      }
    }
    DistinctSize(ranking[..n], kept);
    forall m | 0 <= m < n ensures ranking[m] in kept {
      assert ranking[..n][m] == ranking[m];
    }
    forall k, r | k in kept && r in Live(tokens, user, now) - kept ensures tokens[k].createdAt >= tokens[r].createdAt {
      assert k in ranking[..n] && r in ranking;
      var i :| 0 <= i < n && ranking[..n][i] == k;
      var j :| 0 <= j < |ranking| && ranking[j] == r;
      assert ranking[i] == k && j >= n;
    }
    forall other | other != user
      ensures Live(Enforced(tokens, ranking, limit), other, now) == Live(tokens, other, now) {
      assert forall id :: id in Beyond(ranking, limit) ==> id in ranking;
    }
  }

  lemma {:induction false} DistinctSize(s: seq<TokenId>, elements: set<TokenId>)
    requires forall i, j :: 0 <= i < j < |s| ==> s[i] != s[j]
    requires forall x :: x in elements <==> x in s
    ensures |elements| == |s|
  {
    if s == [] {
      assert elements == {};
    } else {
      var last := |s| - 1;
      assert s == s[..last] + [s[last]];
      DistinctSize(s[..last], elements - {s[last]});
    }
  }

  lemma {:induction false} SubsetSize<T>(small: set<T>, large: set<T>)
    requires small <= large
    ensures |small| <= |large|
    decreases |small|
  {
    if small != {} {
      var x :| x in small;
      SubsetSize(small - {x}, large - {x});
    }
  }

  // ---------- the table as the service updates it ----------

  datatype AuthError = InvalidCredentials | UserMissing | UserDisabled

  /** The user row that a rotation reads: whether it is active, and its token version. */
  datatype UserRow = UserRow(active: bool, version: int)

  class TokenTable {
    var tokens: Tokens

    constructor ()
      ensures tokens == map[]
    {
      tokens := map[];
    }

    /** `issue_refresh_token` run by itself: insert, then enforce. */
    method Issue(user: UserId, version: int, id: TokenId, ttl: int, maxSessions: int, now: int, ranking: seq<TokenId>)
      requires id !in tokens
      requires Ranks(Inserted(tokens, id, user, version, ttl, now), user, now, ranking)
      modifies this
      ensures tokens == Enforced(Inserted(old(tokens), id, user, version, ttl, now), ranking, SessionLimit(maxSessions))
      ensures |Live(tokens, user, now)| <= SessionLimit(maxSessions)
      ensures forall other :: other != user ==> Live(tokens, other, now) == Live(old(tokens), other, now)
    {
      tokens := tokens[id := Token(user, version, now, now + Lifetime(ttl), false)];
      EnforcementKeepsNewest(tokens, user, now, ranking, SessionLimit(maxSessions));
      var limit := SessionLimit(maxSessions);
      tokens := RevokedAll(tokens, Beyond(ranking, limit));
    }

    /** `rotate_refresh_token`: `found` is the row of the presented token, if its hash is stored. */
    method Rotate(found: Option<TokenId>, row: Option<UserRow>, id: TokenId, ttl: int, maxSessions: int, now: int,
                  ranking: seq<TokenId>)
      returns (r: Result<TokenId, AuthError>)
      requires found.Some? ==> found.value in tokens
      requires id !in tokens
      requires found.Some? && row.Some? ==>
                 Ranks(Inserted(tokens, id, tokens[found.value].user, row.value.version, ttl, now),
                       tokens[found.value].user, now, ranking)
      modifies this
      ensures r.Ok? <==>
              && found.Some? && IsLive(old(tokens)[found.value], now)
              && row.Some? && row.value.active && row.value.version == old(tokens)[found.value].version
      ensures r.Ok? ==>
              && r.value == id
              && tokens == RevokedAll(Enforced(Inserted(old(tokens), id, old(tokens)[found.value].user,
                                                        row.value.version, ttl, now),
                                               ranking, SessionLimit(maxSessions)), {found.value})
      ensures r.Err? ==>
              tokens == if found.Some? && IsLive(old(tokens)[found.value], now) && row.Some? && row.value.active
                        then RevokedAll(old(tokens), {found.value}) else old(tokens)
      ensures found.Some? && row.Some? && row.value.active && IsLive(old(tokens)[found.value], now) ==>
              tokens[found.value].revoked
    {
      if found.None? || !IsLive(tokens[found.value], now) {
        return Err(InvalidCredentials);
      }
      var presented := tokens[found.value];
      if row.None? {
        return Err(UserMissing);
      }
      if !row.value.active {
        return Err(UserDisabled);
      }
      if row.value.version != presented.version {
        tokens := RevokedAll(tokens, {found.value});
        return Err(InvalidCredentials);
      }
      Issue(presented.user, row.value.version, id, ttl, maxSessions, now, ranking);
      tokens := RevokedAll(tokens, {found.value});
      return Ok(id);
    }

    /** `revoke_refresh_token` at logout. */
    method Logout(found: Option<TokenId>)
      modifies this
      ensures tokens == if found.Some? then RevokedAll(old(tokens), {found.value}) else old(tokens)
    {
      if found.Some? {
        tokens := RevokedAll(tokens, {found.value});
      }
    }
  }

  // ---------- every interleaving of the statements ----------

  /** `pending` holds the issues that have inserted their token and not yet enforced. */
  datatype State = State(tokens: Tokens, now: int, pending: map<IssueId, UserId>)

  datatype Step =
    | Insert(issue: IssueId, id: TokenId, user: UserId, version: int, ttl: int)
    | Enforce(issue: IssueId, ranking: seq<TokenId>)
    | RevokeToken(id: TokenId)
    | DeleteUser(user: UserId)
    | Tick(elapsed: nat)

  ghost predicate Enabled(s: State, step: Step) {
    match step
    case Insert(issue, id, _, _, _) => issue !in s.pending && id !in s.tokens
    case Enforce(issue, ranking) => issue in s.pending && Ranks(s.tokens, s.pending[issue], s.now, ranking)
    case _ => true
  }

  ghost function Next(s: State, step: Step, maxSessions: int): State
    requires Enabled(s, step)
  {
    match step
    case Insert(issue, id, user, version, ttl) =>
      s.(tokens := Inserted(s.tokens, id, user, version, ttl, s.now), pending := s.pending[issue := user])
    case Enforce(issue, ranking) =>
      s.(tokens := Enforced(s.tokens, ranking, SessionLimit(maxSessions)), pending := s.pending - {issue})
    case RevokeToken(id) => s.(tokens := RevokedAll(s.tokens, {id}))
    case DeleteUser(user) => s.(tokens := map id | id in s.tokens && s.tokens[id].user != user :: s.tokens[id])
    case Tick(elapsed) => s.(now := s.now + elapsed)
  }

  ghost predicate Executable(s: State, steps: seq<Step>, maxSessions: int)
    decreases |steps|
  {
    steps != [] ==> Enabled(s, steps[0]) && Executable(Next(s, steps[0], maxSessions), steps[1..], maxSessions)
  }

  ghost function After(s: State, steps: seq<Step>, maxSessions: int): State
    requires Executable(s, steps, maxSessions)
    decreases |steps|
  {
    if steps == [] then s else After(Next(s, steps[0], maxSessions), steps[1..], maxSessions)
  }

  function Unenforced(s: State, user: UserId): set<IssueId> {
    set issue | issue in s.pending && s.pending[issue] == user
  }

  predicate WithinLimit(s: State, user: UserId, maxSessions: int) {
    |Live(s.tokens, user, s.now)| <= SessionLimit(maxSessions) + |Unenforced(s, user)|
  }

  /** The issue is done, and its user has no more live tokens than the limit, whoever else is in flight. */
  predicate EnforcedNow(s: State, step: Step, s': State, maxSessions: int)
    requires step.Enforce? && step.issue in s.pending
  {
    && s'.pending == s.pending - {step.issue}
    && |Live(s'.tokens, s.pending[step.issue], s'.now)| <= SessionLimit(maxSessions)
  }

  lemma InsertKeepsLimit(s: State, step: Step, user: UserId, maxSessions: int)
    requires step.Insert? && Enabled(s, step) && WithinLimit(s, user, maxSessions)
    ensures WithinLimit(Next(s, step, maxSessions), user, maxSessions)
  {
    LiveAfterInsert(s.tokens, step.id, step.user, step.version, step.ttl, s.now, user);
    UnenforcedAfterInsert(s, Next(s, step, maxSessions), step.issue, step.user, user);
  }

  lemma LiveAfterInsert(tokens: Tokens, id: TokenId, owner: UserId, version: int, ttl: int, now: int, user: UserId)
    requires id !in tokens
    ensures |Live(Inserted(tokens, id, owner, version, ttl, now), user, now)| <= |Live(tokens, user, now)|
            + if owner == user then 1 else 0
  {
    var after := Live(Inserted(tokens, id, owner, version, ttl, now), user, now);
    if owner == user {
      SubsetSize(after, Live(tokens, user, now) + {id});
    } else {
      assert after == Live(tokens, user, now);
    }
  }

  lemma UnenforcedAfterInsert(s: State, s': State, issue: IssueId, owner: UserId, user: UserId)
    requires issue !in s.pending && s'.pending == s.pending[issue := owner]
    ensures |Unenforced(s', user)| == |Unenforced(s, user)| + if owner == user then 1 else 0
  {
    if owner == user {
      assert Unenforced(s', user) == Unenforced(s, user) + {issue};
    } else {
      assert Unenforced(s', user) == Unenforced(s, user);
    }
  }

  lemma EnforceKeepsLimit(s: State, step: Step, user: UserId, maxSessions: int)
    requires step.Enforce? && Enabled(s, step) && WithinLimit(s, user, maxSessions)
    ensures WithinLimit(Next(s, step, maxSessions), user, maxSessions)
    ensures EnforcedNow(s, step, Next(s, step, maxSessions), maxSessions)
  {
    var s' := Next(s, step, maxSessions);
    EnforcementKeepsNewest(s.tokens, s.pending[step.issue], s.now, step.ranking, SessionLimit(maxSessions));
    if s.pending[step.issue] != user {
      assert Unenforced(s', user) == Unenforced(s, user);
    }
  }

  lemma StepKeepsLimit(s: State, step: Step, user: UserId, maxSessions: int)
    requires Enabled(s, step) && WithinLimit(s, user, maxSessions)
    ensures WithinLimit(Next(s, step, maxSessions), user, maxSessions)
    ensures step.Enforce? ==> EnforcedNow(s, step, Next(s, step, maxSessions), maxSessions)
  {
    match step
    case Insert(_, _, _, _, _) => InsertKeepsLimit(s, step, user, maxSessions);
    case Enforce(_, _) => EnforceKeepsLimit(s, step, user, maxSessions);
    case _ =>
      var s' := Next(s, step, maxSessions);
      assert Unenforced(s', user) == Unenforced(s, user);
      SubsetSize(Live(s'.tokens, user, s'.now), Live(s.tokens, user, s.now));
  }

  /** In every interleaving, a user's live refresh tokens never exceed the session limit plus the number
      of issues that have inserted but not yet enforced. */
  lemma {:induction false} SessionsStayWithinLimit(s: State, steps: seq<Step>, user: UserId, maxSessions: int)
    requires Executable(s, steps, maxSessions) && WithinLimit(s, user, maxSessions)
    ensures WithinLimit(After(s, steps, maxSessions), user, maxSessions)
    decreases |steps|
  {
    if steps != [] {
      StepKeepsLimit(s, steps[0], user, maxSessions);
      SessionsStayWithinLimit(Next(s, steps[0], maxSessions), steps[1..], user, maxSessions);
    }
  }

  // ---------- how long an issued token lives ----------

  /** The step revokes the token or deletes its row. */
  ghost predicate Ends(s: State, step: Step, id: TokenId, maxSessions: int)
    requires Enabled(s, step)
  {
    match step
    case Enforce(_, ranking) => id in Beyond(ranking, SessionLimit(maxSessions))
    case RevokeToken(revoked) => revoked == id
    case DeleteUser(user) => id in s.tokens && s.tokens[id].user == user
    case _ => false
  }

  ghost predicate NeverEnds(s: State, steps: seq<Step>, id: TokenId, maxSessions: int)
    requires Executable(s, steps, maxSessions)
    decreases |steps|
  {
    steps != [] ==>
      && !Ends(s, steps[0], id, maxSessions)
      && NeverEnds(Next(s, steps[0], maxSessions), steps[1..], id, maxSessions)
  }

  function Elapsed(steps: seq<Step>): nat {
    if steps == [] then 0 else (if steps[0].Tick? then steps[0].elapsed else 0) + Elapsed(steps[1..])
  }

  /** A token that is in the table and not revoked stays so, with its user, version and expiry, up to the step that
      ends it. */
  lemma StepKeepsToken(s: State, step: Step, id: TokenId, maxSessions: int)
    requires Enabled(s, step) && id in s.tokens && !s.tokens[id].revoked
    ensures var tokens' := Next(s, step, maxSessions).tokens;
            if Ends(s, step, id, maxSessions) then id !in tokens' || tokens'[id] == s.tokens[id].(revoked := true)
            else id in tokens' && tokens'[id] == s.tokens[id]
  {
  }

  ghost predicate IsGone(s: State, id: TokenId) {
    id !in s.tokens || s.tokens[id].revoked
  }

  lemma {:induction false} GoneStaysGone(s: State, steps: seq<Step>, id: TokenId, maxSessions: int)
    requires Executable(s, steps, maxSessions) && IsGone(s, id)
    requires forall step :: step in steps && step.Insert? ==> step.id != id
    ensures IsGone(After(s, steps, maxSessions), id)
    decreases |steps|
  {
    if steps != [] {
      assert steps[0] in steps;
      GoneStaysGone(Next(s, steps[0], maxSessions), steps[1..], id, maxSessions);
    }
  }

  lemma {:induction false} TokenStaysExactly(s: State, steps: seq<Step>, id: TokenId, maxSessions: int)
    requires Executable(s, steps, maxSessions) && id in s.tokens && !s.tokens[id].revoked
    requires forall step :: step in steps && step.Insert? ==> step.id != id
    ensures var s' := After(s, steps, maxSessions);
            && s'.now == s.now + Elapsed(steps)
            && (!IsGone(s', id) <==> NeverEnds(s, steps, id, maxSessions))
            && (!IsGone(s', id) ==> s'.tokens[id] == s.tokens[id])
    decreases |steps|
  {
    if steps != [] {
      assert steps[0] in steps;
      var s1 := Next(s, steps[0], maxSessions);
      StepKeepsToken(s, steps[0], id, maxSessions);
      if Ends(s, steps[0], id, maxSessions) {
        GoneStaysGone(s1, steps[1..], id, maxSessions);
        ClockAfter(s1, steps[1..], maxSessions);
      } else {
        TokenStaysExactly(s1, steps[1..], id, maxSessions);
      }
    }
  }

  lemma {:induction false} ClockAfter(s: State, steps: seq<Step>, maxSessions: int)
    requires Executable(s, steps, maxSessions)
    ensures After(s, steps, maxSessions).now == s.now + Elapsed(steps)
    decreases |steps|
  {
    if steps != [] {
      ClockAfter(Next(s, steps[0], maxSessions), steps[1..], maxSessions);
    }
  }

  /** After every run that follows its insertion, a token is live if and only if no step revoked it or deleted its
      user, and less time has passed than its lifetime, which is at least ten minutes; it then has the user and the
      version it was issued with. */
  lemma IssuedTokenLivesExactly(s: State, issued: Step, steps: seq<Step>, maxSessions: int)
    requires issued.Insert? && Enabled(s, issued)
    requires Executable(Next(s, issued, maxSessions), steps, maxSessions)
    requires forall step :: step in steps && step.Insert? ==> step.id != issued.id
    ensures var s' := After(Next(s, issued, maxSessions), steps, maxSessions);
            && (issued.id in Live(s'.tokens, issued.user, s'.now) <==>
                  && NeverEnds(Next(s, issued, maxSessions), steps, issued.id, maxSessions)
                  && (Elapsed(steps) < 600 || Elapsed(steps) < issued.ttl))
            && (issued.id in Live(s'.tokens, issued.user, s'.now) ==>
                  s'.tokens[issued.id].version == issued.version && s'.tokens[issued.id].createdAt == s.now)
  {
    TokenStaysExactly(Next(s, issued, maxSessions), steps, issued.id, maxSessions);
  }

  /** From the empty table, and whenever no issue is half done, the plain limit holds. */
  lemma QuietSessionsWithinLimit(start: int, steps: seq<Step>, user: UserId, maxSessions: int)
    requires Executable(State(map[], start, map[]), steps, maxSessions)
    ensures var s := After(State(map[], start, map[]), steps, maxSessions);
            Unenforced(s, user) == {} ==> |Live(s.tokens, user, s.now)| <= SessionLimit(maxSessions)
  {
    assert Live(map[], user, start) == {};
    SessionsStayWithinLimit(State(map[], start, map[]), steps, user, maxSessions);
  }
}
