/** Access and refresh tokens against the user's `token_version`. Login and rotation are several committed
    statements each, and the statements of different requests interleave with each other and with the
    administration of users. Access tokens expire as section 4.1.4 of RFC 7519 says: they must not be accepted on
    or after the expiration time. */
module TokenRevocation {
  import opened Text
  import opened IamStore

  type TokenId = nat
  type RequestId = nat

  /** A user's version as some statement read it; `readAt` is the number of that step, kept for the theorems only. */
  datatype Stamp = Stamp(user: UserId, version: int, readAt: nat)

  /** The claims of an access token that its acceptance depends on. */
  datatype Access = Access(stamp: Stamp, expiresAt: int)

  datatype Refresh = Refresh(stamp: Stamp, expiresAt: int, revoked: bool)

  /** How far a login (`presented` is `None`) or a rotation has got. */
  datatype Request =
    | Found(token: TokenId, row: Stamp)                                // the presented row was found live
    | Allowed(token: TokenId, row: Stamp)                              // its user was found active
    | Outrun(token: TokenId)                                           // the versions differed
    | Checked(presented: Option<TokenId>, stamp: Stamp)                // the password, or the versions, matched
    | Granted(presented: Option<TokenId>, user: UserId)                // the access token is issued
    | Ready(presented: Option<TokenId>, stamp: Stamp, expiresAt: int)  // the version was read once more
    | Inserted(presented: Option<TokenId>)                             // the new row is stored

  /** `access` holds every access token ever issued; `usedUsers`, `usedTokens` and `usedRequests` every id ever used. */
  datatype System = System(iam: Iam, now: int, clock: nat, access: set<Access>, refresh: map<TokenId, Refresh>,
                           requests: map<RequestId, Request>,
                           usedUsers: set<UserId>, usedTokens: set<TokenId>, usedRequests: set<RequestId>)

  predicate HasVersion(s: System, user: UserId, version: int) {
    user in s.iam.users && s.iam.users[user].tokenVersion == version
  }

  predicate IsActive(s: System, user: UserId) {
    user in s.iam.users && s.iam.users[user].active
  }

  /** `LocalJwtIssuer::validate` and `resolve_local_subject` */
  predicate AcceptsAccess(s: System, token: Access) {
    s.now < token.expiresAt && IsActive(s, token.stamp.user) && HasVersion(s, token.stamp.user, token.stamp.version)
  }

  predicate IsLive(s: System, id: TokenId) {
    id in s.refresh && !s.refresh[id].revoked && s.refresh[id].expiresAt > s.now
  }

  /** The checks of a rotation that runs by itself. */
  predicate AcceptsRefresh(s: System, id: TokenId) {
    && IsLive(s, id) && IsActive(s, s.refresh[id].stamp.user)
    && HasVersion(s, s.refresh[id].stamp.user, s.refresh[id].stamp.version)
  }

  datatype Step =
    | Admin(step: IamStore.Step)
    | Tick(elapsed: nat)
    | Revoke(ids: set<TokenId>)                              // logout, and enforcement of the session limit
    | LogIn(request: RequestId, user: UserId)                // the user row is read and the password matches
    | Present(request: RequestId, token: TokenId)            // a rotation reads the presented row
    | CheckStatus(request: RequestId)
    | CheckVersion(request: RequestId)
    | RevokeOutrun(request: RequestId)
    | IssueAccess(request: RequestId, ttl: int)
    | ReadVersion(request: RequestId, ttl: int)
    | InsertRow(request: RequestId, id: TokenId)
    | RevokePresented(request: RequestId)
    | Abort(request: RequestId)

  function Revoked(refresh: map<TokenId, Refresh>, ids: set<TokenId>): map<TokenId, Refresh> {
    map id | id in refresh :: if id in ids then refresh[id].(revoked := true) else refresh[id]
  }

  function Tokens(presented: Option<TokenId>): set<TokenId> {
    if presented.Some? then {presented.value} else {}
  }

  function Stamped(s: System, user: UserId): Stamp
    requires user in s.iam.users
  {
    Stamp(user, s.iam.users[user].tokenVersion, s.clock)
  }

  function With(s: System, request: RequestId, state: Request): System {
    s.(requests := s.requests[request := state], usedRequests := s.usedRequests + {request})
  }

  function Ended(s: System, request: RequestId): System {
    s.(requests := s.requests - {request})
  }

  /** One statement of a request; a statement whose turn it is not changes nothing. */
  function RequestStep(s: System, step: Step): System
    requires !step.Admin? && !step.Tick? && !step.Revoke?
  {
    match step
    case LogIn(r, user) =>
      if r !in s.usedRequests && IsActive(s, user) then With(s, r, Checked(None, Stamped(s, user))) else s
    case Present(r, token) =>
      if r !in s.usedRequests && IsLive(s, token) then With(s, r, Found(token, s.refresh[token].stamp)) else s
    case CheckStatus(r) =>
      if r !in s.requests || !s.requests[r].Found? then s
      else
        var Found(token, row) := s.requests[r];
        if IsActive(s, row.user) then With(s, r, Allowed(token, row)) else Ended(s, r)
    case CheckVersion(r) =>
      if r !in s.requests || !s.requests[r].Allowed? then s
      else
        var Allowed(token, row) := s.requests[r];
        if row.user !in s.iam.users then Ended(s, r)
        else if HasVersion(s, row.user, row.version) then With(s, r, Checked(Some(token), Stamped(s, row.user)))
        else With(s, r, Outrun(token))
    case RevokeOutrun(r) =>
      if r !in s.requests || !s.requests[r].Outrun? then s
      else Ended(s.(refresh := Revoked(s.refresh, {s.requests[r].token})), r)
    case IssueAccess(r, ttl) =>
      if r !in s.requests || !s.requests[r].Checked? then s
      else
        var Checked(presented, stamp) := s.requests[r];
        With(s.(access := s.access + {Access(stamp, s.now + if ttl < 300 then 300 else ttl)}), r,
             Granted(presented, stamp.user))
    case ReadVersion(r, ttl) =>
      if r !in s.requests || !s.requests[r].Granted? then s
      else
        var Granted(presented, user) := s.requests[r];
        if user !in s.iam.users then Ended(s, r)
        else With(s, r, Ready(presented, Stamped(s, user), s.now + if ttl < 600 then 600 else ttl))
    case InsertRow(r, id) =>
      if r !in s.requests || !s.requests[r].Ready? || id in s.usedTokens then s
      else
        var Ready(presented, stamp, expiresAt) := s.requests[r];
        if stamp.user !in s.iam.users then Ended(s, r)
        else With(s.(refresh := s.refresh[id := Refresh(stamp, expiresAt, false)], usedTokens := s.usedTokens + {id}),
                  r, Inserted(presented))
    case RevokePresented(r) =>
      if r !in s.requests || !s.requests[r].Inserted? then s
      else Ended(s.(refresh := Revoked(s.refresh, Tokens(s.requests[r].presented))), r)
    case Abort(r) => Ended(s, r)
  }

  /** A user id is never used twice; deleting a user deletes the user's refresh rows. */
  function AdminStep(s: System, step: IamStore.Step): System {
    if step.CreateUser? && step.id in s.usedUsers then s
    else
      var iam := Apply(s.iam, step).0;
      s.(iam := iam,
         refresh := (map id | id in s.refresh && s.refresh[id].stamp.user in iam.users :: s.refresh[id]),
         usedUsers := s.usedUsers + iam.users.Keys)
  }

  function Effect(s: System, step: Step): System {
    match step
    case Admin(step) => AdminStep(s, step)
    case Tick(elapsed) => s.(now := s.now + elapsed)
    case Revoke(ids) => s.(refresh := Revoked(s.refresh, ids))
    case _ => RequestStep(s, step)
  }

  function Next(s: System, step: Step): System {
    Effect(s, step).(clock := s.clock + 1)
  }

  function After(s: System, steps: seq<Step>): System {
    if steps == [] then s else Next(After(s, steps[..|steps| - 1]), steps[|steps| - 1])
  }

  lemma {:induction false} ClockCounts(s: System, steps: seq<Step>)
    ensures After(s, steps).clock == s.clock + |steps|
  {
    if steps != [] {
      ClockCounts(s, steps[..|steps| - 1]);
    }
  }

  // ---------- where stamps come from ----------

  function StampOf(request: Request): Option<Stamp> {
    match request
    case Found(_, row) => Some(row)
    case Allowed(_, row) => Some(row)
    case Checked(_, stamp) => Some(stamp)
    case Ready(_, stamp, _) => Some(stamp)
    case _ => None
  }

  predicate InAccess(s: System, stamp: Stamp) {
    exists token :: token in s.access && token.stamp == stamp
  }

  predicate InRefresh(s: System, stamp: Stamp) {
    exists id :: id in s.refresh && s.refresh[id].stamp == stamp
  }

  predicate InRequest(s: System, stamp: Stamp) {
    exists r :: r in s.requests && StampOf(s.requests[r]) == Some(stamp)
  }

  /** Some access token, refresh row or unfinished request carries the stamp. */
  predicate Carries(s: System, stamp: Stamp) {
    InAccess(s, stamp) || InRefresh(s, stamp) || InRequest(s, stamp)
  }

  predicate IsNewStamp(s: System, stamp: Stamp) {
    stamp.user in s.iam.users && stamp == Stamped(s, stamp.user)
  }

  lemma AccessComesFrom(s: System, step: Step, stamp: Stamp)
    requires InAccess(Next(s, step), stamp)
    ensures Carries(s, stamp)
  {
    var token :| token in Next(s, step).access && token.stamp == stamp;
    if token !in s.access {
      assert step.IssueAccess? && StampOf(s.requests[step.request]) == Some(stamp);
    }
  }

  lemma RefreshComesFrom(s: System, step: Step, stamp: Stamp)
    requires InRefresh(Next(s, step), stamp)
    ensures Carries(s, stamp)
  {
    var id :| id in Next(s, step).refresh && Next(s, step).refresh[id].stamp == stamp;
    if id in s.refresh && s.refresh[id].stamp == stamp {
      assert InRefresh(s, stamp);
    } else {
      assert step.InsertRow? && StampOf(s.requests[step.request]) == Some(stamp);
    }
  }

  lemma RequestComesFrom(s: System, step: Step, stamp: Stamp)
    requires InRequest(Next(s, step), stamp)
    ensures Carries(s, stamp) || IsNewStamp(s, stamp)
  {
    var r :| r in Next(s, step).requests && StampOf(Next(s, step).requests[r]) == Some(stamp);
    if r in s.requests && StampOf(s.requests[r]) == Some(stamp) {
      assert InRequest(s, stamp);
    } else if step.Present? {
      assert s.refresh[step.token].stamp == stamp;
    }
  }

  /** Every stamp is an older one handed on, or the user's version read by this very step. */
  lemma StampsComeFrom(s: System, step: Step, stamp: Stamp)
    requires Carries(Next(s, step), stamp)
    ensures Carries(s, stamp) || IsNewStamp(s, stamp)
  {
    if InAccess(Next(s, step), stamp) {
      AccessComesFrom(s, step, stamp);
    } else if InRefresh(Next(s, step), stamp) {
      RefreshComesFrom(s, step, stamp);
    } else {
      RequestComesFrom(s, step, stamp);
    }
  }

  // ---------- versions only grow ----------

  /** Versions already read never exceed the current one, and no user id in use is forgotten. */
  ghost predicate Consistent(s: System) {
    && s.iam.users.Keys <= s.usedUsers
    && s.refresh.Keys <= s.usedTokens
    && (forall stamp :: Carries(s, stamp) ==> StampFits(s, stamp))
  }

  predicate StampFits(s: System, stamp: Stamp) {
    && stamp.readAt < s.clock && stamp.user in s.usedUsers
    && (stamp.user in s.iam.users ==> stamp.version <= s.iam.users[stamp.user].tokenVersion)
  }

  /** A known user either exists with at least the version it had, or is gone for good. */
  lemma VersionsGrow(s: System, step: Step, user: UserId)
    requires s.iam.users.Keys <= s.usedUsers && user in s.usedUsers
    ensures var s' := Next(s, step);
            && user in s'.usedUsers
            && (user in s'.iam.users ==>
                  user in s.iam.users && s.iam.users[user].tokenVersion <= s'.iam.users[user].tokenVersion)
  {
  }

  lemma KeysStayUsed(s: System, step: Step)
    requires s.iam.users.Keys <= s.usedUsers && s.refresh.Keys <= s.usedTokens
    ensures Next(s, step).iam.users.Keys <= Next(s, step).usedUsers
    ensures Next(s, step).refresh.Keys <= Next(s, step).usedTokens
  {
  }

  lemma StepKeepsConsistent(s: System, step: Step)
    requires Consistent(s)
    ensures Consistent(Next(s, step))
  {
    KeysStayUsed(s, step);
    forall stamp | Carries(Next(s, step), stamp) ensures StampFits(Next(s, step), stamp) {
      StampsComeFrom(s, step, stamp);
      VersionsGrow(s, step, stamp.user);
    }
  }

  lemma {:induction false} RunKeepsConsistent(s: System, steps: seq<Step>)
    requires Consistent(s)
    ensures Consistent(After(s, steps))
  {
    if steps != [] {
      RunKeepsConsistent(s, steps[..|steps| - 1]);
      StepKeepsConsistent(After(s, steps[..|steps| - 1]), steps[|steps| - 1]);
    }
  }

  // ---------- a raised version revokes for good ----------

  /** The step leaves the user with a higher version. */
  predicate Raises(s: System, step: Step, user: UserId) {
    user in s.iam.users && user in Next(s, step).iam.users
    && s.iam.users[user].tokenVersion < Next(s, step).iam.users[user].tokenVersion
  }

  /** Exactly these steps raise a version: a password set, a disable that the guard allows, and an update
      that disables an active user. */
  lemma RaisesExactly(s: System, step: Step, user: UserId)
    requires user in s.iam.users
    ensures Raises(s, step, user) <==>
            || step == Admin(SetPassword(user))
            || (step == Admin(DisableUser(user)) && Guard(s.iam, user).None?)
            || (step.Admin? && step.step.UpdateUser? && step.step.id == user && step.step.status == Some("disabled")
                && s.iam.users[user].active && Guard(s.iam, user).None?
                    && !(step.step.renames && s.iam.users[user].isProtected))
  {
    if step.Admin? && step.step.UpdateUser? {
      DisabledStatus(step.step.status);
    }
  }

  /** A version of this user, read at step `limit` or earlier. */
  predicate ReadBy(stamp: Stamp, user: UserId, limit: nat) {
    stamp.user == user && stamp.readAt <= limit
  }

  /** Stamps of the user read up to step `limit` are at most `version`, and the user is past that version. */
  ghost predicate Outdated(s: System, user: UserId, version: int, limit: nat) {
    && user in s.usedUsers && limit < s.clock
    && (user in s.iam.users ==> version < s.iam.users[user].tokenVersion)
    && (forall stamp :: Carries(s, stamp) && ReadBy(stamp, user, limit) ==> stamp.version <= version)
  }

  lemma RaiseOutdates(s: System, step: Step, user: UserId)
    requires Consistent(s) && Raises(s, step, user)
    ensures Outdated(Next(s, step), user, s.iam.users[user].tokenVersion, s.clock)
  {
    forall stamp | Carries(Next(s, step), stamp) && stamp.user == user
      ensures stamp.version <= s.iam.users[user].tokenVersion {
      StampsComeFrom(s, step, stamp);
      assert Carries(s, stamp) ==> StampFits(s, stamp);
    }
    VersionsGrow(s, step, user);
  }

  lemma OutdatedStays(s: System, step: Step, user: UserId, version: int, limit: nat)
    requires Consistent(s) && Outdated(s, user, version, limit)
    ensures Outdated(Next(s, step), user, version, limit)
  {
    forall stamp | Carries(Next(s, step), stamp) && ReadBy(stamp, user, limit) ensures stamp.version <= version {
      StampsComeFrom(s, step, stamp);
    }
    VersionsGrow(s, step, user);
  }

  lemma {:induction false} OutdatedForGood(s: System, steps: seq<Step>, r: nat, user: UserId)
    requires Consistent(s) && r < |steps| && Raises(After(s, steps[..r]), steps[r], user)
    ensures Outdated(After(s, steps), user, After(s, steps[..r]).iam.users[user].tokenVersion, s.clock + r)
    decreases |steps|
  {
    var before, last := steps[..|steps| - 1], steps[|steps| - 1];
    RunKeepsConsistent(s, before);
    if r == |steps| - 1 {
      ClockCounts(s, before);
      RaiseOutdates(After(s, before), last, user);
    } else {
      assert before[..r] == steps[..r] && before[r] == steps[r];
      OutdatedForGood(s, before, r, user);
      OutdatedStays(After(s, before), last, user, After(s, steps[..r]).iam.users[user].tokenVersion, s.clock + r);
    }
  }

  /** Step `r` of a run raises the user's version. Then at every later point, in every interleaving and also after
      the user is enabled again: no version read up to then matches the current one. So no access token that
      carries such a version is accepted, even one issued later; no refresh row that does is accepted, even one
      inserted later; and no rotation that presented such a row passes its version check. */
  lemma RaisedVersionRevokes(s: System, steps: seq<Step>, r: nat, user: UserId)
    requires Consistent(s) && r < |steps| && Raises(After(s, steps[..r]), steps[r], user)
    ensures forall stamp :: Carries(After(s, steps), stamp) && ReadBy(stamp, user, s.clock + r) ==>
              !HasVersion(After(s, steps), user, stamp.version)
    ensures forall token :: token in After(s, steps).access && ReadBy(token.stamp, user, s.clock + r) ==>
              !AcceptsAccess(After(s, steps), token)
    ensures var end := After(s, steps);
            forall id :: id in end.refresh && ReadBy(end.refresh[id].stamp, user, s.clock + r) ==>
              !AcceptsRefresh(end, id)
  {
    OutdatedForGood(s, steps, r, user);
    var end := After(s, steps);
    forall token | token in end.access && ReadBy(token.stamp, user, s.clock + r)
      ensures !AcceptsAccess(end, token)
    {
      assert Carries(end, token.stamp);
    }
    forall id | id in end.refresh && ReadBy(end.refresh[id].stamp, user, s.clock + r)
      ensures !AcceptsRefresh(end, id)
    {
      assert Carries(end, end.refresh[id].stamp);
    }
  }

  /** In particular everything that existed before the raise is revoked by it. */
  lemma RaiseRevokesWhatExists(s: System, steps: seq<Step>, r: nat, user: UserId)
    requires Consistent(s) && r < |steps| && Raises(After(s, steps[..r]), steps[r], user)
    ensures forall token :: token in After(s, steps[..r]).access && token.stamp.user == user ==>
            !AcceptsAccess(After(s, steps), token)
    ensures forall id :: id in After(s, steps[..r]).refresh && After(s, steps[..r]).refresh[id].stamp.user == user ==>
              !AcceptsRefresh(After(s, steps), id)
  {
    var at, end := After(s, steps[..r]), After(s, steps);
    RunKeepsConsistent(s, steps[..r]);
    ClockCounts(s, steps[..r]);
    OutdatedForGood(s, steps, r, user);
    RaisedVersionRevokes(s, steps, r, user);
    forall token | token in at.access && token.stamp.user == user ensures !AcceptsAccess(end, token) {
      assert Carries(at, token.stamp);
    }
    forall id | id in at.refresh && at.refresh[id].stamp.user == user ensures !AcceptsRefresh(end, id) {
      assert Carries(at, at.refresh[id].stamp);
      RefreshRowsAreStable(s, steps, r, id);
    }
  }

  lemma RefreshRowStep(s: System, step: Step, id: TokenId)
    requires id in s.usedTokens
    ensures var s' := Next(s, step);
            id in s'.usedTokens && (id in s'.refresh ==> id in s.refresh && s'.refresh[id].stamp == s.refresh[id].stamp)
  {
  }

  /** A refresh row keeps its user and version as long as it exists, and its id is never reused. */
  lemma {:induction false} RefreshRowsAreStable(s: System, steps: seq<Step>, n: nat, id: TokenId)
    requires Consistent(s) && n <= |steps| && id in After(s, steps[..n]).refresh
    ensures var row, end := After(s, steps[..n]).refresh[id], After(s, steps);
            id in end.usedTokens && (id in end.refresh ==> end.refresh[id].stamp == row.stamp)
    decreases |steps|
  {
    if n == |steps| {
      assert steps[..n] == steps;
      RunKeepsConsistent(s, steps);
    } else {
      var before := steps[..|steps| - 1];
      assert before[..n] == steps[..n];
      RefreshRowsAreStable(s, before, n, id);
      RefreshRowStep(After(s, before), steps[|steps| - 1], id);
    }
  }

  // ---------- and nothing else revokes ----------

  /** No step of the run from step `n` on raises the user's version. */
  predicate NeverRaised(s: System, steps: seq<Step>, n: nat, user: UserId)
    decreases |steps|
  {
    n < |steps| ==>
      && NeverRaised(s, steps[..|steps| - 1], n, user)
      && !Raises(After(s, steps[..|steps| - 1]), steps[|steps| - 1], user)
  }

  lemma {:induction false} VersionUnchangedExactly(s: System, steps: seq<Step>, n: nat, user: UserId)
    requires Consistent(s) && n <= |steps| && user in After(s, steps[..n]).iam.users
    ensures user in After(s, steps).usedUsers
    ensures user in After(s, steps).iam.users ==>
              var v, v' := After(s, steps[..n]).iam.users[user].tokenVersion,
                  After(s, steps).iam.users[user].tokenVersion;
              v <= v' && (v == v' <==> NeverRaised(s, steps, n, user))
    decreases |steps|
  {
    if n == |steps| {
      assert steps[..n] == steps;
      RunKeepsConsistent(s, steps);
    } else {
      var before := steps[..|steps| - 1];
      assert before[..n] == steps[..n];
      VersionUnchangedExactly(s, before, n, user);
      RunKeepsConsistent(s, before);
      VersionsGrow(After(s, before), steps[|steps| - 1], user);
    }
  }

  /** A stamp read during the run is the user's version at the step that read it. */
  lemma {:induction false} StampWasRead(s: System, steps: seq<Step>, stamp: Stamp)
    requires Consistent(s) && Carries(After(s, steps), stamp) && stamp.readAt >= s.clock
    ensures stamp.readAt < s.clock + |steps| && IsNewStamp(After(s, steps[..stamp.readAt - s.clock]), stamp)
    decreases |steps|
  {
    assert Carries(s, stamp) ==> StampFits(s, stamp);
    if steps != [] {
      var before := steps[..|steps| - 1];
      StampsComeFrom(After(s, before), steps[|steps| - 1], stamp);
      ClockCounts(s, before);
      if Carries(After(s, before), stamp) {
        StampWasRead(s, before, stamp);
        assert before[..stamp.readAt - s.clock] == steps[..stamp.readAt - s.clock];
      } else {
        assert steps[..stamp.readAt - s.clock] == before;
      }
    }
  }

  /** A version read during the run is still the user's if and only if the user exists and no step since then
      raised it. */
  lemma StampCurrentExactly(s: System, steps: seq<Step>, stamp: Stamp)
    requires Consistent(s) && Carries(After(s, steps), stamp) && stamp.readAt >= s.clock
    ensures HasVersion(After(s, steps), stamp.user, stamp.version) <==>
            stamp.user in After(s, steps).iam.users && NeverRaised(s, steps, stamp.readAt - s.clock, stamp.user)
  {
    StampWasRead(s, steps, stamp);
    VersionUnchangedExactly(s, steps, stamp.readAt - s.clock, stamp.user);
  }

  /** An access token issued during the run is accepted if and only if it has not expired, its user exists and is
      active, and no step since its version was read raised the version. */
  lemma AccessAcceptedExactly(s: System, steps: seq<Step>, token: Access)
    requires Consistent(s) && token in After(s, steps).access && token.stamp.readAt >= s.clock
    ensures var end, user := After(s, steps), token.stamp.user;
            AcceptsAccess(end, token) <==>
            end.now < token.expiresAt && IsActive(end, user)
                && NeverRaised(s, steps, token.stamp.readAt - s.clock, user)
  {
    assert Carries(After(s, steps), token.stamp);
    StampCurrentExactly(s, steps, token.stamp);
  }

  /** A refresh row inserted during the run is accepted if and only if it is live, its user is active, and no step
      since its version was read raised the version. So a row accepted after a raise was inserted by a request
      whose version read came after the raise, whenever that request made its checks. */
  lemma RefreshAcceptedExactly(s: System, steps: seq<Step>, id: TokenId)
    requires Consistent(s) && id in After(s, steps).refresh && After(s, steps).refresh[id].stamp.readAt >= s.clock
    ensures var end, stamp := After(s, steps), After(s, steps).refresh[id].stamp;
            AcceptsRefresh(end, id) <==>
            IsLive(end, id) && IsActive(end, stamp.user) && NeverRaised(s, steps, stamp.readAt - s.clock, stamp.user)
  {
    assert Carries(After(s, steps), After(s, steps).refresh[id].stamp);
    StampCurrentExactly(s, steps, After(s, steps).refresh[id].stamp);
  }

  /** What a request is granted: an access token comes from a checked request, with the version that check read, and
      expires after at least five minutes; a refresh row comes from a request that has read the version again, and is
      live under that version. */
  lemma GrantsExactly(s: System, step: Step, access: Access, id: TokenId)
    ensures access in Next(s, step).access && access !in s.access ==>
              && step.IssueAccess? && step.request in s.requests && s.requests[step.request].Checked?
              && access.stamp == s.requests[step.request].stamp
              && access.expiresAt - s.now == if step.ttl < 300 then 300 else step.ttl
    ensures id in Next(s, step).refresh && id !in s.refresh ==>
              && step.InsertRow? && step.id == id && step.request in s.requests && s.requests[step.request].Ready?
              && var Ready(_, stamp, expiresAt) := s.requests[step.request];
              Next(s, step).refresh[id] == Refresh(stamp, expiresAt, false)
    ensures step.ReadVersion? && step.request in s.requests && s.requests[step.request].Granted?
            && s.requests[step.request].user in s.iam.users ==>
              && step.request in Next(s, step).requests && Next(s, step).requests[step.request].Ready?
              && Next(s, step).requests[step.request].expiresAt - s.now == if step.ttl < 600 then 600 else step.ttl
  {
  }

  /** A step revokes the row it names and no other: the named ones of a logout or an enforcement, a presented row whose
      version was outrun, and the presented row of a finished rotation. */
  lemma RevokesExactly(s: System, step: Step, id: TokenId)
    requires s.refresh.Keys <= s.usedTokens && id in s.refresh && id in Next(s, step).refresh
    ensures Next(s, step).refresh[id].revoked <==>
            || s.refresh[id].revoked
            || (step.Revoke? && id in step.ids)
            || (step.RevokeOutrun? && step.request in s.requests && s.requests[step.request] == Outrun(id))
            || (step.RevokePresented? && step.request in s.requests
                && s.requests[step.request] == Inserted(Some(id)))
  {
  }

  // ---------- a disabled user is admitted nowhere until enabled ----------

  /** The step ends the user's activity: a disable, an update to `disabled` or a delete, if it is accepted. */
  predicate Deactivates(s: System, step: Step, user: UserId) {
    && step.Admin? && Apply(s.iam, step.step).1.None?
    && (Disables(step.step, user) || step.step == HardDeleteUser(user))
  }

  /** An enable or an update to `active`, if it is accepted. */
  predicate Activates(s: System, step: Step, user: UserId) {
    step.Admin? && Apply(s.iam, step.step).1.None? && Enables(step.step, user)
  }

  /** These steps and no others change whether a known user is active. */
  lemma ActiveExactly(s: System, step: Step, user: UserId)
    requires s.iam.users.Keys <= s.usedUsers && user in s.usedUsers
    ensures IsActive(Next(s, step), user) <==>
            Activates(s, step, user) || (IsActive(s, user) && !Deactivates(s, step, user))
  {
    if step.Admin? {
      IamStore.AppliedExactly(s.iam, step.step);
      if Apply(s.iam, step.step).1.None? {
        UsersAfter(s.iam, step.step, user);
        assert "active"[0] != "disabled"[0];
      }
    }
  }

  /** No step of the run from step `n` on activates the user. */
  predicate NeverActivated(s: System, steps: seq<Step>, n: nat, user: UserId)
    decreases |steps|
  {
    n < |steps| ==>
      && NeverActivated(s, steps[..|steps| - 1], n, user)
      && !Activates(After(s, steps[..|steps| - 1]), steps[|steps| - 1], user)
  }

  /** At every point of the run from step `n` on the user is inactive or gone. */
  ghost predicate StaysInactive(s: System, steps: seq<Step>, n: nat, user: UserId) {
    forall m :: n <= m <= |steps| ==> !IsActive(After(s, steps[..m]), user)
  }

  lemma {:induction false} StaysUsed(s: System, steps: seq<Step>, user: UserId)
    requires Consistent(s) && user in s.usedUsers
    ensures user in After(s, steps).usedUsers
  {
    if steps != [] {
      StaysUsed(s, steps[..|steps| - 1], user);
    }
  }

  lemma StaysInactiveStep(s: System, steps: seq<Step>, n: nat, user: UserId)
    requires n < |steps|
    ensures StaysInactive(s, steps, n, user) <==>
            StaysInactive(s, steps[..|steps| - 1], n, user) && !IsActive(After(s, steps), user)
  {
    var before := steps[..|steps| - 1];
    forall m | n <= m <= |before| ensures before[..m] == steps[..m] {
    }
    assert steps[..|steps|] == steps;
  }

  /** A user that is inactive at some point of a run stays so if and only if no later step activates it. */
  lemma {:induction false} InactiveExactly(s: System, steps: seq<Step>, n: nat, user: UserId)
    requires Consistent(s) && user in s.usedUsers && n <= |steps| && !IsActive(After(s, steps[..n]), user)
    ensures StaysInactive(s, steps, n, user) <==> NeverActivated(s, steps, n, user)
    decreases |steps|
  {
    if n < |steps| {
      var before := steps[..|steps| - 1];
      assert before[..n] == steps[..n];
      InactiveExactly(s, before, n, user);
      StaysInactiveStep(s, steps, n, user);
      StaysUsed(s, before, user);
      RunKeepsConsistent(s, before);
      ActiveExactly(After(s, before), steps[|steps| - 1], user);
      if StaysInactive(s, before, n, user) {
        assert before[..|before|] == before;
      }
    }
  }

  /** What an inactive user can do: no access token and no refresh row of the user is accepted, no login is, and a
      rotation that presented such a row ends at its status check. */
  lemma InactiveIsRefused(s: System, user: UserId)
    requires !IsActive(s, user)
    ensures forall token :: token in s.access && token.stamp.user == user ==> !AcceptsAccess(s, token)
    ensures forall id :: id in s.refresh && s.refresh[id].stamp.user == user ==> !AcceptsRefresh(s, id)
    ensures forall r :: Next(s, LogIn(r, user)) == s.(clock := s.clock + 1)
    ensures forall r :: r in s.requests && s.requests[r].Found? && s.requests[r].row.user == user ==>
            r !in Next(s, CheckStatus(r)).requests
  {
  }

  /** In every interleaving: from a step that disables the user to the next one that enables it, no access token, no
      refresh row, no login and no rotation of the user is accepted, whenever it began. */
  lemma DisabledUntilEnabled(s: System, steps: seq<Step>, k: nat, user: UserId)
    requires Consistent(s) && user in s.usedUsers
    requires k < |steps| && Deactivates(After(s, steps[..k]), steps[k], user) && NeverActivated(s, steps, k + 1, user)
    ensures var end := After(s, steps);
            && !IsActive(end, user)
            && (forall token :: token in end.access && token.stamp.user == user ==> !AcceptsAccess(end, token))
            && (forall id :: id in end.refresh && end.refresh[id].stamp.user == user ==> !AcceptsRefresh(end, id))
            && (forall r :: Next(end, LogIn(r, user)) == end.(clock := end.clock + 1))
            && (forall r :: r in end.requests && end.requests[r].Found? && end.requests[r].row.user == user ==>
                  r !in Next(end, CheckStatus(r)).requests)
  {
    var at := steps[..k];
    assert steps[..k + 1][..k] == at;
    StaysUsed(s, at, user);
    RunKeepsConsistent(s, at);
    ActiveExactly(After(s, at), steps[k], user);
    DeactivatesOnly(After(s, at), steps[k], user);
    InactiveExactly(s, steps, k + 1, user);
    assert steps[..|steps|] == steps;
    InactiveIsRefused(After(s, steps), user);
  }

  lemma DeactivatesOnly(s: System, step: Step, user: UserId)
    requires Deactivates(s, step, user)
    ensures !Activates(s, step, user)
  {
    assert "active"[0] != "disabled"[0];
  }

  // ---------- a rotation or a login that spans a raise ----------

  /** All the statements of one rotation, with a password set between its checks and its second version read. */
  function SpanningRotation(user: UserId, request: RequestId, token: TokenId, id: TokenId, ttl: int): seq<Step> {
    [Present(request, token), CheckStatus(request), CheckVersion(request), Admin(SetPassword(user)),
     IssueAccess(request, ttl), ReadVersion(request, ttl), InsertRow(request, id), RevokePresented(request)]
  }

  predicate FollowsAt(at: nat -> System, steps: seq<Step>, k: nat)
    requires k < |steps|
  {
    at(k + 1) == Next(at(k), steps[k])
  }

  /** The states of a run, one after each step. */
  ghost predicate Follows(at: nat -> System, steps: seq<Step>) {
    forall k: nat :: k < |steps| ==> FollowsAt(at, steps, k)
  }

  function Trace(s: System, steps: seq<Step>): nat -> System {
    (k: nat) => After(s, if k <= |steps| then steps[..k] else steps)
  }

  lemma TraceFollows(s: System, steps: seq<Step>)
    ensures Follows(Trace(s, steps), steps)
  {
    forall k: nat | k < |steps| ensures FollowsAt(Trace(s, steps), steps, k) {
      assert steps[..k + 1][..k] == steps[..k];
    }
  }

  /** The request is in this state, and no token id has been used up since the start. */
  predicate Stands(at: System, start: System, r: RequestId, state: Request) {
    at.now == start.now && at.usedTokens == start.usedTokens && r in at.requests && at.requests[r] == state
  }

  lemma SpanPresent(at: nat -> System, steps: seq<Step>, r: RequestId, token: TokenId)
    requires Follows(at, steps) && |steps| >= 1 && steps[0] == Present(r, token)
    requires IsLive(at(0), token) && r !in at(0).usedRequests
    ensures Stands(at(1), at(0), r, Found(token, at(0).refresh[token].stamp)) && at(1).iam == at(0).iam
  {
    assert FollowsAt(at, steps, 0);
  }

  lemma SpanStatus(at: nat -> System, steps: seq<Step>, k: nat, r: RequestId, token: TokenId, row: Stamp)
    requires Follows(at, steps) && k < |steps| && steps[k] == CheckStatus(r)
    requires Stands(at(k), at(0), r, Found(token, row)) && IsActive(at(k), row.user)
    ensures Stands(at(k + 1), at(0), r, Allowed(token, row)) && at(k + 1).iam == at(k).iam
  {
    assert FollowsAt(at, steps, k);
  }

  lemma SpanVersion(at: nat -> System, steps: seq<Step>, k: nat, r: RequestId, token: TokenId, row: Stamp)
    returns (stamp: Stamp)
    requires Follows(at, steps) && k < |steps| && steps[k] == CheckVersion(r)
    requires Stands(at(k), at(0), r, Allowed(token, row)) && HasVersion(at(k), row.user, row.version)
    ensures Stands(at(k + 1), at(0), r, Checked(Some(token), stamp)) && at(k + 1).iam == at(k).iam
    ensures stamp.user == row.user && stamp.version == row.version
  {
    assert FollowsAt(at, steps, k);
    stamp := Stamp(row.user, row.version, at(k).clock);
  }

  lemma SpanRaise(at: nat -> System, steps: seq<Step>, k: nat, r: RequestId, state: Request, user: UserId)
    requires Follows(at, steps) && k < |steps| && steps[k] == Admin(SetPassword(user))
    requires Stands(at(k), at(0), r, state) && IsActive(at(k), user)
    ensures Raises(at(k), steps[k], user) && Stands(at(k + 1), at(0), r, state) && IsActive(at(k + 1), user)
    ensures HasVersion(at(k + 1), user, at(k).iam.users[user].tokenVersion + 1)
  {
    assert FollowsAt(at, steps, k);
  }

  lemma SpanLogIn(at: nat -> System, steps: seq<Step>, r: RequestId, user: UserId) returns (stamp: Stamp)
    requires Follows(at, steps) && |steps| >= 1 && steps[0] == LogIn(r, user)
    requires IsActive(at(0), user) && r !in at(0).usedRequests
    ensures Stands(at(1), at(0), r, Checked(None, stamp)) && at(1).iam == at(0).iam
    ensures stamp.user == user && HasVersion(at(0), user, stamp.version)
  {
    assert FollowsAt(at, steps, 0);
    stamp := Stamped(at(0), user);
  }

  lemma SpanAccess(at: nat -> System, steps: seq<Step>, k: nat, r: RequestId, presented: Option<TokenId>, stamp: Stamp)
    returns (access: Access)
    requires Follows(at, steps) && k < |steps| && steps[k].IssueAccess? && steps[k].request == r
    requires Stands(at(k), at(0), r, Checked(presented, stamp))
    ensures Stands(at(k + 1), at(0), r, Granted(presented, stamp.user)) && at(k + 1).iam == at(k).iam
    ensures access.stamp == stamp && access in at(k + 1).access
  {
    assert FollowsAt(at, steps, k);
    access := Access(stamp, at(k).now + if steps[k].ttl < 300 then 300 else steps[k].ttl);
  }

  lemma SpanRead(at: nat -> System, steps: seq<Step>, k: nat, r: RequestId, presented: Option<TokenId>, user: UserId)
    returns (stamp: Stamp, expiresAt: int)
    requires Follows(at, steps) && k < |steps| && steps[k].ReadVersion? && steps[k].request == r
    requires Stands(at(k), at(0), r, Granted(presented, user)) && user in at(k).iam.users
    ensures Stands(at(k + 1), at(0), r, Ready(presented, stamp, expiresAt)) && expiresAt > at(0).now
    ensures stamp.user == user && HasVersion(at(k), user, stamp.version)
    ensures at(k + 1).iam == at(k).iam && at(k + 1).access == at(k).access
  {
    assert FollowsAt(at, steps, k);
    stamp := Stamped(at(k), user);
    expiresAt := at(k).now + if steps[k].ttl < 600 then 600 else steps[k].ttl;
  }

  predicate HoldsRow(at: System, id: TokenId, stamp: Stamp, expiresAt: int) {
    id in at.refresh && at.refresh[id] == Refresh(stamp, expiresAt, false)
  }

  lemma SpanInsert(at: nat -> System, steps: seq<Step>, k: nat, r: RequestId, presented: Option<TokenId>, stamp: Stamp,
                   expiresAt: int, id: TokenId)
    requires Follows(at, steps) && k < |steps| && steps[k] == InsertRow(r, id) && id !in at(0).usedTokens
    requires Stands(at(k), at(0), r, Ready(presented, stamp, expiresAt)) && stamp.user in at(k).iam.users
    ensures HoldsRow(at(k + 1), id, stamp, expiresAt)
    ensures r in at(k + 1).requests && at(k + 1).requests[r] == Inserted(presented)
    ensures at(k + 1).iam == at(k).iam && at(k + 1).now == at(k).now && at(k + 1).access == at(k).access
  {
    assert FollowsAt(at, steps, k);
  }

  lemma SpanRevoke(at: nat -> System, steps: seq<Step>, k: nat, r: RequestId, presented: Option<TokenId>, stamp: Stamp,
                   expiresAt: int, id: TokenId)
    requires Follows(at, steps) && k < |steps| && steps[k] == RevokePresented(r) && id !in Tokens(presented)
    requires HoldsRow(at(k), id, stamp, expiresAt) && r in at(k).requests && at(k).requests[r] == Inserted(presented)
    ensures HoldsRow(at(k + 1), id, stamp, expiresAt)
    ensures at(k + 1).iam == at(k).iam && at(k + 1).now == at(k).now && at(k + 1).access == at(k).access
  {
    assert FollowsAt(at, steps, k);
  }

  /** A rotation's checks, the raise and the access token. */
  lemma SpanFirstHalf(at: nat -> System, steps: seq<Step>, user: UserId, r: RequestId, token: TokenId)
    returns (access: Access)
    requires Follows(at, steps) && |steps| >= 5 && steps[0] == Present(r, token) && steps[1] == CheckStatus(r)
    requires steps[2] == CheckVersion(r) && steps[3] == Admin(SetPassword(user))
    requires steps[4].IssueAccess? && steps[4].request == r
    requires AcceptsRefresh(at(0), token) && at(0).refresh[token].stamp.user == user && r !in at(0).usedRequests
    ensures Raises(at(3), steps[3], user)
    ensures Stands(at(5), at(0), r, Granted(Some(token), user)) && access in at(5).access && access.stamp.user == user
    ensures IsActive(at(5), user) && HasVersion(at(5), user, access.stamp.version + 1)
  {
    var row := at(0).refresh[token].stamp;
    SpanPresent(at, steps, r, token);
    SpanStatus(at, steps, 1, r, token, row);
    var stamp := SpanVersion(at, steps, 2, r, token, row);
    SpanRaise(at, steps, 3, r, Checked(Some(token), stamp), user);
    access := SpanAccess(at, steps, 4, r, Some(token), stamp);
  }

  /** The password check of a login, the raise and the access token. */
  lemma SpanLoginHalf(at: nat -> System, steps: seq<Step>, user: UserId, r: RequestId) returns (access: Access)
    requires Follows(at, steps) && |steps| >= 3 && steps[0] == LogIn(r, user) && steps[1] == Admin(SetPassword(user))
    requires steps[2].IssueAccess? && steps[2].request == r && IsActive(at(0), user) && r !in at(0).usedRequests
    ensures Raises(at(1), steps[1], user)
    ensures Stands(at(3), at(0), r, Granted(None, user)) && access in at(3).access && access.stamp.user == user
    ensures IsActive(at(3), user) && HasVersion(at(3), user, access.stamp.version + 1)
  {
    var stamp := SpanLogIn(at, steps, r, user);
    SpanRaise(at, steps, 1, r, Checked(None, stamp), user);
    access := SpanAccess(at, steps, 2, r, None, stamp);
  }

  /** The second version read and the new row. */
  lemma SpanSecondHalf(at: nat -> System, steps: seq<Step>, k: nat, user: UserId, r: RequestId,
                       presented: Option<TokenId>, id: TokenId)
    requires Follows(at, steps) && |steps| == k + 3 && steps[k].ReadVersion? && steps[k].request == r
    requires steps[k + 1] == InsertRow(r, id) && steps[k + 2] == RevokePresented(r)
    requires id !in at(0).usedTokens && id !in Tokens(presented)
    requires Stands(at(k), at(0), r, Granted(presented, user)) && IsActive(at(k), user)
    ensures AcceptsRefresh(at(k + 3), id) && at(k + 3).iam == at(k).iam && at(k + 3).access == at(k).access
  {
    var stamp, expiresAt := SpanRead(at, steps, k, r, presented, user);
    SpanInsert(at, steps, k + 1, r, presented, stamp, expiresAt, id);
    SpanRevoke(at, steps, k + 2, r, presented, stamp, expiresAt, id);
  }

  lemma TraceEnds(s: System, steps: seq<Step>, k: nat)
    requires k <= |steps|
    ensures var at := Trace(s, steps); at(0) == s && at(k) == After(s, steps[..k]) && at(|steps|) == After(s, steps)
  {
    assert steps[..0] == [] && steps[..|steps|] == steps;
  }

  lemma SpanWhole(at: nat -> System, steps: seq<Step>, user: UserId, r: RequestId, token: TokenId, id: TokenId,
                  ttl: int)
    returns (access: Access)
    requires Follows(at, steps) && steps == SpanningRotation(user, r, token, id, ttl)
    requires AcceptsRefresh(at(0), token) && at(0).refresh[token].stamp.user == user
    requires r !in at(0).usedRequests && id !in at(0).usedTokens && id != token
    ensures Raises(at(3), steps[3], user) && AcceptsRefresh(at(8), id)
    ensures access in at(8).access && access.stamp.user == user && !AcceptsAccess(at(8), access)
  {
    access := SpanFirstHalf(at, steps, user, r, token);
    SpanSecondHalf(at, steps, 5, user, r, Some(token), id);
  }

  /** What `RefreshAcceptedExactly` allows happens: a rotation, in every state in which it could run by itself, that
      has made its checks before a raise and reads the version again after it leaves an accepted refresh row. The
      access token it issues is not accepted. */
  lemma RotationMaySpanRaise(s: System, steps: seq<Step>, user: UserId, r: RequestId, token: TokenId, id: TokenId,
                             ttl: int)
    returns (access: Access)
    requires AcceptsRefresh(s, token) && s.refresh[token].stamp.user == user
    requires r !in s.usedRequests && id !in s.usedTokens && id != token
    requires steps == SpanningRotation(user, r, token, id, ttl)
    ensures Raises(After(s, steps[..3]), steps[3], user)
    ensures AcceptsRefresh(After(s, steps), id)
    ensures access in After(s, steps).access && access.stamp.user == user && !AcceptsAccess(After(s, steps), access)
  {
    TraceFollows(s, steps);
    TraceEnds(s, steps, 3);
    access := SpanWhole(Trace(s, steps), steps, user, r, token, id, ttl);
  }

  /** All the statements of one login, with a password set between the password check and the second version read. */
  function SpanningLogin(user: UserId, request: RequestId, id: TokenId, ttl: int): seq<Step> {
    [LogIn(request, user), Admin(SetPassword(user)), IssueAccess(request, ttl), ReadVersion(request, ttl),
     InsertRow(request, id), RevokePresented(request)]
  }

  lemma SpanWholeLogin(at: nat -> System, steps: seq<Step>, user: UserId, r: RequestId, id: TokenId, ttl: int)
    returns (access: Access)
    requires Follows(at, steps) && steps == SpanningLogin(user, r, id, ttl)
    requires IsActive(at(0), user) && r !in at(0).usedRequests && id !in at(0).usedTokens
    ensures Raises(at(1), steps[1], user) && AcceptsRefresh(at(6), id)
    ensures access in at(6).access && access.stamp.user == user && !AcceptsAccess(at(6), access)
  {
    access := SpanLoginHalf(at, steps, user, r);
    SpanSecondHalf(at, steps, 3, user, r, None, id);
  }

  /** So does a login whose password was checked before the raise. */
  lemma LoginMaySpanRaise(s: System, steps: seq<Step>, user: UserId, r: RequestId, id: TokenId, ttl: int)
    returns (access: Access)
    requires IsActive(s, user) && r !in s.usedRequests && id !in s.usedTokens
    requires steps == SpanningLogin(user, r, id, ttl)
    ensures Raises(After(s, steps[..1]), steps[1], user)
    ensures AcceptsRefresh(After(s, steps), id)
    ensures access in After(s, steps).access && access.stamp.user == user && !AcceptsAccess(After(s, steps), access)
  {
    TraceFollows(s, steps);
    TraceEnds(s, steps, 1);
    access := SpanWholeLogin(Trace(s, steps), steps, user, r, id, ttl);
  }
}
