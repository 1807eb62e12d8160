/** The failure counter and the lockout of local logins, for one user and serial attempts. */
module LoginLockout {
  import opened Text

  /** Times are in microseconds, as the database stores them. */
  datatype Account = Account(active: bool, hasPassword: bool, failedAttempts: int, lockedUntil: Option<int>)

  datatype Outcome = Disabled | Locked(until: int) | NoPassword | WrongPassword | Success

  /** The configured limits: `max_failed_attempts` and `lockout_seconds`. */
  datatype Limits = Limits(maxFailed: int, lockoutSeconds: int)

  /** How long a lock lasts: at least one second. */
  function LockSpan(limits: Limits): (span: int)
    ensures span > 0
  {
    (if limits.lockoutSeconds < 1 then 1 else limits.lockoutSeconds) * 1000000
  }

  /** The number of failures that locks; the first failure locks whenever the limit is below one. */
  function Threshold(limits: Limits): (n: int)
    ensures n >= 1
  {
    if limits.maxFailed < 1 then 1 else limits.maxFailed
  }

  /** `authenticate_local_user` on the user's row; `valid` is the answer of the hash check. */
  function Authenticated(a: Account, valid: bool, limits: Limits, now: int): (Account, Outcome) {
    if !a.active then (a, Disabled)
    else if a.lockedUntil.Some? && a.lockedUntil.value > now then (a, Locked(a.lockedUntil.value))
    else if !a.hasPassword then (a, NoPassword)
    else if !valid then
      var failed := a.failedAttempts + 1;
      var lock := if failed >= limits.maxFailed then Some(now + LockSpan(limits)) else None;
      (a.(failedAttempts := failed, lockedUntil := lock), WrongPassword)
    else
      (a.(failedAttempts := 0, lockedUntil := None), Success)
  }

  class LocalAccount {
    var active: bool
    var hasPassword: bool
    var failedAttempts: int
    var lockedUntil: Option<int>

    constructor (hasPassword: bool)
      ensures State() == Account(true, hasPassword, 0, None)
    {
      active, failedAttempts, lockedUntil := true, 0, None;
      this.hasPassword := hasPassword;
    }

    function State(): Account
      reads this
    {
      Account(active, hasPassword, failedAttempts, lockedUntil)
    }

    method Authenticate(valid: bool, limits: Limits, now: int) returns (outcome: Outcome)
      modifies this
      ensures (State(), outcome) == Authenticated(old(State()), valid, limits, now)
    {
      if !active {
        return Disabled;
      }
      if lockedUntil.Some? && lockedUntil.value > now {
        return Locked(lockedUntil.value);
      }
      if !hasPassword {
        return NoPassword;
      }
      if !valid {
        var failed := failedAttempts + 1;
        lockedUntil := if failed >= limits.maxFailed then Some(now + LockSpan(limits)) else None;
        failedAttempts := failed;
        return WrongPassword;
      }
      failedAttempts, lockedUntil := 0, None;
      return Success;
    }

    /** `set_user_password` for a stored user: a password that is blank or shorter than eight bytes is refused. */
    method SetPassword(password: string) returns (accepted: bool)
      modifies this
      ensures accepted <==> ByteLen(Trim(password)) >= 8
      ensures State() == if accepted
              then old(State()).(hasPassword := true, failedAttempts := 0, lockedUntil := None) else old(State())
    {
      if Trim(password) == "" {
        return false;
      }
      if ByteLen(Trim(password)) < 8 {
        return false;
      }
      hasPassword, failedAttempts, lockedUntil := true, 0, None;
      return true;
    }
  }

  // ---------- runs ----------

  datatype Event =
    | Attempt(at: int, valid: bool)
    | SetPassword(at: int)
    | SetActive(at: int, active: bool)

  /** An account with the history since its last reset: how many wrong passwords were really checked, when the
      first and the last of them were, and the time of the last event. */
  datatype History = History(account: Account, wrong: nat, firstWrong: int, lastWrong: int, last: int)

  function Step(h: History, event: Event, limits: Limits): History {
    match event
    case Attempt(at, valid) =>
      var (account, outcome) := Authenticated(h.account, valid, limits, at);
      if outcome == WrongPassword then
        History(account, h.wrong + 1, if h.wrong == 0 then at else h.firstWrong, at, at)
      else if outcome == Success then History(account, 0, at, at, at)
      else h.(account := account, last := at)
    case SetPassword(at) =>
      History(h.account.(hasPassword := true, failedAttempts := 0, lockedUntil := None), 0, at, at, at)
    case SetActive(at, active) =>
      h.(account := h.account.(active := active), last := at)
  }

  function Run(h: History, events: seq<Event>, limits: Limits): History {
    if events == [] then h else Step(Run(h, events[..|events| - 1], limits), events[|events| - 1], limits)
  }

  /** Clocks do not go backwards. */
  predicate InOrder(start: int, events: seq<Event>) {
    && (forall i :: 0 <= i < |events| ==> start <= events[i].at)
    && (forall i, j :: 0 <= i < j < |events| ==> events[i].at <= events[j].at)
  }

  /** Past the threshold each further check waited for a full lock, and the next one must wait too. */
  predicate Invariant(h: History, limits: Limits) {
    var threshold, span := Threshold(limits), LockSpan(limits);
    && h.account.failedAttempts == h.wrong
    && (h.wrong > 0 ==> h.firstWrong <= h.lastWrong <= h.last)
    && (h.account.lockedUntil.Some? <==> h.wrong >= threshold)
    && (h.wrong >= threshold ==> h.firstWrong + (h.wrong - threshold) * span <= h.lastWrong)
    && (h.wrong >= threshold ==> h.firstWrong + (h.wrong - threshold + 1) * span <= h.account.lockedUntil.value)
  }

  lemma StepKeepsInvariant(h: History, event: Event, limits: Limits)
    requires Invariant(h, limits) && h.last <= event.at
    ensures Invariant(Step(h, event, limits), limits)
    ensures Step(h, event, limits).last == event.at
  {
    var threshold, span := Threshold(limits), LockSpan(limits);
    if event.Attempt? && Authenticated(h.account, event.valid, limits, event.at).1 == WrongPassword {
      var h' := Step(h, event, limits);
      if h.wrong >= threshold {
        assert h.firstWrong + (h.wrong - threshold + 1) * span <= event.at;
        Distribute(h'.wrong - threshold, span);
      }
    }
  }

  lemma Distribute(n: int, span: int)
    ensures (n + 1) * span == n * span + span
  {
  }

  lemma {:induction false} RunKeepsInvariant(h: History, events: seq<Event>, limits: Limits)
    requires Invariant(h, limits) && InOrder(h.last, events)
    ensures Invariant(Run(h, events, limits), limits)
    ensures Run(h, events, limits).last == if events == [] then h.last else events[|events| - 1].at
  {
    if events != [] {
      var before := events[..|events| - 1];
      RunKeepsInvariant(h, before, limits);
      StepKeepsInvariant(Run(h, before, limits), events[|events| - 1], limits);
    }
  }

  function Fresh(hasPassword: bool, start: int): History {
    History(Account(true, hasPassword, 0, None), 0, start, start, start)
  }

  lemma QuotientBound(n: int, span: int, elapsed: int)
    requires span > 0 && 0 <= elapsed && n * span <= elapsed
    ensures n <= elapsed / span
  {
    if n > elapsed / span {
      var q := elapsed / span;
      assert elapsed == q * span + elapsed % span;
      ProductGrows(q, n, span);
      assert false;
    }
  }

  lemma ProductGrows(a: int, b: int, span: int)
    requires a < b && span >= 0
    ensures a * span + span <= b * span
  {
    NonNegativeProduct(b - a - 1, span);
    assert b * span == a * span + span + (b - a - 1) * span;
  }

  lemma NonNegativeProduct(a: int, b: int)
    requires a >= 0 && b >= 0
    ensures a * b >= 0
  {
  }

  /** In every serial run: if n wrong passwords were checked since the last reset, with a span T from the first of
      these checks to the last, then n <= max + T div L; and a lock is recorded exactly when the counter has
      reached the limit. */
  lemma WrongChecksAreBounded(hasPassword: bool, start: int, events: seq<Event>, limits: Limits)
    requires InOrder(start, events)
    ensures var h := Run(Fresh(hasPassword, start), events, limits);
            && (h.wrong > 0 ==> h.firstWrong <= h.lastWrong)
            && (h.wrong > 0 ==> h.wrong <= Threshold(limits) + (h.lastWrong - h.firstWrong) / LockSpan(limits))
            && (h.account.lockedUntil.Some? <==> h.wrong >= Threshold(limits))
            && h.account.failedAttempts == h.wrong
  {
    RunKeepsInvariant(Fresh(hasPassword, start), events, limits);
    var h := Run(Fresh(hasPassword, start), events, limits);
    if h.wrong >= Threshold(limits) {
      QuotientBound(h.wrong - Threshold(limits), LockSpan(limits), h.lastWrong - h.firstWrong);
    } else if h.wrong > 0 {
      QuotientBound(0, LockSpan(limits), h.lastWrong - h.firstWrong);
    }
  }

  // ---------- while it is locked or disabled, and after ----------

  /** A password is checked at all if and only if the account is active, has one, and is not locked at that time. */
  predicate Checks(a: Account, now: int) {
    a.active && a.hasPassword && (a.lockedUntil.Some? ==> a.lockedUntil.value <= now)
  }

  /** A checked password decides the attempt, and only a checked one changes the account: a right one clears the
      counter and the lock, a wrong one counts, and locks for the full span when the limit is reached. */
  lemma AttemptExactly(a: Account, valid: bool, limits: Limits, now: int)
    ensures var (a', outcome) := Authenticated(a, valid, limits, now);
            && (outcome == Success <==> Checks(a, now) && valid)
            && (outcome == WrongPassword <==> Checks(a, now) && !valid)
            && (outcome == Disabled <==> !a.active)
            && (outcome.Locked? <==> a.active && a.lockedUntil.Some? && a.lockedUntil.value > now)
            && (outcome.Locked? ==> a.lockedUntil == Some(outcome.until))
            && (outcome == Success ==> a' == a.(failedAttempts := 0, lockedUntil := None))
            && (outcome == WrongPassword ==>
                  && a'.active && a'.hasPassword && a'.failedAttempts == a.failedAttempts + 1
                  && (a'.lockedUntil.Some? <==> a'.failedAttempts >= limits.maxFailed)
                  && (a'.lockedUntil.Some? ==>
                        a'.lockedUntil.value - now == 1000000 * if limits.lockoutSeconds < 1 then 1
                                                                else limits.lockoutSeconds))
            && (!Checks(a, now) ==> a' == a)
  {
  }

  /** Only attempts, all of them while the account is disabled or before its lock ends. */
  predicate Barred(a: Account, events: seq<Event>) {
    forall i :: 0 <= i < |events| ==> events[i].Attempt? && !Checks(a, events[i].at)
  }

  /** As long as an account is locked or disabled no attempt succeeds, not even with the right password, and none
      changes the counter or extends the lock. */
  lemma {:induction false} BarredAttemptsChangeNothing(h: History, events: seq<Event>, limits: Limits)
    requires Barred(h.account, events)
    ensures var h' := Run(h, events, limits); h'.account == h.account && h'.wrong == h.wrong
    ensures forall i :: 0 <= i < |events| ==>
              !Authenticated(Run(h, events[..i], limits).account, events[i].valid, limits, events[i].at).1.Success?
  {
    if events != [] {
      var before := events[..|events| - 1];
      BarredAttemptsChangeNothing(h, before, limits);
      forall i | 0 <= i < |events|
        ensures !Authenticated(Run(h, events[..i], limits).account, events[i].valid, limits, events[i].at).1.Success?
      {
        if i < |before| {
          assert before[..i] == events[..i] && before[i] == events[i];
        } else {
          AttemptExactly(h.account, events[i].valid, limits, events[i].at);
        }
      }
      AttemptExactly(h.account, events[|events| - 1].valid, limits, events[|events| - 1].at);
    }
  }

  /** A password that is set opens an active account at once, whatever the history: the next right attempt succeeds,
      and the full number of wrong ones is free again. */
  lemma SetPasswordReopens(h: History, limits: Limits, changedAt: int, at: int)
    requires h.account.active
    ensures var h' := Step(h, SetPassword(changedAt), limits);
            && Checks(h'.account, at) && h'.wrong == 0 && h'.account.failedAttempts == 0
            && Authenticated(h'.account, true, limits, at).1 == Success
  {
  }

  /** And once the lock has ended, the right password is accepted whatever was tried meanwhile. */
  lemma RightPasswordAfterLock(h: History, events: seq<Event>, limits: Limits, at: int)
    requires Barred(h.account, events) && Checks(h.account, at)
    ensures Authenticated(Run(h, events, limits).account, true, limits, at) ==
            (h.account.(failedAttempts := 0, lockedUntil := None), Success)
  {
    BarredAttemptsChangeNothing(h, events, limits);
  }

  // ---------- the bound is met ----------

  function WrongTime(n: nat, limits: Limits): int {
    if n < Threshold(limits) then 0 else (n - Threshold(limits) + 1) * LockSpan(limits)
  }

  /** As many wrong passwords as possible: all free ones at once, then one at the end of every lock. */
  function WrongRun(n: nat, limits: Limits): seq<Event> {
    if n == 0 then [] else WrongRun(n - 1, limits) + [Attempt(WrongTime(n - 1, limits), false)]
  }

  lemma WrongTimeNext(n: nat, limits: Limits)
    ensures n >= Threshold(limits) ==> WrongTime(n + 1, limits) == WrongTime(n, limits) + LockSpan(limits)
    ensures n + 1 == Threshold(limits) ==> WrongTime(n + 1, limits) == LockSpan(limits)
  {
    Distribute(n - Threshold(limits) + 1, LockSpan(limits));
  }

  /** The state in which `n` wrong passwords have been checked, each as early as possible. */
  predicate AfterWrongRun(h: History, n: nat, limits: Limits) {
    && h.wrong == n && h.account.active && h.account.hasPassword && h.account.failedAttempts == n && h.firstWrong == 0
    && h.account.lockedUntil == (if n >= Threshold(limits) then Some(WrongTime(n, limits)) else None)
    && h.lastWrong == h.last == if n == 0 then 0 else WrongTime(n - 1, limits)
  }

  lemma NextWrongIsChecked(h: History, n: nat, limits: Limits)
    requires AfterWrongRun(h, n, limits)
    ensures AfterWrongRun(Step(h, Attempt(WrongTime(n, limits), false), limits), n + 1, limits)
  {
    WrongTimeNext(n, limits);
  }

  lemma {:induction false} WrongRunIsChecked(n: nat, limits: Limits)
    ensures AfterWrongRun(Run(Fresh(true, 0), WrongRun(n, limits), limits), n, limits)
  {
    if n > 0 {
      var before, entry := WrongRun(n - 1, limits), Attempt(WrongTime(n - 1, limits), false);
      WrongRunIsChecked(n - 1, limits);
      RunAppend(Fresh(true, 0), before, entry, limits);
      NextWrongIsChecked(Run(Fresh(true, 0), before, limits), n - 1, limits);
    }
  }

  lemma RunAppend(h: History, events: seq<Event>, event: Event, limits: Limits)
    ensures Run(h, events + [event], limits) == Step(Run(h, events, limits), event, limits)
  {
    assert (events + [event])[..|events + [event]| - 1] == events;
  }

  lemma {:induction false} WrongRunInOrder(n: nat, limits: Limits)
    ensures |WrongRun(n, limits)| == n && InOrder(0, WrongRun(n, limits))
    ensures forall i :: 0 <= i < n ==> WrongRun(n, limits)[i].at == WrongTime(i, limits)
  {
    if n > 0 {
      WrongRunInOrder(n - 1, limits);
      forall i | 0 <= i < n ensures 0 <= WrongTime(i, limits) <= WrongTime(n - 1, limits) {
        var threshold, span := Threshold(limits), LockSpan(limits);
        if i >= threshold {
          NonNegativeProduct(i - threshold + 1, span);
          NonNegativeProduct(n - 1 - i, span);
          assert WrongTime(n - 1, limits) == WrongTime(i, limits) + (n - 1 - i) * span;
        } else if n - 1 >= threshold {
          NonNegativeProduct(n - 1 - threshold + 1, span);
        }
      }
    }
  }

  lemma LastWrongTime(locks: nat, limits: Limits)
    ensures WrongTime(Threshold(limits) + locks - 1, limits) == locks * LockSpan(limits)
  {
  }

  /** The bound cannot be lowered: for every number of locks there is a run that checks the limit plus
      that many wrong passwords in exactly that many lock spans. */
  lemma BoundIsTight(locks: nat, limits: Limits)
    ensures var entries := WrongRun(Threshold(limits) + locks, limits);
            var h := Run(Fresh(true, 0), entries, limits);
            && InOrder(0, entries)
            && h.wrong == Threshold(limits) + locks
            && h.lastWrong - h.firstWrong == locks * LockSpan(limits)
  {
    var n := Threshold(limits) + locks;
    WrongRunIsChecked(n, limits);
    WrongRunInOrder(n, limits);
    SpanOfWrongRun(Run(Fresh(true, 0), WrongRun(n, limits), limits), locks, limits);
  }

  lemma SpanOfWrongRun(h: History, locks: nat, limits: Limits)
    requires AfterWrongRun(h, Threshold(limits) + locks, limits)
    ensures h.wrong == Threshold(limits) + locks && h.lastWrong - h.firstWrong == locks * LockSpan(limits)
  {
    LastWrongTime(locks, limits);
  }
}
