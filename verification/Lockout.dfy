/**
 Account lockout (app/models.py, app/auth.py): the failure counter survives the end of a lock, so that from
 the fifth wrong password on, every further one locks the account again. Instants are in microseconds.
 */
module Lockout {
  import opened Common

  type Instant = int

  const MINUTE: int := 60_000_000
  const MAX_ATTEMPTS: int := 5
  const LOCKOUT: int := 30 * MINUTE

  datatype Account = Account(failed: int, lockedUntil: Option<Instant>)

  /** What a completed login, a new password or an administrator's unlock leaves. */
  const CLEAR := Account(0, None)

  predicate LockedAt(a: Account, now: Instant)
  {
    a.lockedUntil.Some? && now < a.lockedUntil.value
  }

  /** The account after `record_failed_login` at `now`. */
  function AfterFailure(a: Account, now: Instant): (a': Account)
  {
    Account(a.failed + 1, if a.failed + 1 >= MAX_ATTEMPTS then Some(now + LOCKOUT) else a.lockedUntil)
  }

  // ---------------------------------------------------------------- the user object

  datatype LoginOutcome = LockedOut | WrongPassword(nowLocked: bool) | AwaitingCode | LoggedIn

  class User {
    var failedLoginAttempts: int
    var accountLockedUntil: Option<Instant>

    ghost function State(): (a: Account)
      reads this
    {
      Account(failedLoginAttempts, accountLockedUntil)
    }

    constructor ()
      ensures State() == CLEAR
    {
      failedLoginAttempts := 0;
      accountLockedUntil := None;
    }

    method IsAccountLocked(now: Instant) returns (locked: bool)
      ensures locked <==> LockedAt(State(), now)
      ensures locked <==> accountLockedUntil.Some? && now < accountLockedUntil.value
    {
      if accountLockedUntil.None? {
        return false;
      }
      return now < accountLockedUntil.value;
    }

    method RecordFailedLogin(now: Instant)
      modifies this
      ensures State() == AfterFailure(old(State()), now)
      ensures failedLoginAttempts == old(failedLoginAttempts) + 1
      ensures accountLockedUntil ==
              if failedLoginAttempts >= 5 then Some(now + 1_800_000_000) else old(accountLockedUntil)
    {
      failedLoginAttempts := failedLoginAttempts + 1;
      if failedLoginAttempts >= MAX_ATTEMPTS {
        accountLockedUntil := Some(now + LOCKOUT);
      }
    }

    method ResetFailedLogins()
      modifies this
      ensures State() == CLEAR
    {
      failedLoginAttempts := 0;
      accountLockedUntil := None;
    }

    /**
     The login handler from the lock gate on. The clock is read at the gate, again when a failure is recorded,
     and again for the message. With a second factor the counters stay until the code is verified.
     */
    method Login(matches: bool, secondFactor: bool, checkedAt: Instant, recordedAt: Instant, shownAt: Instant)
      returns (outcome: LoginOutcome)
      modifies this
      ensures outcome.LockedOut? <==> LockedAt(old(State()), checkedAt)
      ensures outcome.WrongPassword? <==> !LockedAt(old(State()), checkedAt) && !matches
      ensures State() == After(old(State()), Attempt(matches, secondFactor, checkedAt, recordedAt))
      ensures outcome.WrongPassword? ==> (outcome.nowLocked <==> LockedAt(State(), shownAt))
      ensures outcome.LoggedIn? ==> State() == CLEAR
      ensures outcome.LockedOut? || outcome.AwaitingCode? ==> State() == old(State())
    {
      var locked := IsAccountLocked(checkedAt);
      if locked {
        return LockedOut;
      }
      if !matches {
        RecordFailedLogin(recordedAt);
        var shown := IsAccountLocked(shownAt);
        return WrongPassword(shown);
      }
      if secondFactor {
        return AwaitingCode;
      }
      ResetFailedLogins();
      return LoggedIn;
    }
  }

  // ---------------------------------------------------------------- runs

  datatype Event =
    | Attempt(matches: bool, secondFactor: bool, checkedAt: Instant, recordedAt: Instant)
    | Cleared                                     // second factor passed, password set, or unlocked

  function After(a: Account, v: Event): (a': Account)
  {
    match v
    case Cleared => CLEAR
    case Attempt(matches, secondFactor, checkedAt, recordedAt) =>
      if LockedAt(a, checkedAt) then a
      else if !matches then AfterFailure(a, recordedAt)
      else if secondFactor then a
      else CLEAR
  }

  function Play(events: seq<Event>): (a: Account)
  {
    if events == [] then CLEAR else After(Play(events[..|events| - 1]), events[|events| - 1])
  }

  /** A password is compared and found wrong. */
  predicate Evaluates(a: Account, v: Event)
  {
    v.Attempt? && !v.matches && !LockedAt(a, v.checkedAt)
  }

  /** The event lifts the count: a login that goes through, a new password, or an unlock. */
  predicate Clears(a: Account, v: Event)
  {
    v.Cleared? || (v.Attempt? && v.matches && !v.secondFactor && !LockedAt(a, v.checkedAt))
  }

  /** Nothing lifts the count along the run, and each attempt passes the gate before it is recorded. */
  ghost predicate Unbroken(events: seq<Event>)
  {
    forall k :: 0 <= k < |events| ==>
      !Clears(Play(events[..k]), events[k]) && (events[k].Attempt? ==> events[k].checkedAt <= events[k].recordedAt)
  }

  /** The evaluated wrong passwords of a run, in order. */
  function Wrong(events: seq<Event>): (w: seq<Event>)
    ensures forall i :: 0 <= i < |w| ==> w[i].Attempt?
  {
    if events == [] then []
    else
      var before, v := events[..|events| - 1], events[|events| - 1];
      Wrong(before) + if Evaluates(Play(before), v) then [v] else []
  }

  /** From the sixth on, each evaluated wrong password passes the gate thirty minutes after the last was recorded. */
  ghost predicate Spaced(w: seq<Event>)
  {
    && (forall i :: 0 <= i < |w| ==> w[i].Attempt? && w[i].checkedAt <= w[i].recordedAt)
    && (forall i :: 5 <= i < |w| ==> GapBefore(w, i))
  }

  ghost predicate GapBefore(w: seq<Event>, i: int)
    requires 1 <= i < |w| && w[i].Attempt? && w[i - 1].Attempt?
  {
    w[i].checkedAt >= w[i - 1].recordedAt + 1_800_000_000
  }

  /** The account tells how many wrong passwords there were and when the last lock ends. */
  ghost predicate Remembers(a: Account, w: seq<Event>)
  {
    && Spaced(w)
    && a.failed == |w|
    && a.lockedUntil == (if |w| >= MAX_ATTEMPTS then Some(w[|w| - 1].recordedAt + LOCKOUT) else None)
  }

  lemma {:induction false} AccountRemembers(events: seq<Event>)
    requires Unbroken(events)
    ensures Remembers(Play(events), Wrong(events))
  {
    if events != [] {
      var k := |events| - 1;
      forall j | 0 <= j < k ensures events[..k][..j] == events[..j] && events[..k][j] == events[j] {
      }
      AccountRemembers(events[..k]);
      RememberedStep(Play(events[..k]), Wrong(events[..k]), events[k]);
    }
  }

  lemma RememberedStep(a: Account, w: seq<Event>, v: Event)
    requires Remembers(a, w) && !Clears(a, v) && (v.Attempt? ==> v.checkedAt <= v.recordedAt)
    ensures Remembers(After(a, v), w + if Evaluates(a, v) then [v] else [])
  {
    if Evaluates(a, v) {
      var w' := w + [v];
      assert forall i :: 0 <= i < |w| ==> w'[i] == w[i];
      forall i | MAX_ATTEMPTS <= i < |w'| ensures GapBefore(w', i) {
        assert i < |w| ==> GapBefore(w, i);
      }
    } else {
      assert w + [] == w;
    }
  }

  lemma {:induction false} SpacedApart(w: seq<Event>, j: nat)
    requires Spaced(w) && MAX_ATTEMPTS - 1 + j < |w|
    ensures w[MAX_ATTEMPTS - 1 + j].checkedAt >= w[MAX_ATTEMPTS - 1].checkedAt + j * LOCKOUT
    ensures j > 0 ==> w[MAX_ATTEMPTS - 1 + j].checkedAt >= w[MAX_ATTEMPTS - 1].recordedAt + j * LOCKOUT
  {
    if j > 0 {
      SpacedApart(w, j - 1);
      assert GapBefore(w, MAX_ATTEMPTS - 1 + j);
      assert w[MAX_ATTEMPTS - 1 + (j - 1)].recordedAt >= w[MAX_ATTEMPTS - 1 + (j - 1)].checkedAt;
    }
  }

  /**
   In a run with no success, new password or unlock, the (5+j)-th evaluated wrong password comes at least j * 30
   minutes after the fifth was recorded; so a run's length bounds how many passwords it can try.
   */
  lemma WrongPasswordsAreSpaced(events: seq<Event>, j: nat)
    requires Unbroken(events) && |Wrong(events)| >= 5 + j
    ensures var w := Wrong(events);
            && (j > 0 ==> w[4 + j].checkedAt >= w[4].recordedAt + j * 1_800_000_000)
            && |w| - 5 <= (w[|w| - 1].checkedAt - w[4].checkedAt) / 1_800_000_000
  {
    var w := Wrong(events);
    AccountRemembers(events);
    SpacedApart(w, j);
    SpacedApart(w, |w| - MAX_ATTEMPTS);
    LocksIn(|w| - MAX_ATTEMPTS, w[|w| - 1].checkedAt - w[MAX_ATTEMPTS - 1].checkedAt);
  }

  lemma LocksIn(n: nat, span: int)
    requires n * LOCKOUT <= span
    ensures n <= span / LOCKOUT
  {
  }

  /** The lock is no longer than that: thirty minutes after the last wrong password the next one is evaluated. */
  lemma LockEnds(events: seq<Event>, v: Event)
    requires Unbroken(events) && v.Attempt? && !v.matches && |Wrong(events)| >= 5
    ensures Wrong(events + [v]) == Wrong(events) + [v] <==>
              v.checkedAt >= Wrong(events)[|Wrong(events)| - 1].recordedAt + 1_800_000_000
  {
    AccountRemembers(events);
    assert (events + [v])[..|events|] == events;
  }
}
