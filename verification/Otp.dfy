/**
 One-time-password challenges (app/services/otp_service.py): issuing, verifying and, when the mail cannot be
 sent, withdrawing them. Instants are in microseconds, the resolution of the stored timestamps.
 */
module Otp {
  import opened Common

  type Instant = int

  const SECOND: int := 1_000_000
  const MAX_FAILED_ATTEMPTS: int := 5
  const VALID_PURPOSES := {"generic", "login_mfa"}

  /** `_otp_digest` under the configured secret, and which characters `str.isdigit` takes for digits. */
  datatype Config = Config(digest: (string, string) -> string, isDigit: char -> bool)

  /** The unique constraint on user and purpose: a slot holds at most one challenge. */
  datatype Slot = Slot(user: int, purpose: string)

  datatype Challenge = Challenge(id: string, digest: string, expiresAt: Instant, failed: int,
                                 consumedAt: Option<Instant>, createdAt: Instant)

  type Table = map<Slot, Challenge>

  datatype IssueError = UnsupportedPurpose | BadCode | RateLimited | DuplicateId

  datatype Verdict = Missing | Expired | Locked | Invalid | Valid

  // ---------------------------------------------------------------- issue

  function Lifetime(ttl: int): (t: int)
    ensures 60 * SECOND <= t <= 900 * SECOND
    ensures 60 <= ttl <= 900 ==> t == ttl * SECOND
  {
    (if ttl < 60 then 60 else if ttl > 900 then 900 else ttl) * SECOND
  }

  predicate SixDigits(cfg: Config, code: string)
  {
    |code| == 6 && forall i :: 0 <= i < |code| ==> cfg.isDigit(code[i])
  }

  /** A challenge that may not be replaced yet: live, or locked by failures and not yet expired. */
  predicate Holds(c: Challenge, now: Instant)
  {
    c.expiresAt > now && (c.consumedAt.None? || c.failed >= MAX_FAILED_ATTEMPTS)
  }

  function IssueOutcome(cfg: Config, t: Table, s: Slot, code: string, id: string, now: Instant): (e: Option<IssueError>)
  {
    if s.purpose !in VALID_PURPOSES then Some(UnsupportedPurpose)
    else if !SixDigits(cfg, code) then Some(BadCode)
    else if s in t && Holds(t[s], now) then Some(RateLimited)
    else if exists other :: other in t && other != s && t[other].id == id then Some(DuplicateId)
    else None
  }

  function Issued(cfg: Config, t: Table, s: Slot, ttl: int, code: string, id: string, now: Instant): (t': Table)
  {
    if IssueOutcome(cfg, t, s, code, id, now).Some? then t
    else t[s := Challenge(id, cfg.digest(id, code), now + Lifetime(ttl), 0, None, now)]
  }

  // ---------------------------------------------------------------- verify

  /** The row the query finds: right id, right user, right purpose, and not consumed. */
  predicate Found(t: Table, id: string, s: Slot)
  {
    id != "" && s.purpose in VALID_PURPOSES && s in t && t[s].id == id && t[s].consumedAt.None?
  }

  /** The supplied code is compared with the stored one. */
  predicate Evaluated(t: Table, id: string, s: Slot, now: Instant)
  {
    Found(t, id, s) && t[s].expiresAt > now && t[s].failed < MAX_FAILED_ATTEMPTS
  }

  function VerifyVerdict(cfg: Config, t: Table, id: string, s: Slot, code: string, now: Instant): (v: Verdict)
  {
    if !Found(t, id, s) then Missing
    else if t[s].expiresAt <= now then Expired
    else if t[s].failed >= MAX_FAILED_ATTEMPTS then Locked
    else if cfg.digest(id, code) == t[s].digest then Valid
    else if t[s].failed + 1 >= MAX_FAILED_ATTEMPTS then Locked
    else Invalid
  }

  function Verified(cfg: Config, t: Table, id: string, s: Slot, code: string, now: Instant): (t': Table)
  {
    if !Found(t, id, s) then t
    else
      var c := t[s];
      var wrong := Evaluated(t, id, s, now) && cfg.digest(id, code) != c.digest;
      var failed := if wrong then c.failed + 1 else c.failed;
      t[s := c.(failed := failed, consumedAt := if wrong && failed < MAX_FAILED_ATTEMPTS then None else Some(now))]
  }

  // ---------------------------------------------------------------- what they ask, field by field

  /**
   A challenge is issued exactly for a supported purpose and a code of six digits, where there is none yet or the one
   there is has expired or was used up before its fifth failure, under a new id. It takes the slot with no failure,
   the digest of its own id and code, and the requested lifetime within one and fifteen minutes.
   */
  lemma IssueAllowedIff(cfg: Config, t: Table, s: Slot, ttl: int, code: string, id: string, now: Instant)
    ensures IssueOutcome(cfg, t, s, code, id, now).None? <==>
              && (s.purpose == "generic" || s.purpose == "login_mfa")
              && |code| == 6 && (forall i :: 0 <= i < 6 ==> cfg.isDigit(code[i]))
              && (s !in t || t[s].expiresAt <= now || (t[s].consumedAt.Some? && t[s].failed < 5))
              && (forall other :: other in t && other != s ==> t[other].id != id)
    ensures var t' := Issued(cfg, t, s, ttl, code, id, now);
            if IssueOutcome(cfg, t, s, code, id, now).Some? then t' == t
            else
              && s in t' && t' == t[s := t'[s]]
              && t'[s].id == id && t'[s].digest == cfg.digest(id, code) && t'[s].failed == 0
              && t'[s].consumedAt.None? && t'[s].createdAt == now
              && (ttl < 60 ==> t'[s].expiresAt == now + 60_000_000)
              && (60 <= ttl <= 900 ==> t'[s].expiresAt == now + ttl * 1_000_000)
              && (ttl > 900 ==> t'[s].expiresAt == now + 900_000_000)
  {
  }

  /**
   A code is right exactly when the slot has an unused, unexpired challenge with that id, fewer than five failures and
   the digest of that id and code. Only a wrong code is counted, only the fifth uses the challenge up, and any other
   verdict on a challenge that is there does.
   */
  lemma VerdictSays(cfg: Config, t: Table, id: string, s: Slot, code: string, now: Instant)
    ensures var here := id != "" && (s.purpose == "generic" || s.purpose == "login_mfa") &&
                        s in t && t[s].id == id && t[s].consumedAt.None?;
            var live := here && now < t[s].expiresAt && t[s].failed < 5;
            var right := live && t[s].digest == cfg.digest(id, code);
            var v := VerifyVerdict(cfg, t, id, s, code, now);
            var t' := Verified(cfg, t, id, s, code, now);
            && (v.Valid? <==> right)
            && (v.Missing? <==> !here)
            && (v.Expired? <==> here && t[s].expiresAt <= now)
            && (v.Invalid? <==> live && !right && t[s].failed < 4)
            && (!here ==> t' == t)
            && (here ==>
                  && t' == t[s := t'[s]]
                  && t'[s].failed == t[s].failed + (if live && !right then 1 else 0)
                  && t'[s].consumedAt == (if v.Invalid? then None else Some(now))
                  && t'[s].id == t[s].id && t'[s].digest == t[s].digest
                  && t'[s].expiresAt == t[s].expiresAt && t'[s].createdAt == t[s].createdAt)
  {
  }

  // ---------------------------------------------------------------- the service

  /** Rows the table can hold: a bounded count, five failures only when consumed, and a bounded lifetime. */
  ghost predicate ChallengeOk(c: Challenge)
  {
    && 0 <= c.failed <= MAX_FAILED_ATTEMPTS
    && (c.failed == MAX_FAILED_ATTEMPTS ==> c.consumedAt.Some?)
    && c.createdAt + 60 * SECOND <= c.expiresAt <= c.createdAt + 900 * SECOND
  }

  /** With the primary key: one row per id. */
  ghost predicate TableOk(t: Table)
  {
    && (forall s :: s in t ==> ChallengeOk(t[s]))
    && (forall s, s' :: s in t && s' in t && t[s].id == t[s'].id ==> s == s')
  }

  class OtpService {
    const cfg: Config
    var table: Table

    constructor (c: Config)
      ensures cfg == c && table == map[] && TableOk(table)
    {
      cfg := c;
      table := map[];
    }

    /** Replace the challenge of one user and purpose, unless it is live or locked. */
    method Issue(s: Slot, ttl: int, code: string, id: string, now: Instant) returns (r: Result<string, IssueError>)
      modifies this`table
      ensures TableOk(old(table)) ==> TableOk(table)
      ensures table == Issued(cfg, old(table), s, ttl, code, id, now)
      ensures match IssueOutcome(cfg, old(table), s, code, id, now)
              case Some(e) => r == Err(e) && table == old(table)
              case None => r == Ok(id) && s in table && table[s].id == id && table[s].failed == 0 &&
                           table[s].consumedAt.None? && now < table[s].expiresAt &&
                           VerifyVerdict(cfg, table, id, s, code, now) == (if id == "" then Missing else Valid)
    {
      if s.purpose !in VALID_PURPOSES {
        return Err(UnsupportedPurpose);
      }
      if !SixDigits(cfg, code) {
        return Err(BadCode);
      }
      var t := table;
      if s in t {
        var existing := t[s];
        if existing.expiresAt > now && (existing.consumedAt.None? || existing.failed >= MAX_FAILED_ATTEMPTS) {
          return Err(RateLimited);
        }
        t := t - {s};
      }
      if exists other :: other in t && t[other].id == id {
        return Err(DuplicateId);
      }
      table := t[s := Challenge(id, cfg.digest(id, code), now + Lifetime(ttl), 0, None, now)];
      assert table == old(table)[s := table[s]];
      assert forall other :: other in old(table) && other != s ==> other in t && t[other] == old(table)[other];
      return Ok(id);
    }

    /** Verify atomically; every wrong code is counted and the fifth consumes the challenge. */
    method Verify(id: string, s: Slot, code: string, now: Instant) returns (v: Verdict)
      modifies this`table
      ensures TableOk(old(table)) ==> TableOk(table)
      ensures v == VerifyVerdict(cfg, old(table), id, s, code, now)
      ensures table == Verified(cfg, old(table), id, s, code, now)
      ensures v.Missing? ==> table == old(table)
      ensures !v.Missing? && !v.Invalid? ==> VerifyVerdict(cfg, table, id, s, code, now) == Missing
    {
      if id == "" || s.purpose !in VALID_PURPOSES || s !in table || table[s].id != id || table[s].consumedAt.Some? {
        return Missing;
      }
      var c := table[s];
      if c.expiresAt <= now {
        table := table[s := c.(consumedAt := Some(now))];
        return Expired;
      }
      if c.failed >= MAX_FAILED_ATTEMPTS {
        table := table[s := c.(consumedAt := Some(now))];
        return Locked;
      }
      if cfg.digest(c.id, code) != c.digest {
        c := c.(failed := c.failed + 1);
        if c.failed >= MAX_FAILED_ATTEMPTS {
          c := c.(consumedAt := Some(now));
          v := Locked;
        } else {
          v := Invalid;
        }
        table := table[s := c];
        return;
      }
      table := table[s := c.(consumedAt := Some(now))];
      return Valid;
    }
  }

  // ---------------------------------------------------------------- runs

  datatype Event =
    | Issue(slot: Slot, ttl: int, code: string, id: string, now: Instant)
    | Verify(id: string, slot: Slot, code: string, now: Instant)
    | Withdraw(slot: Slot, id: string, now: Instant)        // the mail was not sent: delete the row just issued

  function Withdrawn(t: Table, s: Slot, id: string): (t': Table)
  {
    if s in t && t[s].id == id then t - {s} else t
  }

  function After(cfg: Config, t: Table, v: Event): (t': Table)
  {
    match v
    case Issue(s, ttl, code, id, now) => Issued(cfg, t, s, ttl, code, id, now)
    case Verify(id, s, code, now) => Verified(cfg, t, id, s, code, now)
    case Withdraw(s, id, _) => Withdrawn(t, s, id)
  }

  function Play(cfg: Config, events: seq<Event>): (t: Table)
  {
    if events == [] then map[] else After(cfg, Play(cfg, events[..|events| - 1]), events[|events| - 1])
  }

  /** The clock does not run backwards. */
  ghost predicate Clocked(events: seq<Event>)
  {
    forall i, j :: 0 <= i <= j < |events| ==> events[i].now <= events[j].now
  }

  /** What an event is for one slot, on the table it meets. */
  predicate Issues(cfg: Config, t: Table, v: Event, s: Slot)
  {
    v.Issue? && v.slot == s && IssueOutcome(cfg, t, s, v.code, v.id, v.now).None?
  }

  predicate Withdraws(t: Table, v: Event, s: Slot)
  {
    v.Withdraw? && v.slot == s && s in t && t[s].id == v.id
  }

  /** The withdrawn challenge had already been guessed at. */
  predicate WithdrawsGuessed(t: Table, v: Event, s: Slot)
  {
    Withdraws(t, v, s) && t[s].failed > 0
  }

  predicate Succeeds(cfg: Config, t: Table, v: Event, s: Slot)
  {
    v.Verify? && v.slot == s && VerifyVerdict(cfg, t, v.id, s, v.code, v.now).Valid?
  }

  predicate GuessesWrong(cfg: Config, t: Table, v: Event, s: Slot)
  {
    v.Verify? && v.slot == s && Evaluated(t, v.id, s, v.now) && cfg.digest(v.id, v.code) != t[s].digest
  }

  /** `withdrawn` challenges had been guessed at; `retracted` ones had not. */
  datatype Counts = Counts(issued: nat, withdrawn: nat, retracted: nat, valid: nat, wrong: nat)

  function One(b: bool): (n: nat)
  {
    if b then 1 else 0
  }

  function Counted(cfg: Config, k: Counts, t: Table, v: Event, s: Slot): (k': Counts)
  {
    Counts(k.issued + One(Issues(cfg, t, v, s)), k.withdrawn + One(WithdrawsGuessed(t, v, s)),
           k.retracted + One(Withdraws(t, v, s) && !WithdrawsGuessed(t, v, s)),
           k.valid + One(Succeeds(cfg, t, v, s)), k.wrong + One(GuessesWrong(cfg, t, v, s)))
  }

  /** How often each of these happened to one slot along a run from the empty table. */
  function Count(cfg: Config, events: seq<Event>, s: Slot): (k: Counts)
  {
    if events == [] then Counts(0, 0, 0, 0, 0)
    else
      var before := events[..|events| - 1];
      Counted(cfg, Count(cfg, before, s), Play(cfg, before), events[|events| - 1], s)
  }

  lemma AfterOk(cfg: Config, t: Table, v: Event)
    requires TableOk(t)
    ensures TableOk(After(cfg, t, v))
  {
  }

  /** In every reachable table: five failures imply consumed, never more than five, ids are unique. */
  lemma {:induction false} ReachableOk(cfg: Config, events: seq<Event>)
    ensures TableOk(Play(cfg, events))
  {
    if events != [] {
      ReachableOk(cfg, events[..|events| - 1]);
      AfterOk(cfg, Play(cfg, events[..|events| - 1]), events[|events| - 1]);
    }
  }

  // ---------------------------------------------------------------- the bound on guessing

  /** A challenge used up by a right code before it expired. */
  predicate Spent(c: Challenge)
  {
    c.consumedAt.Some? && c.failed < MAX_FAILED_ATTEMPTS && c.consumedAt.value < c.expiresAt
  }

  /**
   The account kept for one slot. Retracted challenges aside, every challenge before the present one gave at most
   five guesses, and each was replaced after sixty seconds, after a right code, or after a withdrawal.
   */
  ghost predicate Account(t: Table, s: Slot, k: Counts, start: Instant, now: Instant)
  {
    var kept := k.issued - k.retracted;
    if s in t then
      var c := t[s];
      && c.createdAt <= now && (c.consumedAt.Some? ==> c.consumedAt.value <= now)
      && k.wrong <= 5 * (kept - 1) + c.failed
      && k.valid >= One(Spent(c))
      && 60 * SECOND * (kept - 1 - (k.valid - One(Spent(c))) - k.withdrawn) <= c.createdAt - start
    else
      && k.wrong <= 5 * kept
      && 60 * SECOND * (kept - k.valid - k.withdrawn) <= now - start
  }

  lemma AccountKept(cfg: Config, t: Table, s: Slot, k: Counts, start: Instant, before: Instant, v: Event)
    requires TableOk(t) && Account(t, s, k, start, before) && start <= before <= v.now
    ensures Account(After(cfg, t, v), s, Counted(cfg, k, t, v, s), start, v.now)
  {
    match v
    case Issue(_, _, _, _, _) => IssueKeepsAccount(cfg, t, s, k, start, before, v);
    case Verify(_, _, _, _) => VerifyKeepsAccount(cfg, t, s, k, start, before, v);
    case Withdraw(_, _, _) => WithdrawKeepsAccount(cfg, t, s, k, start, before, v);
  }

  lemma IssueKeepsAccount(cfg: Config, t: Table, s: Slot, k: Counts, start: Instant, before: Instant, v: Event)
    requires TableOk(t) && Account(t, s, k, start, before) && start <= before <= v.now && v.Issue?
    ensures Account(After(cfg, t, v), s, Counted(cfg, k, t, v, s), start, v.now)
  {
    if s in t {
      assert ChallengeOk(t[s]);
    }
  }

  lemma VerifyKeepsAccount(cfg: Config, t: Table, s: Slot, k: Counts, start: Instant, before: Instant, v: Event)
    requires TableOk(t) && Account(t, s, k, start, before) && start <= before <= v.now && v.Verify?
    ensures Account(After(cfg, t, v), s, Counted(cfg, k, t, v, s), start, v.now)
  {
    if s in t {
      assert ChallengeOk(t[s]);
    }
  }

  lemma WithdrawKeepsAccount(cfg: Config, t: Table, s: Slot, k: Counts, start: Instant, before: Instant, v: Event)
    requires TableOk(t) && Account(t, s, k, start, before) && start <= before <= v.now && v.Withdraw?
    ensures Account(After(cfg, t, v), s, Counted(cfg, k, t, v, s), start, v.now)
  {
    if s in t {
      assert ChallengeOk(t[s]);
    }
  }

  lemma AccountBounds(t: Table, s: Slot, k: Counts, start: Instant, now: Instant)
    requires TableOk(t) && Account(t, s, k, start, now) && start <= now
    ensures k.wrong <= 5 * ((now - start) / 60_000_000 + 1 + k.valid + k.withdrawn)
  {
    if s in t {
      assert ChallengeOk(t[s]);
    }
    var full := k.issued - k.retracted - 1 - k.valid - k.withdrawn;
    MinutesIn(full, now - start);
    assert k.wrong <= 5 * (full + 1 + k.valid + k.withdrawn);
  }

  lemma MinutesIn(n: int, span: int)
    requires 60 * SECOND * n <= span
    ensures n <= span / 60_000_000
  {
  }

  lemma {:induction false} AccountAlong(cfg: Config, events: seq<Event>, s: Slot)
    requires Clocked(events) && events != []
    ensures Account(Play(cfg, events), s, Count(cfg, events, s), events[0].now, events[|events| - 1].now)
  {
    var n := |events| - 1;
    var before := events[..n];
    ReachableOk(cfg, before);
    if n > 0 {
      assert Clocked(before) && before[0] == events[0];
      AccountAlong(cfg, before, s);
      AccountKept(cfg, Play(cfg, before), s, Count(cfg, before, s), events[0].now, events[n - 1].now, events[n]);
    } else {
      assert before == [];
      AccountKept(cfg, map[], s, Counts(0, 0, 0, 0, 0), events[0].now, events[0].now, events[0]);
    }
  }

  /**
   Guessing is throttled: per user and purpose, a run from the empty table that spans T compares at most
   5 * (T / 60 s + 1 + V + W) wrong codes, V being its right codes and W the challenges withdrawn after a wrong code.
   */
  lemma GuessesBounded(cfg: Config, events: seq<Event>, s: Slot)
    requires Clocked(events) && events != []
    ensures var k := Count(cfg, events, s);
            var span := events[|events| - 1].now - events[0].now;
            k.wrong <= 5 * (span / 60_000_000 + 1 + k.valid + k.withdrawn)
  {
    AccountAlong(cfg, events, s);
    ReachableOk(cfg, events);
    AccountBounds(Play(cfg, events), s, Count(cfg, events, s), events[0].now, events[|events| - 1].now);
  }

  /**
   How the login handler withdraws: in the request that issued the challenge, before anybody has been told its id,
   so that no attempt has named it yet.
   */
  ghost predicate Untold(events: seq<Event>)
  {
    forall i, k :: 0 <= i < k < |events| && events[i].Verify? && events[k].Withdraw? ==> events[i].id != events[k].id
  }

  ghost predicate Named(events: seq<Event>, id: string)
  {
    exists i :: 0 <= i < |events| && events[i].Verify? && events[i].id == id
  }

  lemma NamedSnoc(events: seq<Event>, k: nat, id: string)
    requires k < |events|
    ensures Named(events[..k + 1], id) <==> Named(events[..k], id) || (events[k].Verify? && events[k].id == id)
  {
    var shorter, longer := events[..k], events[..k + 1];
    assert longer[k] == events[k];
    if i :| 0 <= i < |shorter| && shorter[i].Verify? && shorter[i].id == id {
      assert longer[i] == shorter[i];
    }
    if i :| 0 <= i < |longer| && longer[i].Verify? && longer[i].id == id {
      assert i < k ==> shorter[i] == longer[i];
    }
  }

  /** A challenge that no attempt has named has no failures. */
  lemma {:induction false} UnnamedIsUnguessed(cfg: Config, events: seq<Event>, s: Slot)
    requires s in Play(cfg, events) && !Named(events, Play(cfg, events)[s].id)
    ensures Play(cfg, events)[s].failed == 0
  {
    var n := |events| - 1;
    var before, t := events[..n], Play(cfg, events[..n]);
    assert events[..n + 1] == events;
    NamedSnoc(events, n, Play(cfg, events)[s].id);
    if s in t && t[s].id == Play(cfg, events)[s].id {
      UnnamedIsUnguessed(cfg, before, s);
    }
  }

  lemma {:induction false} NothingGuessedWithdrawn(cfg: Config, events: seq<Event>, s: Slot)
    requires Untold(events)
    ensures Count(cfg, events, s).withdrawn == 0
  {
    if events != [] {
      var n := |events| - 1;
      var before, v := events[..n], events[n];
      assert Untold(before);
      NothingGuessedWithdrawn(cfg, before, s);
      if Withdraws(Play(cfg, before), v, s) {
        assert !Named(before, v.id);
        UnnamedIsUnguessed(cfg, before, s);
      }
    }
  }

  /**
   The bound for the application as it stands, where a challenge is withdrawn before its id is told to anybody: mail
   failures cost nothing, and a run that spans T with V right codes compares at most 5 * (T / 60 s + 1 + V) wrong ones.
   */
  lemma GuessesBoundedByTime(cfg: Config, events: seq<Event>, s: Slot)
    requires Clocked(events) && events != [] && Untold(events)
    ensures var k := Count(cfg, events, s);
            var span := events[|events| - 1].now - events[0].now;
            k.wrong <= 5 * (span / 60_000_000 + 1 + k.valid)
  {
    GuessesBounded(cfg, events, s);
    NothingGuessedWithdrawn(cfg, events, s);
  }

  // ---------------------------------------------------------------- single use

  /** Successful issues of a challenge id, and right codes accepted for it, along a run. */
  function IssuesOf(cfg: Config, events: seq<Event>, id: string): (n: nat)
  {
    if events == [] then 0
    else
      var t, v := Play(cfg, events[..|events| - 1]), events[|events| - 1];
      IssuesOf(cfg, events[..|events| - 1], id) + One(v.Issue? && v.id == id && Issues(cfg, t, v, v.slot))
  }

  function SuccessesOf(cfg: Config, events: seq<Event>, id: string): (n: nat)
  {
    if events == [] then 0
    else
      var t, v := Play(cfg, events[..|events| - 1]), events[|events| - 1];
      SuccessesOf(cfg, events[..|events| - 1], id) + One(v.Verify? && v.id == id && Succeeds(cfg, t, v, v.slot))
  }

  /** A challenge with this id is waiting for its code. */
  ghost predicate Waiting(t: Table, id: string)
  {
    exists s :: s in t && t[s].id == id && t[s].consumedAt.None?
  }

  lemma WaitingStep(cfg: Config, t: Table, v: Event, id: string)
    requires TableOk(t)
    ensures v.Verify? && v.id == id && Succeeds(cfg, t, v, v.slot) ==> Waiting(t, id) && !Waiting(After(cfg, t, v), id)
    ensures !(v.Issue? && v.id == id && Issues(cfg, t, v, v.slot)) && Waiting(After(cfg, t, v), id) ==> Waiting(t, id)
  {
    var t' := After(cfg, t, v);
    AfterOk(cfg, t, v);
    if Waiting(t', id) && !(v.Issue? && v.id == id && Issues(cfg, t, v, v.slot)) {
      var s :| s in t' && t'[s].id == id && t'[s].consumedAt.None?;
      assert s in t && t[s].id == id && t[s].consumedAt.None?;
    }
  }

  lemma {:induction false} SingleUseAlong(cfg: Config, events: seq<Event>, id: string)
    ensures SuccessesOf(cfg, events, id) + One(Waiting(Play(cfg, events), id)) <= IssuesOf(cfg, events, id)
  {
    if events != [] {
      var before := events[..|events| - 1];
      SingleUseAlong(cfg, before, id);
      ReachableOk(cfg, before);
      WaitingStep(cfg, Play(cfg, before), events[|events| - 1], id);
    }
  }

  /** Each issued challenge is accepted at most once over the whole run. */
  lemma SingleUse(cfg: Config, events: seq<Event>, id: string)
    ensures SuccessesOf(cfg, events, id) <= IssuesOf(cfg, events, id)
  {
    SingleUseAlong(cfg, events, id);
  }

  // ---------------------------------------------------------------- only what was issued

  /** The challenge of a slot is what one issue left there, but for its failures and its use. */
  ghost predicate IssuedBy(cfg: Config, c: Challenge, v: Event, s: Slot)
  {
    && v.Issue? && v.slot == s && c.id == v.id && c.digest == cfg.digest(v.id, v.code) && c.createdAt == v.now
    && c.expiresAt <= v.now + 900_000_000
  }

  lemma {:induction false} RowWasIssued(cfg: Config, events: seq<Event>, s: Slot)
    requires s in Play(cfg, events)
    ensures exists k :: 0 <= k < |events| && IssuedBy(cfg, Play(cfg, events)[s], events[k], s)
  {
    var n := |events| - 1;
    var before := Play(cfg, events[..n]);
    var t := Play(cfg, events);
    if !IssuedBy(cfg, t[s], events[n], s) {
      SameChallenge(cfg, before, events[n], s);
      RowWasIssued(cfg, events[..n], s);
      var k :| 0 <= k < n && IssuedBy(cfg, before[s], events[..n][k], s);
      assert events[..n][k] == events[k];
    }
  }

  lemma SameChallenge(cfg: Config, t: Table, v: Event, s: Slot)
    requires s in After(cfg, t, v) && !IssuedBy(cfg, After(cfg, t, v)[s], v, s)
    ensures s in t
    ensures var c, c' := t[s], After(cfg, t, v)[s];
            c'.id == c.id && c'.digest == c.digest && c'.createdAt == c.createdAt && c'.expiresAt == c.expiresAt
  {
  }

  /**
   If no two codes share a digest under one id, the only code that verifies is the one issued under that id to that
   user for that purpose, and within fifteen minutes of its issue.
   */
  lemma OnlyTheIssuedCode(cfg: Config, events: seq<Event>, id: string, s: Slot, code: string, now: Instant)
    requires forall a: string, b: string :: cfg.digest(id, a) == cfg.digest(id, b) ==> a == b
    requires VerifyVerdict(cfg, Play(cfg, events), id, s, code, now).Valid?
    ensures exists k :: 0 <= k < |events| && events[k].Issue? && events[k].slot == s && events[k].id == id &&
              events[k].code == code && now < events[k].now + 900_000_000
  {
    RowWasIssued(cfg, events, s);
    var k :| 0 <= k < |events| && IssuedBy(cfg, Play(cfg, events)[s], events[k], s);
    assert cfg.digest(id, code) == cfg.digest(id, events[k].code);
  }
}
