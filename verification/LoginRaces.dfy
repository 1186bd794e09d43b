/**
 Login requests that overlap (app/auth.py, app/models.py). A request reads the user row without a lock, passes the
 lock gate on what it read, and, when the password is wrong, writes the counter it read plus one. Two requests
 between gate and write therefore lose an update. Runs here have no success, new password or unlock.
 */
module LoginRaces {
  import opened Common
  import opened L = Lockout

  type RequestId = int

  /** A request past the gate: the row it read, and when it checked the lock. */
  datatype Pending = Pending(seen: Account, checkedAt: Instant)

  datatype World = World(row: Account, pending: map<RequestId, Pending>)

  const START := World(CLEAR, map[])

  datatype Step =
    | Gate(r: RequestId, at: Instant)       // the row is read and the lock checked
    | Record(r: RequestId, at: Instant)     // the password was wrong: the failure is written
    | Leave(r: RequestId, at: Instant)      // the request ends without writing

  /** The UPDATE writes the counter, and the lock only when the request set it. */
  function Written(row: Account, seen: Account, at: Instant): (row': Account)
  {
    var failure := AfterFailure(seen, at);
    Account(failure.failed, if failure.failed >= MAX_ATTEMPTS then failure.lockedUntil else row.lockedUntil)
  }

  function Happen(x: World, v: Step): (x': World)
  {
    match v
    case Gate(r, at) =>
      if LockedAt(x.row, at) then x.(pending := x.pending - {r})
      else x.(pending := x.pending[r := Pending(x.row, at)])
    case Record(r, at) =>
      if r !in x.pending then x else World(Written(x.row, x.pending[r].seen, at), x.pending - {r})
    case Leave(r, _) => x.(pending := x.pending - {r})
  }

  function Run(steps: seq<Step>): (x: World)
  {
    if steps == [] then START else Happen(Run(steps[..|steps| - 1]), steps[|steps| - 1])
  }

  predicate Records(x: World, v: Step)
  {
    v.Record? && v.r in x.pending
  }

  /** The evaluated wrong passwords, in the order in which they were recorded. */
  function Evaluated(steps: seq<Step>): (w: seq<Event>)
  {
    if steps == [] then []
    else
      var x, v := Run(steps[..|steps| - 1]), steps[|steps| - 1];
      Evaluated(steps[..|steps| - 1]) +
      if Records(x, v) then [Attempt(false, false, x.pending[v.r].checkedAt, v.at)] else []
  }

  /** The recording writes to the account its gate read. */
  predicate Fresh(x: World, v: Step)
  {
    Records(x, v) ==> x.pending[v.r].seen == x.row
  }

  ghost predicate AllFresh(steps: seq<Step>)
  {
    steps == [] || (AllFresh(steps[..|steps| - 1]) && Fresh(Run(steps[..|steps| - 1]), steps[|steps| - 1]))
  }

  ghost predicate Clocked(steps: seq<Step>)
  {
    forall i, j :: 0 <= i <= j < |steps| ==> steps[i].at <= steps[j].at
  }

  /** One request after the other: gate and record together are one attempt of the account. */
  lemma UndisturbedIsAttempt(x: World, r: RequestId, checkedAt: Instant, recordedAt: Instant)
    ensures Happen(Happen(x, Gate(r, checkedAt)), Record(r, recordedAt)).row ==
            After(x.row, Attempt(false, false, checkedAt, recordedAt))
  {
  }

  // ---------------------------------------------------------------- the counter

  /** The counter never runs ahead, and a request with an outdated row has an outdated counter. */
  ghost predicate Behind(x: World, n: nat)
  {
    && x.row.failed <= n
    && (forall r :: r in x.pending ==> x.pending[r].seen == x.row || x.pending[r].seen.failed < n)
  }

  lemma BehindStep(x: World, v: Step, n: nat)
    requires Behind(x, n)
    ensures Behind(Happen(x, v), if Records(x, v) then n + 1 else n)
    ensures Records(x, v) ==>
              (Happen(x, v).row.failed == n + 1 <==> x.row.failed == n && Fresh(x, v))
  {
  }

  lemma {:induction false} CounterAlong(steps: seq<Step>)
    ensures Behind(Run(steps), |Evaluated(steps)|)
    ensures Run(steps).row.failed == |Evaluated(steps)| <==> AllFresh(steps)
  {
    if steps != [] {
      var front, v := steps[..|steps| - 1], steps[|steps| - 1];
      CounterAlong(front);
      BehindStep(Run(front), v, |Evaluated(front)|);
    }
  }

  /**
   Over every interleaving of requests the counter is the number of evaluated wrong passwords if and only if every
   recording wrote to the account its gate had read; once an update is lost the counter never catches up.
   */
  lemma CounterExactIff(steps: seq<Step>)
    ensures Run(steps).row.failed <= |Evaluated(steps)|
    ensures Run(steps).row.failed == |Evaluated(steps)| <==> AllFresh(steps)
  {
    CounterAlong(steps);
  }

  // ---------------------------------------------------------------- the spacing

  /** Requests in flight: unlocked at their gate, and checked before whatever their row has missed was recorded. */
  ghost predicate InFlight(x: World, w: seq<Event>, now: Instant)
  {
    forall r :: r in x.pending ==>
      var p := x.pending[r];
      && !LockedAt(p.seen, p.checkedAt) && p.checkedAt <= now
      && (p.seen == x.row || (w != [] && w[|w| - 1].Attempt? && p.checkedAt <= w[|w| - 1].recordedAt))
  }

  ghost predicate Recorded(x: World, v: Step, w: seq<Event>, w': seq<Event>)
  {
    w' == w + if Records(x, v) then [Attempt(false, false, x.pending[v.r].checkedAt, v.at)] else []
  }

  lemma InFlightStep(x: World, v: Step, w: seq<Event>, w': seq<Event>, now: Instant)
    requires InFlight(x, w, now) && now <= v.at && Recorded(x, v, w, w')
    ensures InFlight(Happen(x, v), w', v.at)
  {
  }

  lemma {:induction false} InFlightAlong(steps: seq<Step>)
    requires Clocked(steps) && steps != []
    ensures InFlight(Run(steps), Evaluated(steps), steps[|steps| - 1].at)
  {
    var n := |steps| - 1;
    var front := steps[..n];
    if n > 0 {
      assert Clocked(front) && front[n - 1] == steps[n - 1];
      InFlightAlong(front);
      InFlightStep(Run(front), steps[n], Evaluated(front), Evaluated(steps), steps[n - 1].at);
    } else {
      assert front == [] && Run(front) == START && Evaluated(front) == [];
      InFlightStep(START, steps[n], [], Evaluated(steps), steps[n].at);
    }
  }

  /** A fresh recording continues a spaced account; a stale one, once five are recorded, breaks the spacing. */
  lemma SpacingStep(x: World, v: Step, w: seq<Event>, w': seq<Event>, now: Instant)
    requires InFlight(x, w, now) && now <= v.at && Recorded(x, v, w, w') && Remembers(x.row, w)
    ensures Fresh(x, v) ==> Remembers(Happen(x, v).row, w')
    ensures !Fresh(x, v) && |w| >= MAX_ATTEMPTS ==> !Spaced(w')
  {
    if Records(x, v) {
      var p := x.pending[v.r];
      if Fresh(x, v) {
        RememberedStep(x.row, w, Attempt(false, false, p.checkedAt, v.at));
      } else if |w| >= MAX_ATTEMPTS {
        assert w'[|w|].checkedAt == p.checkedAt && w'[|w| - 1] == w[|w| - 1];
        assert !GapBefore(w', |w|);
      }
    } else {
      assert w' == w;
    }
  }

  /** Without lost updates overlapping requests are spaced like requests one after the other. */
  lemma {:induction false} FreshIsSpaced(steps: seq<Step>)
    requires Clocked(steps) && AllFresh(steps)
    ensures Remembers(Run(steps).row, Evaluated(steps))
  {
    if steps != [] {
      var n := |steps| - 1;
      var front := steps[..n];
      assert Clocked(front);
      FreshIsSpaced(front);
      if n > 0 {
        InFlightAlong(front);
        assert front[n - 1] == steps[n - 1];
        SpacingStep(Run(front), steps[n], Evaluated(front), Evaluated(steps), steps[n - 1].at);
      } else {
        SpacingStep(START, steps[n], [], Evaluated(steps), steps[n].at);
      }
    }
  }

  lemma StaysUnspaced(w: seq<Event>, more: seq<Event>)
    requires !Spaced(w)
    ensures !Spaced(w + more)
  {
    if Spaced(w + more) {
      SpacedPrefix(w, w + more);
    }
  }

  lemma SpacedPrefix(w: seq<Event>, all: seq<Event>)
    requires Spaced(all) && w <= all
    ensures Spaced(w)
  {
    forall i | 0 <= i < |w| ensures w[i].Attempt? && w[i].checkedAt <= w[i].recordedAt {
      assert all[i] == w[i];
    }
    forall i | MAX_ATTEMPTS <= i < |w| ensures GapBefore(w, i) {
      assert GapBefore(all, i) && all[i] == w[i] && all[i - 1] == w[i - 1];
    }
  }

  /**
   From the fifth wrong password on, the thirty-minute spacing of a run holds if and only if every recording writes
   to the account its gate read.
   */
  lemma {:induction false} SpacedIffFresh(before: seq<Step>, after: seq<Step>)
    requires Clocked(before + after) && AllFresh(before) && |Evaluated(before)| >= MAX_ATTEMPTS
    ensures |Evaluated(before + after)| >= MAX_ATTEMPTS
    ensures Spaced(Evaluated(before + after)) <==> AllFresh(before + after)
  {
    var all := before + after;
    if after == [] {
      assert all == before;
      FreshIsSpaced(before);
    } else {
      var n := |all| - 1;
      var shorter := after[..|after| - 1];
      var front := all[..n];
      assert front == before + shorter;
      assert Clocked(front) && front != [] && front[n - 1] == all[n - 1];
      SpacedIffFresh(before, shorter);
      var w, w' := Evaluated(front), Evaluated(all);
      if AllFresh(front) {
        FreshIsSpaced(front);
        InFlightAlong(front);
        SpacingStep(Run(front), all[n], w, w', all[n - 1].at);
      } else {
        assert w' == w + w'[|w|..];
        StaysUnspaced(w, w'[|w|..]);
      }
    }
  }

  // ---------------------------------------------------------------- two requests are enough

  lemma Then(steps: seq<Step>, v: Step)
    ensures Run(steps + [v]) == Happen(Run(steps), v)
    ensures Recorded(Run(steps), v, Evaluated(steps), Evaluated(steps + [v]))
    ensures AllFresh(steps + [v]) <==> AllFresh(steps) && Fresh(Run(steps), v)
  {
    assert (steps + [v])[..|steps|] == steps;
  }

  /** Wrong passwords one after the other, all at one moment. */
  function Sequential(n: nat, t: Instant): (steps: seq<Step>)
    ensures forall i :: 0 <= i < |steps| ==> steps[i].at == t
  {
    if n == 0 then [] else Sequential(n - 1, t) + [Gate(1, t)] + [Record(1, t)]
  }

  lemma {:induction false} SequentialCounts(n: nat, t: Instant)
    requires n < MAX_ATTEMPTS
    ensures Run(Sequential(n, t)) == World(Account(n, None), map[])
    ensures AllFresh(Sequential(n, t)) && |Evaluated(Sequential(n, t))| == n
  {
    if n > 0 {
      var before := Sequential(n - 1, t);
      SequentialCounts(n - 1, t);
      Then(before, Gate(1, t));
      Then(before + [Gate(1, t)], Record(1, t));
    }
  }

  /** After four wrong passwords, two requests that pass the gate together. */
  function Overlapping(t: Instant): (steps: seq<Step>)
  {
    Sequential(4, t) + [Gate(1, t)] + [Gate(2, t)] + [Record(1, t)] + [Record(2, t)]
  }

  /** The input at which the spacing fails: six wrong passwords are evaluated at one moment. */
  lemma TwoRequestsOverlap(t: Instant)
    ensures |Evaluated(Overlapping(t))| == 6 && !Spaced(Evaluated(Overlapping(t))) && !AllFresh(Overlapping(t))
  {
    var s0 := Sequential(4, t);
    var s1 := s0 + [Gate(1, t)];
    var s2 := s1 + [Gate(2, t)];
    var s3 := s2 + [Record(1, t)];
    SequentialCounts(4, t);
    Then(s0, Gate(1, t));
    Then(s1, Gate(2, t));
    Then(s2, Record(1, t));
    Then(s3, Record(2, t));
    SpacedIffFresh(s3, [Record(2, t)]);
  }
}
