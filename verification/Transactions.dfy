/**
 The handlers again, as database transactions that interleave: each takes its row locks one after the
 other, reads under them, and commits or aborts at the end. Row locks are shared or exclusive
 (SELECT ... FOR SHARE / FOR UPDATE) and are held until commit or abort.

 Model assumption: a read made after taking the row lock sees the latest committed rows. The user row
 stands for the user and enrolment rows, which every writer of voter eligibility locks exclusively.
 */
module Transactions {
  import opened Common
  import opened Elections
  import opened Tally
  import opened Lifecycle

  datatype Resource = ElectionRow(e: ElectionId) | UserRow(u: UserId) | CandidateRow(c: CandidateId)

  datatype Mode = Shared | Exclusive

  /** A transaction in flight: how many stages it has passed, the locks it holds, and what a signer counted. */
  datatype Txn = Txn(step: Step, stage: nat, held: map<Resource, Mode>, tally: seq<TallyRow>)

  datatype System = System(db: Database, txns: map<int, Txn>)

  datatype Action = Begin(id: int, step: Step) | Advance(id: int) | Abort(id: int) | Commit(id: int)

  const LAST_STAGE: nat := 6

  // ---------------------------------------------------------------- locks

  /** Voting takes the election row shared; every change to an election or its roster takes it exclusively. */
  function ElectionMode(step: Step): (m: Mode)
  {
    if step.RequestToken? || step.CastBallot? || step.CastDirect? then Shared else Exclusive
  }

  /** The locks a transaction asks for on entering a stage. */
  function Requested(env: Env, s: Database, step: Step, stage: nat): (locks: map<Resource, Mode>)
  {
    if stage == 1 && Edited(step).Some? then map[CandidateRow(Edited(step).value) := Exclusive]
    else if stage == 2 && step.OpenElection? then
      (map e | e in s.elections :: ElectionRow(e) := Exclusive) + map[ElectionRow(step.id) := Exclusive]
    else if stage == 2 && Target(env, step).Some? then map[ElectionRow(Target(env, step).value) := ElectionMode(step)]
    else if stage == 3 && Subject(step).Some? then map[UserRow(Subject(step).value) := Exclusive]
    else map[]
  }

  predicate Compatible(a: map<Resource, Mode>, b: map<Resource, Mode>)
  {
    forall r :: r in a && r in b ==> a[r] == Shared && b[r] == Shared
  }

  /** Requests of two voters never wait for each other, at whatever stage either is; one voter's own two do. */
  lemma VotersDoNotBlock(env: Env, s: Database, s': Database, step: Step, step': Step, stage: nat, stage': nat)
    requires step.RequestToken? || step.CastBallot? || step.CastDirect?
    requires step'.RequestToken? || step'.CastBallot? || step'.CastDirect?
    ensures step.CastBallot? || step'.CastBallot? || step.user != step'.user ==>
              Compatible(Requested(env, s, step, stage), Requested(env, s', step', stage'))
    ensures !step.CastBallot? && !step'.CastBallot? && step.user == step'.user ==>
              !Compatible(Requested(env, s, step, 3), Requested(env, s', step', 3))
  {
    VoterLocks(env, s, step, stage);
    VoterLocks(env, s', step', stage');
    if !step.CastBallot? && !step'.CastBallot? && step.user == step'.user {
      assert UserRow(step.user) in Requested(env, s, step, 3) && UserRow(step.user) in Requested(env, s', step', 3);
    }
  }

  /** A voter's request shares an election row, and owns nothing but its own user row. */
  lemma VoterLocks(env: Env, s: Database, step: Step, stage: nat)
    requires step.RequestToken? || step.CastBallot? || step.CastDirect?
    ensures var locks := Requested(env, s, step, stage);
            forall r :: r in locks ==>
              (r.ElectionRow? && locks[r] == Shared) || (!step.CastBallot? && r == UserRow(step.user))
  {
  }

  /** Closing an election waits for the voters under way in it, and they for the closing. */
  lemma ClosingBlocksVoters(env: Env, s: Database, s': Database, step: Step, e: ElectionId, now: int)
    requires step.RequestToken? || step.CastBallot? || step.CastDirect?
    requires Target(env, step) == Some(e)
    ensures !Compatible(Requested(env, s, step, 2), Requested(env, s', CloseElection(e, now), 2))
    ensures !Compatible(Requested(env, s', CloseElection(e, now), 2), Requested(env, s, step, 2))
  {
    assert ElectionRow(e) in Requested(env, s, step, 2);
    assert ElectionRow(e) in Requested(env, s', CloseElection(e, now), 2);
  }

  // ---------------------------------------------------------------- reads

  /** Everything the first `stage` stages read still says yes. */
  predicate Passed(env: Env, s: Database, step: Step, stage: nat)
  {
    && (stage >= 1 ==> CandidateStage(s, step))
    && (stage >= 2 ==> ElectionStage(env, s, step))
    && (stage >= 3 ==> VoterStage(s, step))
    && (stage >= 4 ==> VoterStage(s, step) && RosterStage(env, s, step))
    && (stage >= 5 ==> HistoryStage(s, step))
    && (stage >= 6 ==> KeyStage(env, s, step))
  }

  /** The single read of one stage. */
  predicate Reads(env: Env, s: Database, step: Step, stage: nat)
  {
    match stage
    case 1 => CandidateStage(s, step)
    case 2 => ElectionStage(env, s, step)
    case 3 => VoterStage(s, step)
    case 4 => VoterStage(s, step) && RosterStage(env, s, step)
    case 5 => HistoryStage(s, step)
    case 6 => KeyStage(env, s, step)
    case _ => true
  }

  // ---------------------------------------------------------------- interleavings

  predicate Allowed(env: Env, y: System, a: Action)
  {
    match a
    case Begin(id, _) => id !in y.txns
    case Abort(id) => id in y.txns
    case Advance(id) =>
      && id in y.txns && y.txns[id].stage < LAST_STAGE
      && (forall j :: j in y.txns && j != id ==>
            Compatible(Requested(env, y.db, y.txns[id].step, y.txns[id].stage + 1), y.txns[j].held))
      && Reads(env, y.db, y.txns[id].step, y.txns[id].stage + 1)
    case Commit(id) =>
      id in y.txns && y.txns[id].stage == LAST_STAGE && CommitStage(env, y.db, y.txns[id].step)
  }

  ghost function Advanced(env: Env, s: Database, t: Txn): (t': Txn)
    requires RegionsOk(s)
  {
    Txn(t.step, t.stage + 1, t.held + Requested(env, s, t.step, t.stage + 1),
        if t.stage + 1 == 5 && t.step.SignResults? then Recount(s, t.step.id) else t.tally)
  }

  /** Locks actually held for the stages passed. */
  predicate Holds(env: Env, t: Txn)
  {
    HoldsCandidate(t) && HoldsElection(env, t) && HoldsUser(t)
  }

  predicate HoldsCandidate(t: Txn)
  {
    t.stage >= 1 && Edited(t.step).Some? ==>
      CandidateRow(Edited(t.step).value) in t.held && t.held[CandidateRow(Edited(t.step).value)] == Exclusive
  }

  predicate HoldsElection(env: Env, t: Txn)
  {
    t.stage >= 2 && Target(env, t.step).Some? ==>
      && ElectionRow(Target(env, t.step).value) in t.held
      && t.held[ElectionRow(Target(env, t.step).value)] == ElectionMode(t.step)
  }

  predicate HoldsUser(t: Txn)
  {
    t.stage >= 3 && Subject(t.step).Some? ==>
      UserRow(Subject(t.step).value) in t.held && t.held[UserRow(Subject(t.step).value)] == Exclusive
  }

  ghost predicate TxnOk(env: Env, s: Database, t: Txn)
    requires RegionsOk(s)
  {
    && t.stage <= LAST_STAGE
    && Passed(env, s, t.step, t.stage)
    && Holds(env, t)
    && (t.step.SignResults? && t.stage >= 5 ==> IsRecount(s, t.step.id, t.tally))
  }

  predicate Opening(t: Txn)
  {
    t.step.OpenElection? && t.stage >= 2
  }

  ghost predicate SystemOk(env: Env, y: System)
  {
    && Inv(env, y.db)
    && (forall i :: i in y.txns ==> TxnOk(env, y.db, y.txns[i]))
    && (forall i, j :: i in y.txns && j in y.txns && i != j ==>
          Compatible(y.txns[i].held, y.txns[j].held) && !(Opening(y.txns[i]) && Opening(y.txns[j])))
  }

  // ---------------------------------------------------------------- what a commit may change

  /** The step had the row of election `e` locked exclusively. */
  predicate Owns(env: Env, step: Step, e: ElectionId)
  {
    Target(env, step) == Some(e) && ElectionMode(step) == Exclusive
  }

  /** Election rows change only under their exclusive lock, appear only as drafts, and open only by opening. */
  ghost predicate ElectionFrame(env: Env, s: Database, s': Database, step: Step)
  {
    && (forall e :: e in s.elections ==> e in s'.elections && (Owns(env, step, e) || s'.elections[e] == s.elections[e]))
    && (!step.OpenElection? ==> forall e :: HasStatus(s', e, Open) ==> HasStatus(s, e, Open))
  }

  /** Rosters change only under the exclusive lock of their election, candidates only under their own. */
  ghost predicate RosterFrame(env: Env, s: Database, s': Database, step: Step)
  {
    && s'.regions == s.regions
    && (forall e :: !Owns(env, step, e) ==>
          Roster(s', e) == Roster(s, e) && forall c :: c in Roster(s, e) ==> s'.candidates[c] == s.candidates[c])
    && (forall c :: c in s.candidates && Edited(step) != Some(c) ==>
          c in s'.candidates && s'.candidates[c] == s.candidates[c])
  }

  ghost predicate VoterFrame(s: Database, s': Database, step: Step)
  {
    forall u :: u in s.voters && Subject(step) != Some(u) ==> u in s'.voters && s'.voters[u] == s.voters[u]
  }

  /** Authorisations and receipts appear only for the locked user and election; results under the exclusive lock. */
  ghost predicate HistoryFrame(env: Env, s: Database, s': Database, step: Step)
  {
    && (forall p :: p in s'.tokens && p !in s.tokens ==> Subject(step) == Some(p.0) && Target(env, step) == Some(p.1))
    && (forall p :: p in s'.receipts && p !in s.receipts ==>
        Subject(step) == Some(p.0) && Target(env, step) == Some(p.1))
    && (forall e :: e in s'.results && e !in s.results ==> Owns(env, step, e))
  }

  ghost predicate KeyFrame(s: Database, s': Database)
  {
    forall e :: e in s.keys ==> e in s'.keys && s'.keys[e] == s.keys[e]
  }

  ghost predicate Framed(env: Env, s: Database, s': Database, step: Step)
  {
    && ElectionFrame(env, s, s', step) && RosterFrame(env, s, s', step) && VoterFrame(s, s', step)
    && HistoryFrame(env, s, s', step) && KeyFrame(s, s')
  }

  lemma ElectionsFramed(env: Env, s: Database, step: Step)
    requires RegionsOk(s) && Enabled(env, s, step)
    ensures ElectionFrame(env, s, Next(env, s, step), step)
  {
    if !(step.CreateElection? || step.OpenElection? || step.CloseElection? || step.AnchorKey?) {
      ElectionsUntouched(env, s, step);
    } else if step.CreateElection? {
      assert step.id !in s.elections;
    }
  }

  lemma ElectionsUntouched(env: Env, s: Database, step: Step)
    requires RegionsOk(s) && Enabled(env, s, step)
    requires !(step.CreateElection? || step.OpenElection? || step.CloseElection? || step.AnchorKey?)
    ensures Next(env, s, step).elections == s.elections
  {
  }

  lemma CandidatesFramed(env: Env, s: Database, step: Step, c: CandidateId)
    requires RegionsOk(s) && Enabled(env, s, step) && c in s.candidates && Edited(step) != Some(c)
    ensures var s' := Next(env, s, step); c in s'.candidates && s'.candidates[c] == s.candidates[c]
  {
  }

  lemma RosterFramed(env: Env, s: Database, step: Step)
    requires RegionsOk(s) && Enabled(env, s, step)
    ensures RosterFrame(env, s, Next(env, s, step), step)
  {
    var s' := Next(env, s, step);
    forall c | c in s.candidates && Edited(step) != Some(c)
      ensures c in s'.candidates && s'.candidates[c] == s.candidates[c]
    {
      CandidatesFramed(env, s, step, c);
    }
    forall e | !Owns(env, step, e)
      ensures Roster(s', e) == Roster(s, e)
      ensures forall c :: c in Roster(s, e) ==> s'.candidates[c] == s.candidates[c]
    {
      UnownedRosterKept(env, s, step, e);
    }
  }

  lemma UnownedRosterKept(env: Env, s: Database, step: Step, e: ElectionId)
    requires RegionsOk(s) && Enabled(env, s, step) && !Owns(env, step, e)
    ensures var s' := Next(env, s, step);
            Roster(s', e) == Roster(s, e) && forall c :: c in Roster(s, e) ==> s'.candidates[c] == s.candidates[c]
  {
    var s' := Next(env, s, step);
    match step
    case CreateCandidate(_, _, row) => assert row.election != e;
    case UpdateCandidate(_, c, e', _, _, _, _) => assert e' != e;
    case DeleteCandidate(_, c, e') => assert e' != e;
    case _ => assert s'.candidates == s.candidates;
  }

  lemma HistoryFramed(env: Env, s: Database, step: Step)
    requires RegionsOk(s) && Enabled(env, s, step)
    ensures HistoryFrame(env, s, Next(env, s, step), step)
  {
    var s' := Next(env, s, step);
    match step
    case RequestToken(_, _, _, _) => assert s'.results == s.results && s'.receipts == s.receipts;
    case CastDirect(_, _, _, _, _) => assert s'.results == s.results && s'.tokens == s.tokens;
    case SignResults(_, _) => assert s'.tokens == s.tokens && s'.receipts == s.receipts;
    case _ => assert s'.tokens == s.tokens && s'.receipts == s.receipts && s'.results == s.results;
  }

  lemma VotersAndKeysFramed(env: Env, s: Database, step: Step)
    requires RegionsOk(s) && Enabled(env, s, step)
    ensures VoterFrame(s, Next(env, s, step), step) && KeyFrame(s, Next(env, s, step))
  {
    var s' := Next(env, s, step);
    match step
    case SetVoter(_, _) => assert s'.keys == s.keys;
    case ProvisionKey(_, _) => assert s'.voters == s.voters;
    case _ => assert s'.voters == s.voters && s'.keys == s.keys;
  }

  lemma CommitFramed(env: Env, s: Database, step: Step)
    requires RegionsOk(s) && Enabled(env, s, step)
    ensures Framed(env, s, Next(env, s, step), step)
  {
    ElectionsFramed(env, s, step);
    RosterFramed(env, s, step);
    HistoryFramed(env, s, step);
    VotersAndKeysFramed(env, s, step);
  }

  // ---------------------------------------------------------------- reads stay true until commit

  /** The locks of `t` and the committing `t'` say which rows `t'` cannot have touched. */
  ghost predicate Apart(env: Env, t: Txn, t': Txn)
  {
    && Holds(env, t) && Holds(env, t') && t'.stage == LAST_STAGE
    && Compatible(t.held, t'.held) && !(Opening(t) && Opening(t'))
  }

  /** Rows `t` has locked are not rows `t'` owns. */
  lemma LocksSeparate(env: Env, t: Txn, t': Txn)
    requires Apart(env, t, t')
    ensures t.stage >= 1 && Edited(t.step).Some? ==> Edited(t'.step) != Edited(t.step)
    ensures t.stage >= 2 && Target(env, t.step).Some? ==> !Owns(env, t'.step, Target(env, t.step).value)
    ensures t.stage >= 2 && Target(env, t.step).Some? && ElectionMode(t.step) == Exclusive ==>
              Target(env, t'.step) != Target(env, t.step)
    ensures t.stage >= 3 && Subject(t.step).Some? ==> Subject(t'.step) != Subject(t.step)
  {
  }

  lemma ElectionReadStable(env: Env, s: Database, s': Database, t: Txn, t': Txn)
    requires ElectionFrame(env, s, s', t'.step) && Apart(env, t, t') && t.stage >= 2
    requires ElectionStage(env, s, t.step)
    ensures ElectionStage(env, s', t.step)
    ensures Target(env, t.step).Some? ==>
              var e := Target(env, t.step).value;
              e in s.elections && e in s'.elections && s'.elections[e] == s.elections[e]
  {
    LocksSeparate(env, t, t');
    if Target(env, t.step).Some? {
      var e := Target(env, t.step).value;
      assert e in s.elections;
      if t.step.OpenElection? {
        forall j | j in s'.elections && j != e ensures s'.elections[j].status != Open {
          assert HasStatus(s', j, Open) ==> HasStatus(s, j, Open);
        }
      }
    }
  }

  lemma RosterReadStable(env: Env, s: Database, s': Database, t: Txn, t': Txn)
    requires RosterFrame(env, s, s', t'.step) && VoterFrame(s, s', t'.step) && Apart(env, t, t') && t.stage >= 4
    requires CandidateStage(s, t.step) && VoterStage(s, t.step) && RosterStage(env, s, t.step)
    ensures VoterStage(s', t.step) && RosterStage(env, s', t.step)
  {
    LocksSeparate(env, t, t');
    if Target(env, t.step).Some? {
      var e := Target(env, t.step).value;
      assert Roster(s', e) == Roster(s, e);
      if Uniform(s, e) {
        UniformFrame(s, s', e);
      }
    }
  }

  lemma HistoryReadStable(env: Env, s: Database, s': Database, t: Txn, t': Txn)
    requires HistoryFrame(env, s, s', t'.step) && Apart(env, t, t') && t.stage >= 5
    requires HistoryStage(s, t.step)
    ensures HistoryStage(s', t.step)
  {
    LocksSeparate(env, t, t');
  }

  /** While a transaction holds its locks, no other commit can falsify what it has read. */
  lemma ReadsStable(env: Env, s: Database, s': Database, t: Txn, t': Txn)
    requires Framed(env, s, s', t'.step) && Apart(env, t, t')
    requires Passed(env, s, t.step, t.stage)
    ensures Passed(env, s', t.step, t.stage)
  {
    LocksSeparate(env, t, t');
    if t.stage >= 2 { ElectionReadStable(env, s, s', t, t'); }
    if t.stage >= 4 { RosterReadStable(env, s, s', t, t'); }
    if t.stage >= 5 { HistoryReadStable(env, s, s', t, t'); }
  }

  /** What a signer counted under its lock is still the count when another transaction commits. */
  lemma TallyStable(env: Env, s: Database, step: Step, e: ElectionId, rows: seq<TallyRow>)
    requires Inv(env, s) && HasStatus(s, e, Closed) && IsRecount(s, e, rows)
    ensures IsRecount(Next(env, s, step), e, rows)
  {
    ClosedKeepsBallots(env, s, step, e);
    StepFreezes(env, s, step, e);
    RecountFrame(s, Next(env, s, step), e, rows);
  }

  // ---------------------------------------------------------------- every interleaving is serial

  /** A transaction that reached its last stage and meets no constraint violation is enabled as one atomic step. */
  lemma CommitIsAtomicStep(env: Env, y: System, id: int)
    requires SystemOk(env, y) && Allowed(env, y, Commit(id))
    ensures var t := y.txns[id];
            && Enabled(env, y.db, t.step)
            && Effect(env, y.db, t.step, t.tally) == Next(env, y.db, t.step)
  {
    var t := y.txns[id];
    assert TxnOk(env, y.db, t);
    if t.step.SignResults? {
      RecountUnique(y.db, t.step.id, t.tally, Recount(y.db, t.step.id));
    }
  }

  /** One action of the interleaving. A commit writes what the transaction worked out, and does not read again. */
  ghost function Act(env: Env, y: System, a: Action): (y': System)
    requires SystemOk(env, y) && Allowed(env, y, a)
  {
    match a
    case Begin(id, step) => y.(txns := y.txns[id := Txn(step, 0, map[], [])])
    case Abort(id) => y.(txns := y.txns - {id})
    case Advance(id) => y.(txns := y.txns[id := Advanced(env, y.db, y.txns[id])])
    case Commit(id) =>
      CommitIsAtomicStep(env, y, id);
      System(Effect(env, y.db, y.txns[id].step, y.txns[id].tally), y.txns - {id})
  }

  lemma CommitKeepsOk(env: Env, y: System, id: int)
    requires SystemOk(env, y) && Allowed(env, y, Commit(id))
    ensures SystemOk(env, Act(env, y, Commit(id)))
  {
    var y' := Act(env, y, Commit(id));
    var t' := y.txns[id];
    CommitIsAtomicStep(env, y, id);
    InvKept(env, y.db, t'.step);
    forall i | i in y'.txns ensures TxnOk(env, y'.db, y'.txns[i]) {
      TxnStaysOk(env, y, id, i);
    }
  }

  /** A transaction in flight is in order after another one's commit. */
  lemma TxnStaysOk(env: Env, y: System, id: int, i: int)
    requires SystemOk(env, y) && Allowed(env, y, Commit(id)) && i in y.txns && i != id
    requires Enabled(env, y.db, y.txns[id].step)
    ensures TxnOk(env, Next(env, y.db, y.txns[id].step), y.txns[i])
  {
    var t, t' := y.txns[i], y.txns[id];
    assert TxnOk(env, y.db, t) && TxnOk(env, y.db, t');
    CommitFramed(env, y.db, t'.step);
    ReadsStable(env, y.db, Next(env, y.db, t'.step), t, t');
    if t.step.SignResults? && t.stage >= 5 {
      TallyStable(env, y.db, t'.step, t.step.id, t.tally);
    }
  }

  /** Taking the next locks leaves a transaction with the locks of its stages. */
  lemma AdvancedHolds(env: Env, s: Database, t: Txn)
    requires RegionsOk(s) && Holds(env, t)
    ensures Holds(env, Advanced(env, s, t))
  {
    AdvancedHoldsCandidate(env, s, t);
    AdvancedHoldsElection(env, s, t);
    AdvancedHoldsUser(env, s, t);
  }

  lemma AdvancedHoldsCandidate(env: Env, s: Database, t: Txn)
    requires RegionsOk(s) && HoldsCandidate(t)
    ensures HoldsCandidate(Advanced(env, s, t))
  {
  }

  lemma AdvancedHoldsElection(env: Env, s: Database, t: Txn)
    requires RegionsOk(s) && HoldsElection(env, t)
    ensures HoldsElection(env, Advanced(env, s, t))
  {
  }

  lemma AdvancedHoldsUser(env: Env, s: Database, t: Txn)
    requires RegionsOk(s) && HoldsUser(t)
    ensures HoldsUser(Advanced(env, s, t))
  {
  }

  lemma AdvancedPassed(env: Env, s: Database, step: Step, stage: nat)
    requires stage < LAST_STAGE && Passed(env, s, step, stage) && Reads(env, s, step, stage + 1)
    ensures Passed(env, s, step, stage + 1)
  {
  }

  /** Taking the next locks and passing the next read leaves a transaction in order. */
  lemma AdvancedOk(env: Env, s: Database, t: Txn)
    requires RegionsOk(s) && TxnOk(env, s, t) && t.stage < LAST_STAGE && Reads(env, s, t.step, t.stage + 1)
    ensures TxnOk(env, s, Advanced(env, s, t))
  {
    AdvancedHolds(env, s, t);
    AdvancedPassed(env, s, t.step, t.stage);
  }

  lemma AdvancedCompatible(env: Env, y: System, id: int, j: int)
    requires SystemOk(env, y) && Allowed(env, y, Advance(id)) && j in y.txns && j != id
    ensures var t' := Advanced(env, y.db, y.txns[id]);
            && Compatible(t'.held, y.txns[j].held) && Compatible(y.txns[j].held, t'.held)
            && !(Opening(t') && Opening(y.txns[j]))
  {
    var t, o := y.txns[id], y.txns[j];
    assert Compatible(t.held, o.held) && TxnOk(env, y.db, o);
    OpensCollide(env, y.db, t, o);
  }

  lemma AdvanceKeepsOk(env: Env, y: System, id: int)
    requires SystemOk(env, y) && Allowed(env, y, Advance(id))
    ensures SystemOk(env, Act(env, y, Advance(id)))
  {
    var t := y.txns[id];
    AdvancedOk(env, y.db, t);
    forall j | j in y.txns && j != id
      ensures var t' := Advanced(env, y.db, t);
              && Compatible(t'.held, y.txns[j].held) && Compatible(y.txns[j].held, t'.held)
              && !(Opening(t') && Opening(y.txns[j]))
    {
      AdvancedCompatible(env, y, id, j);
    }
  }

  /** Opening locks the whole election table, so it waits for any other opening. */
  lemma OpensCollide(env: Env, s: Database, t: Txn, o: Txn)
    requires Holds(env, o)
    ensures t.step.OpenElection? && Opening(o) && o.step.id in s.elections ==>
              !Compatible(Requested(env, s, t.step, 2), o.held)
  {
    if t.step.OpenElection? && Opening(o) && o.step.id in s.elections {
      var r := ElectionRow(o.step.id);
      assert r in Requested(env, s, t.step, 2) && r in o.held;
    }
  }

  lemma ActKeepsOk(env: Env, y: System, a: Action)
    requires SystemOk(env, y) && Allowed(env, y, a)
    ensures SystemOk(env, Act(env, y, a))
  {
    match a
    case Begin(id, step) =>
      assert TxnOk(env, y.db, Txn(step, 0, map[], []));
    case Abort(id) =>
    case Advance(id) => AdvanceKeepsOk(env, y, id);
    case Commit(id) => CommitKeepsOk(env, y, id);
  }

  /** An action that is blocked or refused leaves the system as it was. */
  ghost function Tried(env: Env, y: System, a: Action): (y': System)
    requires SystemOk(env, y)
    ensures SystemOk(env, y')
  {
    if Allowed(env, y, a) then ActKeepsOk(env, y, a); Act(env, y, a) else y
  }

  /** The step an action commits, if any. */
  ghost function Done(env: Env, y: System, a: Action): (steps: seq<Step>)
    requires SystemOk(env, y)
  {
    if a.Commit? && Allowed(env, y, a) then [y.txns[a.id].step] else []
  }

  lemma TriedDatabase(env: Env, y: System, a: Action)
    requires SystemOk(env, y)
    ensures Tried(env, y, a).db == Exec(env, y.db, Done(env, y, a))
  {
    if a.Commit? && Allowed(env, y, a) {
      CommitIsAtomicStep(env, y, a.id);
      var step := y.txns[a.id].step;
      assert [step][..0] == [];
      assert Exec(env, y.db, [step]) == Next(env, Exec(env, y.db, []), step);
    }
  }

  /** An interleaving: actions in order. */
  ghost function Play(env: Env, y: System, actions: seq<Action>): (y': System)
    requires SystemOk(env, y)
    ensures SystemOk(env, y')
  {
    if actions == [] then y else Tried(env, Play(env, y, actions[..|actions| - 1]), actions[|actions| - 1])
  }

  /** The steps that committed, in commit order. */
  ghost function Committed(env: Env, y: System, actions: seq<Action>): (steps: seq<Step>)
    requires SystemOk(env, y)
  {
    if actions == [] then [] else
      var front := actions[..|actions| - 1];
      Committed(env, y, front) + Done(env, Play(env, y, front), actions[|actions| - 1])
  }

  /**
   Serialisability. Whatever the interleaving of lock, read and commit actions, the committed database
   is the one the same handlers produce when run one at a time in commit order.
   */
  lemma {:induction false} Serialisable(env: Env, y: System, actions: seq<Action>)
    requires SystemOk(env, y)
    ensures Play(env, y, actions).db == Exec(env, y.db, Committed(env, y, actions))
  {
    if actions != [] {
      var front, a := actions[..|actions| - 1], actions[|actions| - 1];
      Serialisable(env, y, front);
      TriedDatabase(env, Play(env, y, front), a);
      ExecAppend(env, y.db, Committed(env, y, front), Done(env, Play(env, y, front), a));
    }
  }

  /** The start: an empty database and nothing in flight. */
  ghost function Quiet(env: Env, regions: map<RegionId, string>): (y: System)
    ensures SystemOk(env, y)
  {
    InvOfEmpty(env, regions);
    System(Empty(regions), map[])
  }

  ghost function Try(env: Env): (f: (System, Action) -> System)
  {
    (y, a) => if SystemOk(env, y) then Tried(env, y, a) else y
  }

  lemma {:induction false} PlayIsFold(env: Env, y: System, actions: seq<Action>)
    requires SystemOk(env, y)
    ensures Play(env, y, actions) == Fold(Try(env), y, actions)
  {
    if actions != [] {
      PlayIsFold(env, y, actions[..|actions| - 1]);
    }
  }

  lemma PlayAppend(env: Env, y: System, a: seq<Action>, b: seq<Action>)
    requires SystemOk(env, y)
    ensures Play(env, y, a + b) == Play(env, Play(env, y, a), b)
  {
    FoldAppend(Try(env), y, a, b);
    PlayIsFold(env, y, a);
    PlayIsFold(env, y, a + b);
    PlayIsFold(env, Play(env, y, a), b);
  }

  /**
   Once a close has committed, no interleaving ever commits another ballot, authorisation, receipt or
   nullifier for that election, whatever was in flight when it closed.
   */
  lemma NothingCommitsAfterClose(env: Env, regions: map<RegionId, string>, before: seq<Action>, after: seq<Action>,
                                 e: ElectionId)
    requires HasStatus(Play(env, Quiet(env, regions), before).db, e, Closed)
    ensures var s := Play(env, Quiet(env, regions), before).db;
            var s' := Play(env, Quiet(env, regions), before + after).db;
            && HasStatus(s', e, Closed)
            && VotesIn(s', e) == VotesIn(s, e)
            && (forall t :: t in VotesIn(s, e) ==> s'.votes[t] == s.votes[t])
            && TokensOf(s', e) == TokensOf(s, e)
            && ReceiptsOf(s', e) == ReceiptsOf(s, e)
            && NullifiersOf(s', e) == NullifiersOf(s, e)
  {
    var y := Play(env, Quiet(env, regions), before);
    PlayAppend(env, Quiet(env, regions), before, after);
    Serialisable(env, y, after);
    ClosedAlong(env, y.db, Committed(env, y, after), e);
  }
}
