/**
 The election protocol as a transition system whose steps are whole handler calls, and what holds in
 every state it can reach from an empty database.
 */
module Lifecycle {
  import opened Common
  import opened Elections
  import opened Tally

  /** One handler call: the step's effect when every guard holds, otherwise nothing. */
  ghost function Next(env: Env, s: Database, step: Step): (s': Database)
    requires RegionsOk(s)
    ensures RegionsOk(s') && s'.regions == s.regions
  {
    if Enabled(env, s, step)
    then Effect(env, s, step, if step.SignResults? then Recount(s, step.id) else [])
    else s
  }

  /** A run: the steps one after the other. */
  ghost function Exec(env: Env, s: Database, steps: seq<Step>): (s': Database)
    requires RegionsOk(s)
    ensures RegionsOk(s') && s'.regions == s.regions
  {
    if steps == [] then s else Next(env, Exec(env, s, steps[..|steps| - 1]), steps[|steps| - 1])
  }

  // ---------------------------------------------------------------- the invariant

  predicate Live(s: Database, e: ElectionId)
  {
    e in s.elections && s.elections[e].status != Draft
  }

  function NullifiersOf(s: Database, e: ElectionId): (n: set<(ElectionId, string)>)
  {
    set p | p in s.nullifiers && p.0 == e
  }

  function ReceiptsOf(s: Database, e: ElectionId): (r: set<(UserId, ElectionId)>)
  {
    set p | p in s.receipts && p.1 == e
  }

  function TokensOf(s: Database, e: ElectionId): (r: set<(UserId, ElectionId)>)
  {
    set p | p in s.tokens && p.1 == e
  }

  /** Foreign keys, and nothing but a roster hangs off a draft election. */
  ghost predicate RowsOk(s: Database)
  {
    && RegionsOk(s)
    && (forall c :: c in s.candidates ==> s.candidates[c].election in s.elections)
    && VotesReferToRoster(s)
    && (forall t :: t in s.votes ==> Live(s, s.votes[t].election))
    && (forall p :: p in s.tokens ==> Live(s, p.1))
    && (forall p :: p in s.receipts ==> Live(s, p.1))
    && (forall p :: p in s.nullifiers ==> Live(s, p.0))
    && (forall e :: e in s.results ==> HasStatus(s, e, Closed))
  }

  ghost predicate AtMostOneOpen(s: Database)
  {
    forall e, f :: HasStatus(s, e, Open) && HasStatus(s, f, Open) ==> e == f
  }

  /**
   An anchor names the published key. An election without one, as a legacy election may still be after it was
   opened, has issued and spent nothing.
   */
  predicate KeySound(env: Env, s: Database, e: ElectionId)
    requires e in s.elections
  {
    if s.elections[e].keyId.Some? then KeyReady(env, s, e)
    else (forall p :: p in s.tokens ==> p.1 != e) && (forall p :: p in s.nullifiers ==> p.0 != e)
  }

  /** An election that left draft has a single-contest roster and sound keys. */
  ghost predicate LiveOk(env: Env, s: Database)
  {
    forall e :: Live(s, e) ==> Uniform(s, e) && KeySound(env, s, e)
  }

  /** No legacy election is waiting for its anchor. */
  ghost predicate AllAnchored(s: Database)
  {
    forall e :: Live(s, e) ==> s.elections[e].keyId.Some?
  }

  /** Every ballot was paid for by one spent nullifier or one direct receipt, election by election. */
  ghost predicate Balanced(s: Database)
  {
    && s.tokens !! s.receipts
    && forall e :: |VotesIn(s, e)| == |NullifiersOf(s, e)| + |ReceiptsOf(s, e)|
  }

  ghost predicate ResultsStand(s: Database)
    requires RegionsOk(s)
  {
    forall e :: e in s.results ==>
      IsRecount(s, e, s.results[e].rows) && s.results[e].total == |VotesIn(s, e)|
  }

  ghost predicate Inv(env: Env, s: Database)
  {
    RowsOk(s) && AtMostOneOpen(s) && LiveOk(env, s) && Balanced(s) && ResultsStand(s)
  }

  // ---------------------------------------------------------------- what a step leaves alone

  /** The election's roster, published key and anchor, once there, are as they were; its status did not move back. */
  ghost predicate Frozen(s: Database, s': Database, e: ElectionId)
  {
    && Live(s, e) && Live(s', e)
    && (s.elections[e].status == Closed ==> s'.elections[e].status == Closed)
    && Roster(s', e) == Roster(s, e)
    && (forall c :: c in Roster(s, e) ==> s'.candidates[c] == s.candidates[c])
    && (s.elections[e].keyId.Some? ==> s'.elections[e].keyId == s.elections[e].keyId)
    && (e in s.keys ==> e in s'.keys && s'.keys[e] == s.keys[e])
    && s'.elections[e].name == s.elections[e].name
    && s'.elections[e].recoveryRequired == s.elections[e].recoveryRequired
  }

  lemma StepKeepsRoster(env: Env, s: Database, step: Step, e: ElectionId)
    requires RegionsOk(s) && Live(s, e)
    ensures var s' := Next(env, s, step);
            && Roster(s', e) == Roster(s, e)
            && forall c :: c in Roster(s, e) ==> s'.candidates[c] == s.candidates[c]
  {
    var s' := Next(env, s, step);
    if Enabled(env, s, step) && (step.CreateCandidate? || step.UpdateCandidate? || step.DeleteCandidate?) {
      var e' := Target(env, step).value;
      assert HasStatus(s, e', Draft) && e' != e;
      forall c ensures c in Roster(s', e) <==> c in Roster(s, e) {
      }
    } else {
      assert s'.candidates == s.candidates;
    }
  }

  lemma StepKeepsElection(env: Env, s: Database, step: Step, e: ElectionId)
    requires RegionsOk(s) && Live(s, e)
    ensures var s' := Next(env, s, step);
            && Live(s', e)
            && (s.elections[e].status == Closed ==> s'.elections[e].status == Closed)
            && (s.elections[e].keyId.Some? ==> s'.elections[e].keyId == s.elections[e].keyId)
            && s'.elections[e].name == s.elections[e].name
            && s'.elections[e].recoveryRequired == s.elections[e].recoveryRequired
  {
    var s' := Next(env, s, step);
    if Enabled(env, s, step) {
      match step
      case CreateElection(id, _, _, _) => assert id != e;
      case OpenElection(id, _) => assert id != e;
      case CloseElection(_, _) =>
      case AnchorKey(_) =>
      case _ => assert s'.elections == s.elections;
    }
  }

  /** A published key stays published. */
  lemma StepKeepsKeys(env: Env, s: Database, step: Step, e: ElectionId)
    requires RegionsOk(s) && e in s.keys
    ensures var s' := Next(env, s, step); e in s'.keys && s'.keys[e] == s.keys[e]
  {
  }

  /** A step never touches the roster, key or anchor of an election that has left draft. */
  lemma StepFreezes(env: Env, s: Database, step: Step, e: ElectionId)
    requires RegionsOk(s) && Live(s, e)
    ensures Frozen(s, Next(env, s, step), e)
  {
    StepKeepsRoster(env, s, step, e);
    StepKeepsElection(env, s, step, e);
    if e in s.keys {
      StepKeepsKeys(env, s, step, e);
    }
  }

  /** A ballot that a step adds names a roster candidate of a live election. */
  lemma NewBallotInRoster(env: Env, s: Database, step: Step)
    requires RegionsOk(s) && Enabled(env, s, step) && (step.CastBallot? || step.CastDirect?)
    ensures var s' := Next(env, s, step);
            && step.voterToken in s'.votes && s'.votes == s.votes[step.voterToken := s'.votes[step.voterToken]]
            && Live(s, s'.votes[step.voterToken].election)
            && s'.votes[step.voterToken].candidate in Roster(s, s'.votes[step.voterToken].election)
  {
  }

  /** Every ballot after a step was there before or is the one it added. */
  lemma BallotOrigin(env: Env, s: Database, step: Step, t: string)
    requires RegionsOk(s) && VotesReferToRoster(s) && (forall u :: u in s.votes ==> Live(s, s.votes[u].election))
    requires t in Next(env, s, step).votes
    ensures var v := Next(env, s, step).votes[t]; Live(s, v.election) && v.candidate in Roster(s, v.election)
  {
    var s' := Next(env, s, step);
    if Enabled(env, s, step) && (step.CastBallot? || step.CastDirect?) {
      NewBallotInRoster(env, s, step);
    } else if Enabled(env, s, step) && step.DeleteCandidate? {
      assert s'.votes == WithoutBallotsFor(s.votes, step.candidateId);
    } else {
      assert s'.votes == s.votes;
    }
  }

  lemma VoteRowsKept(env: Env, s: Database, step: Step)
    requires RowsOk(s)
    ensures VotesReferToRoster(Next(env, s, step))
    ensures forall t :: t in Next(env, s, step).votes ==> Live(Next(env, s, step), Next(env, s, step).votes[t].election)
  {
    var s' := Next(env, s, step);
    forall t | t in s'.votes
      ensures s'.votes[t].candidate in Roster(s', s'.votes[t].election) && Live(s', s'.votes[t].election)
    {
      BallotOrigin(env, s, step, t);
      StepFreezes(env, s, step, s'.votes[t].election);
    }
  }

  /** Authorisations stay, and new ones are of open elections; tokens and nullifiers need a ready key besides. */
  ghost predicate AuthorisedOnly(env: Env, s: Database, s': Database)
  {
    && s.tokens <= s'.tokens && s.receipts <= s'.receipts && s.nullifiers <= s'.nullifiers
    && (forall p :: p in s'.tokens && p !in s.tokens ==> HasStatus(s, p.1, Open) && KeyReady(env, s, p.1))
    && (forall p :: p in s'.receipts && p !in s.receipts ==> HasStatus(s, p.1, Open))
    && (forall p :: p in s'.nullifiers && p !in s.nullifiers ==> HasStatus(s, p.0, Open) && KeyReady(env, s, p.0))
  }

  lemma AuthorisedAfter(env: Env, s: Database, step: Step)
    requires RegionsOk(s)
    ensures AuthorisedOnly(env, s, Next(env, s, step))
  {
  }

  lemma AuthorisationRowsKept(env: Env, s: Database, step: Step)
    requires RowsOk(s)
    ensures var s' := Next(env, s, step);
            && (forall p :: p in s'.tokens ==> Live(s', p.1))
            && (forall p :: p in s'.receipts ==> Live(s', p.1))
            && (forall p :: p in s'.nullifiers ==> Live(s', p.0))
  {
    var s' := Next(env, s, step);
    AuthorisedAfter(env, s, step);
    forall e | Live(s, e) ensures Live(s', e) {
      StepFreezes(env, s, step, e);
    }
    LiveRows(env, s, s');
  }

  lemma LiveRows(env: Env, s: Database, s': Database)
    requires RowsOk(s) && AuthorisedOnly(env, s, s') && forall e :: Live(s, e) ==> Live(s', e)
    ensures forall p :: p in s'.tokens ==> Live(s', p.1)
    ensures forall p :: p in s'.receipts ==> Live(s', p.1)
    ensures forall p :: p in s'.nullifiers ==> Live(s', p.0)
  {
  }

  lemma RowsKept(env: Env, s: Database, step: Step)
    requires RowsOk(s) && LiveOk(env, s)
    ensures RowsOk(Next(env, s, step))
  {
    var s' := Next(env, s, step);
    VoteRowsKept(env, s, step);
    AuthorisationRowsKept(env, s, step);
    CandidateRowsKept(env, s, step);
    forall e | e in s'.results ensures HasStatus(s', e, Closed) {
      ResultOrigin(env, s, step, e);
      StepFreezes(env, s, step, e);
    }
  }

  /** Results are of elections that were closed before the step. */
  lemma ResultOrigin(env: Env, s: Database, step: Step, e: ElectionId)
    requires RegionsOk(s) && (forall f :: f in s.results ==> HasStatus(s, f, Closed)) && e in Next(env, s, step).results
    ensures HasStatus(s, e, Closed)
    ensures e !in s.results ==>
              && step.SignResults? && step.id == e && Enabled(env, s, step)
              && Next(env, s, step).results[e].rows == Recount(s, e)
              && Next(env, s, step).results[e].total == Total(Recount(s, e))
    ensures e in s.results ==> Next(env, s, step).results[e] == s.results[e]
  {
  }

  lemma CandidateRowsKept(env: Env, s: Database, step: Step)
    requires RowsOk(s)
    ensures var s' := Next(env, s, step); forall c :: c in s'.candidates ==> s'.candidates[c].election in s'.elections
  {
  }

  lemma OneOpenKept(env: Env, s: Database, step: Step)
    requires RegionsOk(s) && AtMostOneOpen(s)
    ensures AtMostOneOpen(Next(env, s, step))
  {
    var s' := Next(env, s, step);
    forall e | HasStatus(s', e, Open)
      ensures HasStatus(s, e, Open) || (step.OpenElection? && step.id == e && Enabled(env, s, step))
    {
    }
  }

  lemma UniformFrame(s: Database, s': Database, e: ElectionId)
    requires Uniform(s, e) && Roster(s', e) == Roster(s, e)
    requires forall c :: c in Roster(s, e) ==> s'.candidates[c] == s.candidates[c]
    ensures Uniform(s', e)
  {
  }

  /** An anchor appears only with the fingerprint of the published key. */
  lemma AnchorIsReady(env: Env, s: Database, step: Step, e: ElectionId)
    requires RegionsOk(s) && Live(s, e) && s.elections[e].keyId.None?
    ensures var s' := Next(env, s, step); Live(s', e) && s'.elections[e].keyId.Some? ==> KeyReady(env, s', e)
  {
    var s' := Next(env, s, step);
    if Enabled(env, s, step) && step.AnchorKey? {
      assert s'.keys == s.keys;
    } else {
      StepKeepsAnchor(env, s, step, e);
    }
  }

  lemma StepKeepsAnchor(env: Env, s: Database, step: Step, e: ElectionId)
    requires RegionsOk(s) && Live(s, e) && !(Enabled(env, s, step) && step.AnchorKey?)
    ensures var s' := Next(env, s, step); Live(s', e) && s'.elections[e].keyId == s.elections[e].keyId
  {
  }

  /** Authorisations and nullifiers need an anchored key, and an anchor is written only where there are none. */
  lemma KeySoundFrame(env: Env, s: Database, s': Database, e: ElectionId)
    requires Live(s, e) && KeySound(env, s, e) && Frozen(s, s', e) && AuthorisedOnly(env, s, s')
    requires s.elections[e].keyId.None? && s'.elections[e].keyId.Some? ==> KeyReady(env, s', e)
    ensures KeySound(env, s', e)
  {
  }

  lemma KeySoundKept(env: Env, s: Database, step: Step, e: ElectionId)
    requires RegionsOk(s) && Live(s, e) && KeySound(env, s, e) && Frozen(s, Next(env, s, step), e)
    ensures KeySound(env, Next(env, s, step), e)
  {
    AuthorisedAfter(env, s, step);
    if s.elections[e].keyId.None? {
      AnchorIsReady(env, s, step, e);
    }
    KeySoundFrame(env, s, Next(env, s, step), e);
  }

  /** Opening anchors, and no anchor is ever taken away. */
  lemma AnchoredKept(env: Env, s: Database, step: Step)
    requires RegionsOk(s) && AllAnchored(s)
    ensures AllAnchored(Next(env, s, step))
  {
    var s' := Next(env, s, step);
    forall e | Live(s', e) ensures s'.elections[e].keyId.Some? {
      if Live(s, e) {
        StepKeepsElection(env, s, step, e);
      } else {
        assert step == OpenElection(e, step.now);
      }
    }
  }

  /** Only opening makes an election live, and it checks the roster and anchors the key. */
  lemma BecameLive(env: Env, s: Database, step: Step, e: ElectionId)
    requires RegionsOk(s) && !Live(s, e) && Live(Next(env, s, step), e)
    ensures Uniform(Next(env, s, step), e) && KeyReady(env, Next(env, s, step), e)
  {
    var s' := Next(env, s, step);
    assert step == OpenElection(e, step.now) && Enabled(env, s, step);
    assert s'.candidates == s.candidates;
    UniformFrame(s, s', e);
  }

  lemma LiveKept(env: Env, s: Database, step: Step)
    requires RowsOk(s) && LiveOk(env, s)
    ensures LiveOk(env, Next(env, s, step))
  {
    var s' := Next(env, s, step);
    forall e | Live(s', e) ensures Uniform(s', e) && KeySound(env, s', e) {
      if Live(s, e) {
        StepFreezes(env, s, step, e);
        UniformFrame(s, s', e);
        KeySoundKept(env, s, step, e);
      } else {
        BecameLive(env, s, step, e);
      }
    }
  }

  // ---------------------------------------------------------------- conservation of ballots

  lemma AddOneVote(s: Database, s': Database, t: string, v: Vote, e: ElectionId)
    requires t !in s.votes && s'.votes == s.votes[t := v]
    ensures VotesIn(s', e) == if v.election == e then VotesIn(s, e) + {t} else VotesIn(s, e)
    ensures t !in VotesIn(s, e)
  {
  }

  /** Only drafts lose candidates, and drafts have no ballots: the cascade deletes nothing. */
  lemma CascadeDeletesNothing(env: Env, s: Database, step: Step)
    requires RowsOk(s) && step.DeleteCandidate? && Enabled(env, s, step)
    ensures Next(env, s, step).votes == s.votes
  {
    forall t | t in s.votes ensures s.votes[t].candidate != step.candidateId {
      assert s.votes[t].candidate in Roster(s, s.votes[t].election);
    }
    assert WithoutBallotsFor(s.votes, step.candidateId) == s.votes;
  }

  lemma AddOneNullifier(s: Database, s': Database, n: (ElectionId, string), e: ElectionId)
    requires n !in s.nullifiers && s'.nullifiers == s.nullifiers + {n}
    ensures |NullifiersOf(s', e)| == |NullifiersOf(s, e)| + (if n.0 == e then 1 else 0)
  {
    assert NullifiersOf(s', e) == if n.0 == e then NullifiersOf(s, e) + {n} else NullifiersOf(s, e);
  }

  lemma AddOneReceipt(s: Database, s': Database, r: (UserId, ElectionId), e: ElectionId)
    requires r !in s.receipts && s'.receipts == s.receipts + {r}
    ensures |ReceiptsOf(s', e)| == |ReceiptsOf(s, e)| + (if r.1 == e then 1 else 0)
  {
    assert ReceiptsOf(s', e) == if r.1 == e then ReceiptsOf(s, e) + {r} else ReceiptsOf(s, e);
  }

  lemma BalancedForCast(env: Env, s: Database, step: Step, e: ElectionId)
    requires RegionsOk(s) && Balanced(s) && (step.CastBallot? || step.CastDirect?) && Enabled(env, s, step)
    ensures var s' := Next(env, s, step);
            |VotesIn(s', e)| == |NullifiersOf(s', e)| + |ReceiptsOf(s', e)|
  {
    var s' := Next(env, s, step);
    AddOneVote(s, s', step.voterToken, s'.votes[step.voterToken], e);
    if step.CastBallot? {
      var b := Parsed(env, step.ballot).value;
      AddOneNullifier(s, s', (b.election, env.nullifier(b.nonce)), e);
      assert ReceiptsOf(s', e) == ReceiptsOf(s, e);
    } else {
      AddOneReceipt(s, s', (step.user, step.electionId), e);
      assert NullifiersOf(s', e) == NullifiersOf(s, e);
    }
  }

  /** Without a cast, ballots, nullifiers and receipts are as they were. */
  lemma NoCastNoChange(env: Env, s: Database, step: Step)
    requires RowsOk(s) && !(Enabled(env, s, step) && (step.CastBallot? || step.CastDirect?))
    ensures var s' := Next(env, s, step);
            s'.votes == s.votes && s'.nullifiers == s.nullifiers && s'.receipts == s.receipts
  {
    if Enabled(env, s, step) && step.DeleteCandidate? {
      CascadeDeletesNothing(env, s, step);
    }
  }

  /** Tokens and receipts are issued only to voters who have neither. */
  lemma TokensApart(env: Env, s: Database, step: Step)
    requires RegionsOk(s) && s.tokens !! s.receipts
    ensures Next(env, s, step).tokens !! Next(env, s, step).receipts
  {
  }

  lemma BalancedKept(env: Env, s: Database, step: Step)
    requires RowsOk(s) && Balanced(s)
    ensures Balanced(Next(env, s, step))
  {
    var s' := Next(env, s, step);
    TokensApart(env, s, step);
    if Enabled(env, s, step) && (step.CastBallot? || step.CastDirect?) {
      forall e ensures |VotesIn(s', e)| == |NullifiersOf(s', e)| + |ReceiptsOf(s', e)| {
        BalancedForCast(env, s, step, e);
      }
    } else {
      NoCastNoChange(env, s, step);
      BalancedFrame(s, s');
    }
  }

  lemma BalancedFrame(s: Database, s': Database)
    requires Balanced(s) && s'.tokens !! s'.receipts
    requires s'.votes == s.votes && s'.nullifiers == s.nullifiers && s'.receipts == s.receipts
    ensures Balanced(s')
  {
    forall e ensures |VotesIn(s', e)| == |NullifiersOf(s', e)| + |ReceiptsOf(s', e)| {
      assert VotesIn(s', e) == VotesIn(s, e) && NullifiersOf(s', e) == NullifiersOf(s, e);
      assert ReceiptsOf(s', e) == ReceiptsOf(s, e);
    }
  }

  // ---------------------------------------------------------------- results stand

  /** The ballots after a step: one more in an open election, or the same. */
  lemma BallotsAfter(env: Env, s: Database, step: Step)
    requires RowsOk(s)
    ensures var s' := Next(env, s, step);
            || s'.votes == s.votes
            || (&& (step.CastBallot? || step.CastDirect?)
                && step.voterToken !in s.votes && step.voterToken in s'.votes
                && s'.votes == s.votes[step.voterToken := s'.votes[step.voterToken]]
                && HasStatus(s, s'.votes[step.voterToken].election, Open))
  {
    if Enabled(env, s, step) && step.DeleteCandidate? {
      CascadeDeletesNothing(env, s, step);
    }
  }

  lemma ClosedKeepsBallots(env: Env, s: Database, step: Step, e: ElectionId)
    requires RowsOk(s) && HasStatus(s, e, Closed)
    ensures var s' := Next(env, s, step);
            VotesIn(s', e) == VotesIn(s, e) && forall t :: t in VotesIn(s, e) ==> s'.votes[t] == s.votes[t]
  {
    var s' := Next(env, s, step);
    BallotsAfter(env, s, step);
    if s'.votes != s.votes {
      AddOneVote(s, s', step.voterToken, s'.votes[step.voterToken], e);
    }
  }

  lemma ClosedKeepsAuthorisations(env: Env, s: Database, step: Step, e: ElectionId)
    requires RegionsOk(s) && HasStatus(s, e, Closed)
    ensures var s' := Next(env, s, step);
            && TokensOf(s', e) == TokensOf(s, e)
            && ReceiptsOf(s', e) == ReceiptsOf(s, e)
            && NullifiersOf(s', e) == NullifiersOf(s, e)
  {
    var s' := Next(env, s, step);
    if Enabled(env, s, step) && (step.RequestToken? || step.CastBallot? || step.CastDirect?) {
      assert Target(env, step).value != e;
    } else {
      assert s'.tokens == s.tokens && s'.receipts == s.receipts && s'.nullifiers == s.nullifiers;
    }
  }

  /** One result after a step: an old one that still stands, or the count just made. */
  lemma ResultStays(env: Env, s: Database, step: Step, e: ElectionId)
    requires RowsOk(s) && ResultsStand(s) && e in Next(env, s, step).results
    ensures var r := Next(env, s, step).results[e]; IsRecount(s, e, r.rows) && r.total == |VotesIn(s, e)|
    ensures HasStatus(s, e, Closed)
  {
    ResultOrigin(env, s, step, e);
    if e !in s.results {
      TotalIsAllBallots(s, e, Recount(s, e));
    }
  }

  lemma ResultsKept(env: Env, s: Database, step: Step)
    requires RowsOk(s) && ResultsStand(s)
    ensures ResultsStand(Next(env, s, step))
  {
    var s' := Next(env, s, step);
    forall e | e in s'.results
      ensures IsRecount(s', e, s'.results[e].rows) && s'.results[e].total == |VotesIn(s', e)|
    {
      ResultStays(env, s, step, e);
      StepFreezes(env, s, step, e);
      ClosedKeepsBallots(env, s, step, e);
      RecountFrame(s, s', e, s'.results[e].rows);
    }
  }

  // ---------------------------------------------------------------- every reachable state

  lemma InvKept(env: Env, s: Database, step: Step)
    requires Inv(env, s)
    ensures Inv(env, Next(env, s, step))
  {
    RowsKept(env, s, step);
    OneOpenKept(env, s, step);
    LiveKept(env, s, step);
    BalancedKept(env, s, step);
    ResultsKept(env, s, step);
  }

  lemma InvOfEmpty(env: Env, regions: map<RegionId, string>)
    ensures Inv(env, Empty(regions))
  {
    var s := Empty(regions);
    forall e ensures |VotesIn(s, e)| == |NullifiersOf(s, e)| + |ReceiptsOf(s, e)| {
      assert VotesIn(s, e) == {} && NullifiersOf(s, e) == {} && ReceiptsOf(s, e) == {};
    }
  }

  lemma {:induction false} InvAlong(env: Env, s: Database, steps: seq<Step>)
    requires Inv(env, s)
    ensures Inv(env, Exec(env, s, steps))
  {
    if steps != [] {
      InvAlong(env, s, steps[..|steps| - 1]);
      InvKept(env, Exec(env, s, steps[..|steps| - 1]), steps[|steps| - 1]);
    }
  }

  /** Steps from a run can be split off the front. */
  lemma ExecAppend(env: Env, s: Database, a: seq<Step>, b: seq<Step>)
    requires RegionsOk(s)
    ensures Exec(env, s, a + b) == Exec(env, Exec(env, s, a), b)
  {
    FoldAppend(Do(env), s, a, b);
    ExecIsFold(env, s, a);
    ExecIsFold(env, s, a + b);
    ExecIsFold(env, Exec(env, s, a), b);
  }

  ghost function Do(env: Env): (f: (Database, Step) -> Database)
  {
    (s, step) => if RegionsOk(s) then Next(env, s, step) else s
  }

  lemma {:induction false} ExecIsFold(env: Env, s: Database, steps: seq<Step>)
    requires RegionsOk(s)
    ensures Exec(env, s, steps) == Fold(Do(env), s, steps)
  {
    if steps != [] {
      ExecIsFold(env, s, steps[..|steps| - 1]);
    }
  }

  lemma {:induction false} FrozenAlong(env: Env, s: Database, steps: seq<Step>, e: ElectionId)
    requires RegionsOk(s) && Live(s, e)
    ensures Frozen(s, Exec(env, s, steps), e)
  {
    if steps != [] {
      var front := steps[..|steps| - 1];
      FrozenAlong(env, s, front, e);
      StepFreezes(env, Exec(env, s, front), steps[|steps| - 1], e);
    }
  }

  lemma {:induction false} AnchoredAlong(env: Env, s: Database, steps: seq<Step>)
    requires RegionsOk(s) && AllAnchored(s)
    ensures AllAnchored(Exec(env, s, steps))
  {
    if steps != [] {
      AnchoredAlong(env, s, steps[..|steps| - 1]);
      AnchoredKept(env, Exec(env, s, steps[..|steps| - 1]), steps[|steps| - 1]);
    }
  }

  lemma {:induction false} ClosedAlong(env: Env, s: Database, steps: seq<Step>, e: ElectionId)
    requires Inv(env, s) && HasStatus(s, e, Closed)
    ensures var s' := Exec(env, s, steps);
            && HasStatus(s', e, Closed)
            && VotesIn(s', e) == VotesIn(s, e)
            && (forall t :: t in VotesIn(s, e) ==> s'.votes[t] == s.votes[t])
            && TokensOf(s', e) == TokensOf(s, e)
            && ReceiptsOf(s', e) == ReceiptsOf(s, e)
            && NullifiersOf(s', e) == NullifiersOf(s, e)
  {
    if steps != [] {
      var front := steps[..|steps| - 1];
      var mid := Exec(env, s, front);
      ClosedAlong(env, s, front, e);
      InvAlong(env, s, front);
      ClosedKeepsBallots(env, mid, steps[|steps| - 1], e);
      ClosedKeepsAuthorisations(env, mid, steps[|steps| - 1], e);
      StepFreezes(env, mid, steps[|steps| - 1], e);
    }
  }
}
