/**
 What the election protocol promises its voters and managers, as statements about every run from an
 empty database.
 */
module Guarantees {
  import opened Common
  import opened Elections
  import opened Tally
  import opened Lifecycle
  import opened NumberTheory
  import BS = BlindSignature
  import T = Transactions
  import Requirements

  // ---------------------------------------------------------------- lifecycle

  /** The state after a run from an empty database with the given regions. */
  ghost function Reached(env: Env, regions: map<RegionId, string>, steps: seq<Step>): (s: Database)
    ensures RegionsOk(s)
  {
    Exec(env, Empty(regions), steps)
  }

  lemma ReachedInv(env: Env, regions: map<RegionId, string>, steps: seq<Step>)
    ensures Inv(env, Reached(env, regions, steps)) && AllAnchored(Reached(env, regions, steps))
  {
    InvOfEmpty(env, regions);
    InvAlong(env, Empty(regions), steps);
    AnchoredAlong(env, Empty(regions), steps);
  }

  function Rank(status: Status): (n: nat)
  {
    match status case Draft => 0 case Open => 1 case Closed => 2
  }

  lemma RankStep(env: Env, s: Database, step: Step, e: ElectionId)
    requires RegionsOk(s) && e in s.elections
    ensures e in Next(env, s, step).elections
    ensures Rank(s.elections[e].status) <= Rank(Next(env, s, step).elections[e].status)
  {
    var s' := Next(env, s, step);
    if Enabled(env, s, step) {
      match step
      case CreateElection(id, _, _, _) => assert id != e;
      case OpenElection(_, _) =>
      case CloseElection(_, _) =>
      case AnchorKey(_) =>
      case _ => assert s'.elections == s.elections;
    }
  }

  lemma {:induction false} RankAlong(env: Env, s: Database, steps: seq<Step>, e: ElectionId)
    requires RegionsOk(s) && e in s.elections
    ensures e in Exec(env, s, steps).elections
    ensures Rank(s.elections[e].status) <= Rank(Exec(env, s, steps).elections[e].status)
  {
    if steps != [] {
      RankAlong(env, s, steps[..|steps| - 1], e);
      RankStep(env, Exec(env, s, steps[..|steps| - 1]), steps[|steps| - 1], e);
    }
  }

  /**
   The lifecycle of elections over every run: at most one is open; whatever has left draft keeps a
   single-contest roster and the signing key its anchor names, unchanged from then on; status only moves
   forward; and a draft election has no ballots, so deleting its candidates cascades into nothing.
   */
  lemma LifecycleHolds(env: Env, regions: map<RegionId, string>, before: seq<Step>, after: seq<Step>, e: ElectionId)
    ensures var s := Reached(env, regions, before);
            var s' := Reached(env, regions, before + after);
            && AtMostOneOpen(s')
            && (e in s.elections ==>
                  e in s'.elections && Rank(s.elections[e].status) <= Rank(s'.elections[e].status))
            && (Live(s, e) ==> Frozen(s, s', e) && Uniform(s', e) && KeyReady(env, s', e))
            && (HasStatus(s, e, Draft) ==> VotesIn(s, e) == {} && TokensOf(s, e) == {})
  {
    var s := Reached(env, regions, before);
    ExecAppend(env, Empty(regions), before, after);
    ReachedInv(env, regions, before);
    ReachedInv(env, regions, before + after);
    if e in s.elections {
      RankAlong(env, s, after, e);
    }
    if Live(s, e) {
      FrozenAlong(env, s, after, e);
    }
  }

  /** No candidate deletion in any run ever destroys a ballot. */
  lemma DeletionSparesBallots(env: Env, regions: map<RegionId, string>, steps: seq<Step>, deletion: Step)
    requires deletion.DeleteCandidate?
    ensures Reached(env, regions, steps + [deletion]).votes == Reached(env, regions, steps).votes
  {
    var s := Reached(env, regions, steps);
    ReachedInv(env, regions, steps);
    assert (steps + [deletion])[..|steps|] == steps;
    if Enabled(env, s, deletion) {
      CascadeDeletesNothing(env, s, deletion);
    }
  }

  // ---------------------------------------------------------------- results

  /**
   Once a result is signed it stands: in every later state the election still has exactly that result,
   its rows are a fresh recount of the ballots then on file, and its total is their number.
   */
  lemma SignedResultStands(env: Env, regions: map<RegionId, string>, before: seq<Step>, after: seq<Step>,
                           e: ElectionId)
    requires e in Reached(env, regions, before).results
    ensures var r := Reached(env, regions, before).results[e];
            var s' := Reached(env, regions, before + after);
            && e in s'.results && s'.results[e] == r
            && r.rows == Recount(s', e)
            && r.total == |VotesIn(s', e)| == Total(r.rows)
  {
    var s := Reached(env, regions, before);
    var s' := Reached(env, regions, before + after);
    ExecAppend(env, Empty(regions), before, after);
    ReachedInv(env, regions, before);
    ReachedInv(env, regions, before + after);
    ResultAlong(env, s, after, e);
    RecountUnique(s', e, s'.results[e].rows, Recount(s', e));
    TotalIsAllBallots(s', e, s'.results[e].rows);
  }

  lemma ResultStep(env: Env, s: Database, step: Step, e: ElectionId)
    requires RegionsOk(s) && e in s.results
    ensures e in Next(env, s, step).results && Next(env, s, step).results[e] == s.results[e]
  {
    if Enabled(env, s, step) && step.SignResults? {
      assert step.id != e;
    } else {
      assert Next(env, s, step).results == s.results;
    }
  }

  lemma {:induction false} ResultAlong(env: Env, s: Database, steps: seq<Step>, e: ElectionId)
    requires RegionsOk(s) && e in s.results
    ensures e in Exec(env, s, steps).results && Exec(env, s, steps).results[e] == s.results[e]
  {
    if steps != [] {
      ResultAlong(env, s, steps[..|steps| - 1], e);
      ResultStep(env, Exec(env, s, steps[..|steps| - 1]), steps[|steps| - 1], e);
    }
  }

  // ---------------------------------------------------------------- one voter, one vote

  /** The ballots, with their elections, that casting accepted during a run. */
  ghost function Redeemed(env: Env, s: Database, steps: seq<Step>): (b: set<(ElectionId, seq<Byte>)>)
    requires RegionsOk(s)
  {
    if steps == [] then {} else
      var front, last := steps[..|steps| - 1], steps[|steps| - 1];
      Redeemed(env, s, front) +
      if last.CastBallot? && Enabled(env, Exec(env, s, front), last)
      then {(Parsed(env, last.ballot).value.election, last.ballot)} else {}
  }

  ghost function RedeemedIn(env: Env, s: Database, steps: seq<Step>, e: ElectionId): (b: set<(ElectionId, seq<Byte>)>)
    requires RegionsOk(s)
  {
    set p | p in Redeemed(env, s, steps) && p.0 == e
  }

  /** How many blind signatures were issued under one election's key during a run. */
  ghost function Issued(env: Env, s: Database, steps: seq<Step>, e: ElectionId): (n: nat)
    requires RegionsOk(s)
  {
    if steps == [] then 0 else
      var front, last := steps[..|steps| - 1], steps[|steps| - 1];
      Issued(env, s, front, e) +
      if last.RequestToken? && last.electionId == e && Enabled(env, Exec(env, s, front), last) then 1 else 0
  }

  lemma IssueStep(env: Env, s: Database, step: Step, e: ElectionId)
    requires RegionsOk(s)
    ensures |TokensOf(Next(env, s, step), e)| == |TokensOf(s, e)| +
            if step.RequestToken? && step.electionId == e && Enabled(env, s, step) then 1 else 0
  {
    TokensAfter(env, s, step);
    if step.RequestToken? && Enabled(env, s, step) {
      AddOneToken(s, Next(env, s, step), (step.user, step.electionId), e);
    }
  }

  lemma TokensAfter(env: Env, s: Database, step: Step)
    requires RegionsOk(s)
    ensures var s' := Next(env, s, step);
            if step.RequestToken? && Enabled(env, s, step)
            then (step.user, step.electionId) !in s.tokens && s'.tokens == s.tokens + {(step.user, step.electionId)}
            else s'.tokens == s.tokens
  {
  }

  lemma AddOneToken(s: Database, s': Database, t: (UserId, ElectionId), e: ElectionId)
    requires t !in s.tokens && s'.tokens == s.tokens + {t}
    ensures |TokensOf(s', e)| == |TokensOf(s, e)| + (if t.1 == e then 1 else 0)
  {
    assert TokensOf(s', e) == if t.1 == e then TokensOf(s, e) + {t} else TokensOf(s, e);
  }

  /** Every issued signature left exactly one token row. */
  lemma {:induction false} IssuedIsTokens(env: Env, regions: map<RegionId, string>, steps: seq<Step>, e: ElectionId)
    ensures Issued(env, Empty(regions), steps, e) == |TokensOf(Reached(env, regions, steps), e)|
  {
    if steps == [] {
      assert TokensOf(Empty(regions), e) == {};
    } else {
      IssuedIsTokens(env, regions, steps[..|steps| - 1], e);
      IssueStep(env, Reached(env, regions, steps[..|steps| - 1]), steps[|steps| - 1], e);
    }
  }

  /** Accepted ballots have their nullifier on file. */
  ghost predicate Spent(env: Env, s: Database, b: set<(ElectionId, seq<Byte>)>)
  {
    forall p :: p in b ==>
      Parsed(env, p.1).Some? && (p.0, env.nullifier(Parsed(env, p.1).value.nonce)) in s.nullifiers
  }

  lemma NullifiersGrow(env: Env, s: Database, step: Step)
    requires RegionsOk(s)
    ensures Next(env, s, step).nullifiers ==
            s.nullifiers + if step.CastBallot? && Enabled(env, s, step)
                           then var b := Parsed(env, step.ballot).value; {(b.election, env.nullifier(b.nonce))}
                           else {}
  {
  }

  /** One more accepted ballot: a different one from all before, and one more nullifier. */
  lemma RedeemStep(env: Env, s: Database, cast: Step, was: set<(ElectionId, seq<Byte>)>, e: ElectionId)
    requires RegionsOk(s) && cast.CastBallot? && Enabled(env, s, cast) && Spent(env, s, was)
    ensures var b := Parsed(env, cast.ballot).value;
            var s' := Next(env, s, cast);
            && (b.election, cast.ballot) !in was
            && Spent(env, s', was + {(b.election, cast.ballot)})
            && |NullifiersOf(s', e)| == |NullifiersOf(s, e)| + if b.election == e then 1 else 0
  {
    var b := Parsed(env, cast.ballot).value;
    NullifiersGrow(env, s, cast);
    AddOneNullifier(s, Next(env, s, cast), (b.election, env.nullifier(b.nonce)), e);
  }

  /** Each accepted ballot is a different one and spent exactly one nullifier. */
  lemma {:induction false} RedeemedIsNullifiers(env: Env, regions: map<RegionId, string>, steps: seq<Step>,
                                                e: ElectionId)
    ensures Spent(env, Reached(env, regions, steps), Redeemed(env, Empty(regions), steps))
    ensures |RedeemedIn(env, Empty(regions), steps, e)| == |NullifiersOf(Reached(env, regions, steps), e)|
  {
    var s0 := Empty(regions);
    if steps == [] {
      assert RedeemedIn(env, s0, steps, e) == {} && NullifiersOf(s0, e) == {};
    } else {
      var front, last := steps[..|steps| - 1], steps[|steps| - 1];
      var s := Reached(env, regions, front);
      var was := Redeemed(env, s0, front);
      RedeemedIsNullifiers(env, regions, front, e);
      if last.CastBallot? && Enabled(env, s, last) {
        RedeemStep(env, s, last, was, e);
        var p := (Parsed(env, last.ballot).value.election, last.ballot);
        SplitRedeemed(was, p, e);
      } else {
        NullifiersGrow(env, s, last);
        assert Redeemed(env, s0, steps) == was;
      }
    }
  }

  lemma SplitRedeemed(was: set<(ElectionId, seq<Byte>)>, p: (ElectionId, seq<Byte>), e: ElectionId)
    requires p !in was
    ensures |set q | q in was + {p} && q.0 == e| == |set q | q in was && q.0 == e| + if p.0 == e then 1 else 0
  {
    var x := set q | q in was && q.0 == e;
    assert (set q | q in was + {p} && q.0 == e) == if p.0 == e then x + {p} else x;
  }

  /** The voters who hold a token or a receipt for the election. */
  function VotersOf(s: Database, e: ElectionId): (v: set<UserId>)
  {
    set p | p in s.tokens + s.receipts && p.1 == e :: p.0
  }

  lemma {:induction false} ProjectKeepsSize(x: set<(UserId, ElectionId)>, e: ElectionId)
    requires forall p :: p in x ==> p.1 == e
    ensures |set p | p in x :: p.0| == |x|
  {
    var users := set p | p in x :: p.0;
    if x == {} {
      assert users == {};
    } else {
      var q := Pick(x);
      ProjectKeepsSize(x - {q}, e);
      var rest := set p | p in x - {q} :: p.0;
      assert q.0 !in rest;
      assert users == rest + {q.0};
    }
  }

  lemma CountVoters(s: Database, e: ElectionId)
    requires s.tokens !! s.receipts
    ensures |VotersOf(s, e)| == |TokensOf(s, e)| + |ReceiptsOf(s, e)|
  {
    var both := TokensOf(s, e) + ReceiptsOf(s, e);
    ProjectKeepsSize(both, e);
    assert VotersOf(s, e) == set p | p in both :: p.0;
    assert TokensOf(s, e) !! ReceiptsOf(s, e);
  }

  /**
   One voter, one vote. In every state reachable from an empty database each election's ballots are
   exactly its spent nullifiers plus its direct receipts, and no voter holds both a token and a receipt.
   If blind signatures are one-more unforgeable under the election's key, that is, casting never
   accepted more different ballots than were blind-signed for that election, then its ballots never
   outnumber the distinct voters who hold a token or a receipt for that same election.
   */
  lemma OneVoterOneVote(env: Env, regions: map<RegionId, string>, steps: seq<Step>, e: ElectionId)
    ensures var s := Reached(env, regions, steps);
            && |VotesIn(s, e)| == |NullifiersOf(s, e)| + |ReceiptsOf(s, e)|
            && s.tokens !! s.receipts
            && (|RedeemedIn(env, Empty(regions), steps, e)| <= Issued(env, Empty(regions), steps, e)
                ==> |VotesIn(s, e)| <= |VotersOf(s, e)|)
  {
    var s := Reached(env, regions, steps);
    ReachedInv(env, regions, steps);
    IssuedIsTokens(env, regions, steps, e);
    RedeemedIsNullifiers(env, regions, steps, e);
    CountVoters(s, e);
  }

  // ---------------------------------------------------------------- redeemability

  /** The cast of the unblinded ballot that an issued authorisation is good for. */
  function Redemption(key: BS.Key, request: Step, ballot: seq<Byte>, rInv: int, now: int,
                      voterToken: string): (cast: Step)
    requires request.RequestToken? && BS.BlindSign(key, request.blinded).Some?
  {
    assert key.N() > 0;
    CastBallot(ballot, (BS.BlindSign(key, request.blinded).value * rInv) % key.N(), now, voterToken)
  }

  /**
   Every issued authorisation stays redeemable. A voter blinds a well-formed ballot for a roster
   candidate and is issued a signature; then anything else happens, for any number of steps. If the
   election is open at casting time and the nonce is unspent, casting the unblinded ballot is
   accepted, and it adds exactly one ballot for that candidate and one nullifier.
   */
  lemma AuthorisationStaysRedeemable(
      env: Env, s: Database, request: Step, steps: seq<Step>, ballot: seq<Byte>, r: nat, rInv: int,
      now: int, voterToken: string)
    requires Inv(env, s) && request.RequestToken? && Enabled(env, s, request)
    requires s.keys[request.electionId].Valid() && s.keys[request.electionId].N() > 0
    requires var key := s.keys[request.electionId];
             && request.blinded == BS.Blinded(key, BS.HashBallot(env.sha, ballot, key.N()), r)
             && (r * rInv) % key.N() == Gcd(r, key.N()) % key.N()
    requires Parsed(env, ballot).Some? && Parsed(env, ballot).value.election == request.electionId
    requires Parsed(env, ballot).value.candidate in Roster(s, request.electionId)
    requires var later := Exec(env, Next(env, s, request), steps);
             && request.electionId in later.elections && IsOpen(later.elections[request.electionId], now)
             && (request.electionId, env.nullifier(Parsed(env, ballot).value.nonce)) !in later.nullifiers
             && voterToken !in later.votes
    ensures var later := Exec(env, Next(env, s, request), steps);
            var b := Parsed(env, ballot).value;
            var cast := Redemption(s.keys[request.electionId], request, ballot, rInv, now, voterToken);
            var final := Next(env, later, cast);
            && Enabled(env, later, cast)
            && BallotsFor(final, b.election, b.candidate) == BallotsFor(later, b.election, b.candidate) + {voterToken}
            && VotesIn(final, b.election) == VotesIn(later, b.election) + {voterToken}
            && final.nullifiers == later.nullifiers + {(b.election, env.nullifier(b.nonce))}
  {
    var e := request.electionId;
    var key := s.keys[e];
    var s1 := Next(env, s, request);
    var later := Exec(env, s1, steps);
    var b := Parsed(env, ballot).value;
    var cast := Redemption(key, request, ballot, rInv, now, voterToken);
    BS.BlindRoundTrip(env.sha, key, ballot, r, rInv);
    LaterStillReady(env, s, request, steps);
    assert CandidateStage(later, cast) && ElectionStage(env, later, cast);
    assert RosterStage(env, later, cast);
    assert KeyStage(env, later, cast);
    CastEffect(env, later, cast);
  }

  lemma LaterStillReady(env: Env, s: Database, request: Step, steps: seq<Step>)
    requires Inv(env, s) && request.RequestToken? && Enabled(env, s, request)
    ensures var later := Exec(env, Next(env, s, request), steps);
            && KeyReady(env, later, request.electionId)
            && later.keys[request.electionId] == s.keys[request.electionId]
            && Roster(later, request.electionId) == Roster(s, request.electionId)
            && Uniform(later, request.electionId)
  {
    var e := request.electionId;
    assert Live(s, e);
    StepFreezes(env, s, request, e);
    InvKept(env, s, request);
    FrozenAlong(env, Next(env, s, request), steps, e);
    InvAlong(env, Next(env, s, request), steps);
    assert Live(Exec(env, Next(env, s, request), steps), e);
  }

  lemma CastEffect(env: Env, s: Database, cast: Step)
    requires RegionsOk(s) && cast.CastBallot? && Enabled(env, s, cast)
    ensures var b := Parsed(env, cast.ballot).value;
            var s' := Next(env, s, cast);
            && BallotsFor(s', b.election, b.candidate) == BallotsFor(s, b.election, b.candidate) + {cast.voterToken}
            && VotesIn(s', b.election) == VotesIn(s, b.election) + {cast.voterToken}
            && s'.nullifiers == s.nullifiers + {(b.election, env.nullifier(b.nonce))}
  {
  }

  // ---------------------------------------------------------------- who was authorised, and what was accepted

  /** The election is under way at this time: it is open, not quarantined, and the time is within its own bounds. */
  ghost predicate UnderWay(s: Database, e: ElectionId, now: int)
  {
    && e in s.elections && s.elections[e].status == Open && !s.elections[e].recoveryRequired
    && (s.elections[e].openAt.Some? ==> s.elections[e].openAt.value <= now)
    && (s.elections[e].closeAt.Some? ==> now <= s.elections[e].closeAt.value)
  }

  /** Approved, with a verified e-mail and the voter role, and actively enrolled in the region the roster is for. */
  ghost predicate Entitled(s: Database, u: UserId, e: ElectionId)
  {
    && u in s.voters
    && s.voters[u].approved && s.voters[u].emailVerified && s.voters[u].hasVoterRole
    && s.voters[u].enrolment.Some?
    && s.voters[u].enrolment.value.active && s.voters[u].enrolment.value.verified
    && (exists c :: c in s.candidates && s.candidates[c].election == e)
    && (forall c :: c in s.candidates && s.candidates[c].election == e ==>
          s.candidates[c].region == s.voters[u].enrolment.value.region)
  }

  /** The step asked for a token of the election for an entitled voter while it was under way. */
  ghost predicate GrantsToken(s: Database, step: Step, u: UserId, e: ElectionId)
  {
    step.RequestToken? && step.user == u && step.electionId == e && Entitled(s, u, e) && UnderWay(s, e, step.now)
  }

  /** The step stored this vote for an entitled voter, whose receipt went with it. */
  ghost predicate CastsDirectly(s: Database, step: Step, u: UserId, t: string, v: Vote)
  {
    && step.CastDirect? && step.user == u && step.voterToken == t
    && step.electionId == v.election && step.candidateId == v.candidate
    && Entitled(s, u, v.election) && UnderWay(s, v.election, step.now)
    && v.candidate in s.candidates && s.candidates[v.candidate].election == v.election
    && s.candidates[v.candidate].position == v.position
  }

  /** The step stored this vote for a ballot that says so and came with the one signature the anchored key makes. */
  ghost predicate CastsSigned(env: Env, s: Database, step: Step, t: string, v: Vote)
  {
    && step.CastBallot? && step.voterToken == t && UnderWay(s, v.election, step.now)
    && env.parse(step.ballot).Some?
    && env.parse(step.ballot).value.candidate == v.candidate && env.parse(step.ballot).value.election == v.election
    && v.election in s.keys && s.elections[v.election].keyId == Some(env.fingerprint(s.keys[v.election]))
    && (s.keys[v.election].Valid() && s.keys[v.election].N() > 0 ==>
          var key := s.keys[v.election];
          && 0 < step.signature < key.N()
          && step.signature == Pow(BS.HashBallot(env.sha, step.ballot, key.N()), key.d) % key.N())
    && v.candidate in s.candidates && s.candidates[v.candidate].election == v.election
    && s.candidates[v.candidate].position == v.position
  }

  /** A token that was not there before went to an entitled voter. */
  lemma TokenStep(env: Env, s: Database, step: Step, u: UserId, e: ElectionId)
    requires RegionsOk(s) && (u, e) !in s.tokens && (u, e) in Next(env, s, step).tokens
    ensures GrantsToken(s, step, u, e)
  {
    TokensAfter(env, s, step);
    Requirements.Requesting(env, s, u, e, step.blinded, step.now);
  }

  /** An accepted direct cast stores the vote of an entitled voter. */
  lemma DirectStep(env: Env, s: Database, step: Step)
    requires RegionsOk(s) && LiveOk(env, s) && step.CastDirect? && Enabled(env, s, step)
    ensures step.voterToken in Next(env, s, step).votes
    ensures var v := Next(env, s, step).votes[step.voterToken];
            v.election == step.electionId && CastsDirectly(s, step, step.user, step.voterToken, v)
  {
    assert Live(s, step.electionId) && Uniform(s, step.electionId);
  }

  /** A receipt that was not there before went to an entitled voter whose vote was stored with it. */
  lemma ReceiptStep(env: Env, s: Database, step: Step, u: UserId, e: ElectionId)
    requires RegionsOk(s) && LiveOk(env, s) && (u, e) !in s.receipts && (u, e) in Next(env, s, step).receipts
    ensures step.CastDirect? && step.voterToken in Next(env, s, step).votes
    ensures var v := Next(env, s, step).votes[step.voterToken];
            v.election == e && CastsDirectly(s, step, u, step.voterToken, v)
  {
    NewReceipt(env, s, step, u, e);
    DirectStep(env, s, step);
  }

  lemma NewReceipt(env: Env, s: Database, step: Step, u: UserId, e: ElectionId)
    requires RegionsOk(s) && (u, e) !in s.receipts && (u, e) in Next(env, s, step).receipts
    ensures step.CastDirect? && Enabled(env, s, step) && step.user == u && step.electionId == e
  {
  }

  /** A row that somebody had to be entitled to. */
  datatype Row = Token(user: UserId, election: ElectionId) | Receipt(user: UserId, election: ElectionId)
               | Ballot(voterToken: string, vote: Vote)

  /** The step had every right to store the row. */
  ghost predicate Justifies(env: Env, s: Database, step: Step, row: Row)
  {
    match row
    case Token(u, e) => GrantsToken(s, step, u, e)
    case Receipt(u, e) =>
      step.CastDirect? && exists v: Vote :: v.election == e && CastsDirectly(s, step, u, step.voterToken, v)
    case Ballot(t, v) =>
      CastsSigned(env, s, step, t, v) || (step.CastDirect? && CastsDirectly(s, step, step.user, t, v))
  }

  /** One of the steps of the run had every right to store the row. */
  ghost predicate Accounted(env: Env, regions: map<RegionId, string>, steps: seq<Step>, row: Row)
  {
    exists k :: 0 <= k < |steps| && Justifies(env, Reached(env, regions, steps[..k]), steps[k], row)
  }

  /** The row is on file. */
  predicate OnFile(s: Database, row: Row)
  {
    match row
    case Token(u, e) => (u, e) in s.tokens
    case Receipt(u, e) => (u, e) in s.receipts
    case Ballot(t, v) => t in s.votes && s.votes[t] == v
  }

  /** A vote that a step stored was signed for or cast directly; every other vote was there before. */
  lemma VoteStep(env: Env, s: Database, step: Step, t: string)
    requires RegionsOk(s) && LiveOk(env, s) && t in Next(env, s, step).votes
    ensures var v := Next(env, s, step).votes[t];
            (t in s.votes && s.votes[t] == v) || Justifies(env, s, step, Ballot(t, v))
  {
    if (step.CastDirect? || step.CastBallot?) && Enabled(env, s, step) && t == step.voterToken {
      if step.CastDirect? {
        DirectStep(env, s, step);
      } else {
        SignedStep(env, s, step);
      }
    } else {
      OldVote(env, s, step, t);
    }
  }

  lemma OldVote(env: Env, s: Database, step: Step, t: string)
    requires RegionsOk(s) && t in Next(env, s, step).votes
    requires !((step.CastDirect? || step.CastBallot?) && Enabled(env, s, step) && t == step.voterToken)
    ensures t in s.votes && s.votes[t] == Next(env, s, step).votes[t]
  {
  }

  lemma SignedStep(env: Env, s: Database, step: Step)
    requires RegionsOk(s) && step.CastBallot? && Enabled(env, s, step)
    ensures step.voterToken in Next(env, s, step).votes
    ensures CastsSigned(env, s, step, step.voterToken, Next(env, s, step).votes[step.voterToken])
  {
    var key := s.keys[Parsed(env, step.ballot).value.election];
    if key.Valid() && key.N() > 0 {
      BS.VerifiesIff(env.sha, key, step.ballot, step.signature);
    }
  }

  /** A row that was not there before the step is one the step had every right to store. */
  lemma RowStep(env: Env, s: Database, step: Step, row: Row)
    requires Inv(env, s) && OnFile(Next(env, s, step), row) && !OnFile(s, row)
    ensures Justifies(env, s, step, row)
  {
    match row
    case Token(u, e) => TokenStep(env, s, step, u, e);
    case Receipt(u, e) => ReceiptStep(env, s, step, u, e);
    case Ballot(t, _) => VoteStep(env, s, step, t);
  }

  lemma AccountedOneLonger(env: Env, regions: map<RegionId, string>, steps: seq<Step>, row: Row)
    requires steps != [] && Accounted(env, regions, steps[..|steps| - 1], row)
    ensures Accounted(env, regions, steps, row)
  {
    var front := steps[..|steps| - 1];
    var k :| 0 <= k < |front| && Justifies(env, Reached(env, regions, front[..k]), front[k], row);
    assert front[..k] == steps[..k] && front[k] == steps[k];
    assert Justifies(env, Reached(env, regions, steps[..k]), steps[k], row);
  }

  /**
   Over every run: whoever holds a token or a receipt was entitled to it when it was stored, while the election was
   under way; and each vote came with the one signature that the election's anchored key makes for its ballot, or
   directly from such a voter.
   */
  lemma {:induction false} RowsAreAccounted(env: Env, regions: map<RegionId, string>, steps: seq<Step>, row: Row)
    requires OnFile(Reached(env, regions, steps), row)
    ensures Accounted(env, regions, steps, row)
  {
    var front := steps[..|steps| - 1];
    var s := Reached(env, regions, front);
    if OnFile(s, row) {
      RowsAreAccounted(env, regions, front, row);
      AccountedOneLonger(env, regions, steps, row);
    } else {
      ReachedInv(env, regions, front);
      RowStep(env, s, steps[|steps| - 1], row);
    }
  }

  // ---------------------------------------------------------------- the same under every interleaving

  /** Every interleaving of transactions from an empty database ends where some run of whole handlers ends. */
  lemma InterleavingsAreRuns(env: Env, regions: map<RegionId, string>, actions: seq<T.Action>)
    ensures T.Play(env, T.Quiet(env, regions), actions).db ==
            Reached(env, regions, T.Committed(env, T.Quiet(env, regions), actions))
  {
    T.Serialisable(env, T.Quiet(env, regions), actions);
  }

  /** One voter, one vote, whatever the transactions' locks, reads and commits interleave to. */
  lemma InterleavedOneVoterOneVote(env: Env, regions: map<RegionId, string>, actions: seq<T.Action>, e: ElectionId)
    ensures var s := T.Play(env, T.Quiet(env, regions), actions).db;
            var steps := T.Committed(env, T.Quiet(env, regions), actions);
            && |VotesIn(s, e)| == |NullifiersOf(s, e)| + |ReceiptsOf(s, e)|
            && s.tokens !! s.receipts
            && (|RedeemedIn(env, Empty(regions), steps, e)| <= Issued(env, Empty(regions), steps, e)
                ==> |VotesIn(s, e)| <= |VotersOf(s, e)|)
  {
    InterleavingsAreRuns(env, regions, actions);
    OneVoterOneVote(env, regions, T.Committed(env, T.Quiet(env, regions), actions), e);
  }

  /** A signed result stands under every continuation of every interleaving. */
  lemma InterleavedResultStands(env: Env, regions: map<RegionId, string>, before: seq<T.Action>, after: seq<T.Action>,
                                e: ElectionId)
    requires e in T.Play(env, T.Quiet(env, regions), before).db.results
    ensures var r := T.Play(env, T.Quiet(env, regions), before).db.results[e];
            var s' := T.Play(env, T.Quiet(env, regions), before + after).db;
            && e in s'.results && s'.results[e] == r
            && r.rows == Recount(s', e)
            && r.total == |VotesIn(s', e)|
  {
    var y := T.Play(env, T.Quiet(env, regions), before);
    var steps := T.Committed(env, y, after);
    T.PlayAppend(env, T.Quiet(env, regions), before, after);
    T.Serialisable(env, y, after);
    ResultAlong(env, y.db, steps, e);
    var s' := T.Play(env, y, after).db;
    RecountUnique(s', e, s'.results[e].rows, Recount(s', e));
  }

  /** Every token, receipt and vote is accounted for in every interleaving, too. */
  lemma InterleavedRowsAreAccounted(env: Env, regions: map<RegionId, string>, actions: seq<T.Action>, row: Row)
    requires OnFile(T.Play(env, T.Quiet(env, regions), actions).db, row)
    ensures Accounted(env, regions, T.Committed(env, T.Quiet(env, regions), actions), row)
  {
    InterleavingsAreRuns(env, regions, actions);
    RowsAreAccounted(env, regions, T.Committed(env, T.Quiet(env, regions), actions), row);
  }
}
