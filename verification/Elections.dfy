/**
 Elections, rosters, authorisations, ballots and signed results as one database
 (app/models.py), and the request handlers that change it (app/routes/main.py,
 app/routes/elections.py, app/routes/candidates.py, app/routes/results.py,
 app/vote_service.py, app/services/election_key_service.py).

 A step is one handler call with everything it read from outside: the clock, the random voter
 token, the generated key. Its guard is split into the stages at which the handler consults the
 database, in the order it does so; the commit guard holds what unique constraints decide.
 */
module Elections {
  import opened Common
  import BS = BlindSignature
  import Hex

  type CandidateId = int
  type UserId = int
  type RegionId = int

  datatype Status = Draft | Open | Closed

  datatype Election = Election(
    name: string, status: Status, openAt: Option<int>, closeAt: Option<int>,
    keyId: Option<string>, recoveryRequired: bool)

  datatype Candidate = Candidate(
    name: string, party: Option<string>, position: string, region: RegionId, election: ElectionId)

  datatype Enrolment = Enrolment(active: bool, verified: bool, region: RegionId)

  datatype Voter = Voter(approved: bool, emailVerified: bool, hasVoterRole: bool, enrolment: Option<Enrolment>)

  datatype Vote = Vote(candidate: CandidateId, election: ElectionId, position: string)

  datatype TallyRow = TallyRow(
    candidate: CandidateId, name: string, position: string, region: RegionId, regionName: string, votes: nat)

  /** The content of a signed result; how it is serialised and signed is the Results module. */
  datatype Projection = Projection(electionName: string, signedAt: int, rows: seq<TallyRow>, total: nat)

  /**
   The committed rows, and the directory of published signing keys. Votes are keyed by their unique
   voter token; tokens, receipts and nullifiers are sets because of their unique constraints.
   */
  datatype Database = Database(
    regions: map<RegionId, string>,
    elections: map<ElectionId, Election>,
    candidates: map<CandidateId, Candidate>,
    voters: map<UserId, Voter>,
    tokens: set<(UserId, ElectionId)>,
    receipts: set<(UserId, ElectionId)>,
    nullifiers: set<(ElectionId, string)>,
    votes: map<string, Vote>,
    results: map<ElectionId, Projection>,
    keys: map<ElectionId, BS.Key>)

  function Empty(regions: map<RegionId, string>): (s: Database)
  {
    Database(regions, map[], map[], map[], {}, {}, {}, map[], map[], map[])
  }

  datatype Body = Body(candidate: CandidateId, election: ElectionId, nonce: string)

  /** What the handlers call out to: hashing, key fingerprints and JSON decoding of a ballot. */
  datatype Env = Env(
    sha: BS.Hash,
    fingerprint: BS.Key -> Hex.Digest,
    nullifier: string -> string,
    parse: seq<Byte> -> Option<Body>)

  /** Who edits a roster: a manager, or a delegate confined to the region of their enrolment. */
  datatype Actor = Manager | Delegate(region: Option<RegionId>)

  predicate MayEdit(actor: Actor, region: RegionId)
  {
    actor.Manager? || actor.region == Some(region)
  }

  datatype Step =
    | CreateElection(id: ElectionId, name: string, openAt: Option<int>, closeAt: Option<int>)
    | OpenElection(id: ElectionId, now: int)
    | CloseElection(id: ElectionId, now: int)
    | CreateCandidate(actor: Actor, candidateId: CandidateId, row: Candidate)
    | UpdateCandidate(actor: Actor, candidateId: CandidateId, electionId: ElectionId, name': Option<string>,
                      party': Option<Option<string>>, position': Option<string>, region': Option<RegionId>)
    | DeleteCandidate(actor: Actor, candidateId: CandidateId, electionId: ElectionId)
    | SetVoter(user: UserId, voter: Voter)
    | RequestToken(user: UserId, electionId: ElectionId, blinded: int, now: int)
    | CastBallot(ballot: seq<Byte>, signature: int, now: int, voterToken: string)
    | CastDirect(user: UserId, candidateId: CandidateId, electionId: ElectionId, now: int, voterToken: string)
    | ProvisionKey(id: ElectionId, key: BS.Key)
    | AnchorKey(id: ElectionId)
    | SignResults(id: ElectionId, now: int)

  // ---------------------------------------------------------------- what handlers read

  /** `Election.is_open`. */
  predicate IsOpen(e: Election, now: int)
  {
    && e.status == Open
    && !e.recoveryRequired
    && (e.openAt.None? || e.openAt.value <= now)
    && (e.closeAt.None? || now <= e.closeAt.value)
  }

  /** `lock_and_validate_voter`. */
  predicate Eligible(v: Voter)
  {
    && v.approved && v.emailVerified && v.hasVoterRole
    && v.enrolment.Some? && v.enrolment.value.active && v.enrolment.value.verified
  }

  function Roster(s: Database, e: ElectionId): (r: set<CandidateId>)
  {
    set c | c in s.candidates && s.candidates[c].election == e
  }

  /** Exactly one region and one contest. */
  predicate Uniform(s: Database, e: ElectionId)
  {
    && Roster(s, e) != {}
    && forall c, d :: c in Roster(s, e) && d in Roster(s, e) ==>
         s.candidates[c].region == s.candidates[d].region && s.candidates[c].position == s.candidates[d].position
  }

  /** The handlers test this by the sizes of two sets. */
  lemma UniformBySizes(s: Database, e: ElectionId)
    ensures var regions := set c | c in Roster(s, e) :: s.candidates[c].region;
            var positions := set c | c in Roster(s, e) :: s.candidates[c].position;
            Uniform(s, e) <==> |regions| == 1 && |positions| == 1
  {
    var regions := set c | c in Roster(s, e) :: s.candidates[c].region;
    var positions := set c | c in Roster(s, e) :: s.candidates[c].position;
    var roster := Roster(s, e);
    if Uniform(s, e) {
      var c := Pick(roster);
      assert regions == {s.candidates[c].region};
      assert positions == {s.candidates[c].position};
    }
    if |regions| == 1 && |positions| == 1 {
      var r :| regions == {r} by { SingletonElement(regions); }
      var p :| positions == {p} by { SingletonElement(positions); }
      assert r in regions;
      forall c | c in Roster(s, e)
        ensures s.candidates[c].region == r && s.candidates[c].position == p
      {
        assert s.candidates[c].region in regions && s.candidates[c].position in positions;
      }
    }
  }

  lemma SingletonElement<T>(x: set<T>)
    requires |x| == 1
    ensures exists r :: x == {r}
  {
    var r :| r in x;
    assert |x - {r}| == 0;
    assert x == {r};
  }

  /** `ensure_election_blind_signing_key` without permission to create: published, anchored, and the two agree. */
  predicate KeyReady(env: Env, s: Database, e: ElectionId)
  {
    && e in s.elections && s.elections[e].keyId.Some?
    && e in s.keys && env.fingerprint(s.keys[e]) == s.elections[e].keyId.value
  }

  /** The parsed ballot, when the body is well formed. */
  function Parsed(env: Env, ballot: seq<Byte>): (b: Option<Body>)
  {
    var b := env.parse(ballot);
    if b.Some? && Hex.IsHex64(b.value.nonce) then b else None
  }

  function Updated(c: Candidate, step: Step): (c': Candidate)
    requires step.UpdateCandidate?
    ensures c'.election == c.election
  {
    c.(name := if step.name'.Some? then step.name'.value else c.name,
       party := if step.party'.Some? then step.party'.value else c.party,
       position := if step.position'.Some? then step.position'.value else c.position,
       region := if step.region'.Some? then step.region'.value else c.region)
  }

  /** The opening time an election gets when it opens. */
  function OpeningTime(e: Election, now: int): (t: int)
  {
    if e.openAt.Some? then e.openAt.value else now
  }

  predicate TimesOk(openAt: Option<int>, closeAt: Option<int>)
  {
    openAt.Some? && closeAt.Some? ==> closeAt.value > openAt.value
  }

  // ---------------------------------------------------------------- guards, stage by stage

  /** The election whose row the step locks. */
  function Target(env: Env, step: Step): (e: Option<ElectionId>)
  {
    match step
    case OpenElection(id, _) => Some(id)
    case CloseElection(id, _) => Some(id)
    case CreateCandidate(_, _, row) => Some(row.election)
    case UpdateCandidate(_, _, e, _, _, _, _) => Some(e)
    case DeleteCandidate(_, _, e) => Some(e)
    case RequestToken(_, e, _, _) => Some(e)
    case CastBallot(ballot, _, _, _) =>
      var b := Parsed(env, ballot);
      if b.Some? then Some(b.value.election) else None
    case CastDirect(_, _, e, _, _) => Some(e)
    case AnchorKey(id) => Some(id)
    case SignResults(id, _) => Some(id)
    case _ => None
  }

  /** The user whose row the step locks. */
  function Subject(step: Step): (u: Option<UserId>)
  {
    match step
    case SetVoter(u, _) => Some(u)
    case RequestToken(u, _, _, _) => Some(u)
    case CastDirect(u, _, _, _, _) => Some(u)
    case _ => None
  }

  /** The candidate whose row the step locks before it knows the election. */
  function Edited(step: Step): (c: Option<CandidateId>)
  {
    match step
    case UpdateCandidate(_, c, _, _, _, _, _) => Some(c)
    case DeleteCandidate(_, c, _) => Some(c)
    case _ => None
  }

  /** Candidate row found, and its election is the one the step goes on to lock. */
  predicate CandidateStage(s: Database, step: Step)
  {
    match step
    case UpdateCandidate(_, c, e, _, _, _, _) => c in s.candidates && s.candidates[c].election == e
    case DeleteCandidate(_, c, e) => c in s.candidates && s.candidates[c].election == e
    case _ => true
  }

  predicate HasStatus(s: Database, e: ElectionId, status: Status)
  {
    e in s.elections && s.elections[e].status == status
  }

  /** What the locked election row must say. */
  predicate ElectionStage(env: Env, s: Database, step: Step)
  {
    match step
    case OpenElection(id, now) =>
      && HasStatus(s, id, Draft) && !s.elections[id].recoveryRequired
      && (forall j :: j in s.elections && j != id ==> s.elections[j].status != Open)
      && TimesOk(Some(OpeningTime(s.elections[id], now)), s.elections[id].closeAt)
    case CloseElection(id, _) => HasStatus(s, id, Open)
    case CreateCandidate(_, _, row) => HasStatus(s, row.election, Draft)
    case UpdateCandidate(_, _, e, _, _, _, _) => HasStatus(s, e, Draft)
    case DeleteCandidate(_, _, e) => HasStatus(s, e, Draft)
    case RequestToken(_, e, _, now) => e in s.elections && IsOpen(s.elections[e], now)
    case CastBallot(ballot, _, now, _) =>
      var b := Parsed(env, ballot);
      b.Some? && b.value.election in s.elections && IsOpen(s.elections[b.value.election], now)
    case CastDirect(_, _, e, now, _) => e in s.elections && IsOpen(s.elections[e], now)
    case AnchorKey(id) => HasStatus(s, id, Open) && !s.elections[id].recoveryRequired && s.elections[id].keyId.None?
    case SignResults(id, _) => HasStatus(s, id, Closed)
    case _ => true
  }

  /** What the locked voter row must say. */
  predicate VoterStage(s: Database, step: Step)
  {
    match step
    case RequestToken(u, _, _, _) => u in s.voters && Eligible(s.voters[u])
    case CastDirect(u, _, _, _, _) => u in s.voters && Eligible(s.voters[u])
    case _ => true
  }

  /** What the roster must look like. */
  predicate RosterStage(env: Env, s: Database, step: Step)
    requires VoterStage(s, step)
  {
    match step
    case OpenElection(id, _) => Uniform(s, id)
    case CreateCandidate(actor, _, row) =>
      row.name != "" && row.position != "" && row.region in s.regions && MayEdit(actor, row.region)
    case UpdateCandidate(actor, c, _, name, _, position, region) =>
      && c in s.candidates && MayEdit(actor, s.candidates[c].region)
      && name != Some("") && position != Some("")
      && (region.Some? ==> region.value in s.regions && MayEdit(actor, region.value))
    case DeleteCandidate(actor, c, _) => c in s.candidates && MayEdit(actor, s.candidates[c].region)
    case RequestToken(u, e, _, _) =>
      && Uniform(s, e)
      && forall c :: c in Roster(s, e) ==> s.candidates[c].region == s.voters[u].enrolment.value.region
    case CastBallot(ballot, _, _, _) =>
      var b := Parsed(env, ballot);
      b.Some? && b.value.candidate in Roster(s, b.value.election) && Uniform(s, b.value.election)
    case CastDirect(u, c, e, _, _) =>
      c in Roster(s, e) && s.candidates[c].region == s.voters[u].enrolment.value.region
    case _ => true
  }

  /** No earlier authorisation, receipt or result stands in the way. */
  predicate HistoryStage(s: Database, step: Step)
  {
    match step
    case RequestToken(u, e, _, _) => (u, e) !in s.tokens && (u, e) !in s.receipts
    case CastDirect(u, _, e, _, _) => (u, e) !in s.receipts && (u, e) !in s.tokens
    case AnchorKey(id) => forall t :: t in s.tokens ==> t.1 != id
    case SignResults(id, _) => id !in s.results
    case _ => true
  }

  /** The signing key is the anchored one and accepts what was submitted. */
  predicate KeyStage(env: Env, s: Database, step: Step)
  {
    match step
    case OpenElection(id, _) =>
      id in s.elections && id in s.keys &&
      (s.elections[id].keyId.None? || s.elections[id].keyId.value == env.fingerprint(s.keys[id]))
    case RequestToken(_, e, blinded, _) => KeyReady(env, s, e) && BS.BlindSign(s.keys[e], blinded).Some?
    case CastBallot(ballot, signature, _, _) =>
      var b := Parsed(env, ballot);
      && b.Some? && KeyReady(env, s, b.value.election)
      && BS.VerifyUnblinded(env.sha, s.keys[b.value.election], ballot, signature)
    case AnchorKey(id) => id in s.keys
    case _ => true
  }

  /** What unique constraints, primary keys and the atomic directory rename decide at commit time. */
  predicate CommitStage(env: Env, s: Database, step: Step)
  {
    match step
    case CreateElection(id, name, openAt, closeAt) =>
      id >= 1 && id !in s.elections && name != "" && TimesOk(openAt, closeAt)
    case CreateCandidate(_, c, _) => c !in s.candidates
    case CastBallot(ballot, _, _, voterToken) =>
      var b := Parsed(env, ballot);
      && voterToken !in s.votes
      && b.Some? && (b.value.election, env.nullifier(b.value.nonce)) !in s.nullifiers
    case CastDirect(_, _, _, _, voterToken) => voterToken !in s.votes
    case ProvisionKey(id, _) => id !in s.keys
    case _ => true
  }

  predicate Enabled(env: Env, s: Database, step: Step)
  {
    && CandidateStage(s, step)
    && ElectionStage(env, s, step)
    && VoterStage(s, step)
    && RosterStage(env, s, step)
    && HistoryStage(s, step)
    && KeyStage(env, s, step)
    && CommitStage(env, s, step)
  }

  // ---------------------------------------------------------------- effects

  /** The ballots that name a candidate go with the candidate row: ON DELETE CASCADE. */
  function WithoutBallotsFor(votes: map<string, Vote>, c: CandidateId): (v: map<string, Vote>)
  {
    map t | t in votes && votes[t].candidate != c :: votes[t]
  }

  /** The committed rows after the step; `tally` is what the signer counted. */
  function Effect(env: Env, s: Database, step: Step, tally: seq<TallyRow>): (s': Database)
    requires CandidateStage(s, step) && ElectionStage(env, s, step) && VoterStage(s, step)
    requires RosterStage(env, s, step) && KeyStage(env, s, step)
  {
    match step
    case CreateElection(id, name, openAt, closeAt) =>
      s.(elections := s.elections[id := Election(name, Draft, openAt, closeAt, None, false)])
    case OpenElection(id, now) =>
      var e := s.elections[id];
      s.(elections := s.elections[id := e.(status := Open, openAt := Some(OpeningTime(e, now)),
                                           keyId := Some(env.fingerprint(s.keys[id])))])
    case CloseElection(id, now) =>
      s.(elections := s.elections[id := s.elections[id].(status := Closed, closeAt := Some(now))])
    case CreateCandidate(_, c, row) => s.(candidates := s.candidates[c := row])
    case UpdateCandidate(_, c, _, _, _, _, _) => s.(candidates := s.candidates[c := Updated(s.candidates[c], step)])
    case DeleteCandidate(_, c, _) =>
      s.(candidates := s.candidates - {c}, votes := WithoutBallotsFor(s.votes, c))
    case SetVoter(u, v) => s.(voters := s.voters[u := v])
    case RequestToken(u, e, _, _) => s.(tokens := s.tokens + {(u, e)})
    case CastBallot(ballot, _, _, voterToken) =>
      var b := Parsed(env, ballot).value;
      s.(votes := s.votes[voterToken := Vote(b.candidate, b.election, s.candidates[b.candidate].position)],
         nullifiers := s.nullifiers + {(b.election, env.nullifier(b.nonce))})
    case CastDirect(u, c, e, _, voterToken) =>
      s.(votes := s.votes[voterToken := Vote(c, e, s.candidates[c].position)],
         receipts := s.receipts + {(u, e)})
    case ProvisionKey(id, key) => s.(keys := s.keys[id := key])
    case AnchorKey(id) =>
      s.(elections := s.elections[id := s.elections[id].(keyId := Some(env.fingerprint(s.keys[id])))])
    case SignResults(id, now) =>
      s.(results := s.results[id := Projection(s.elections[id].name, now, tally, Total(tally))])
  }

  /** `sum(item["votes"] for item in tallies)`. */
  function Total(rows: seq<TallyRow>): (n: nat)
  {
    if rows == [] then 0 else Total(rows[..|rows| - 1]) + rows[|rows| - 1].votes
  }
}
