/**
 What every handler asks and does, in terms of the rows it reads and writes: one statement per handler, without the
 vocabulary in which the transition system is put together.
 */
module Requirements {
  import opened Common
  import opened Elections
  import opened Tally
  import opened Lifecycle
  import opened NumberTheory
  import BS = BlindSignature

  // ---------------------------------------------------------------- voting

  /**
   A blind signature is issued exactly to an approved, e-mail-verified voter with an active and verified enrolment in
   the one region of a non-empty single-contest roster, for an election that is open now and not quarantined, who has
   neither a token nor a receipt for it, under the anchored key, for an invertible value in (0, n). Then a token is
   recorded and nothing else changes.
   */
  lemma Requesting(env: Env, s: Database, u: UserId, e: ElectionId, blinded: int, now: int)
    requires RegionsOk(s)
    ensures var step := RequestToken(u, e, blinded, now);
            && (Enabled(env, s, step) <==>
                  && e in s.elections && s.elections[e].status == Open && !s.elections[e].recoveryRequired
                  && (s.elections[e].openAt.Some? ==> s.elections[e].openAt.value <= now)
                  && (s.elections[e].closeAt.Some? ==> now <= s.elections[e].closeAt.value)
                  && u in s.voters
                  && s.voters[u].approved && s.voters[u].emailVerified && s.voters[u].hasVoterRole
                  && s.voters[u].enrolment.Some?
                  && s.voters[u].enrolment.value.active && s.voters[u].enrolment.value.verified
                  && (exists c :: c in s.candidates && s.candidates[c].election == e)
                  && (forall c :: c in s.candidates && s.candidates[c].election == e ==>
                        s.candidates[c].region == s.voters[u].enrolment.value.region)
                  && (forall c, d :: c in s.candidates && d in s.candidates ==>
                        s.candidates[c].election == e && s.candidates[d].election == e ==>
                          s.candidates[c].position == s.candidates[d].position)
                  && (u, e) !in s.tokens && (u, e) !in s.receipts
                  && e in s.keys && s.elections[e].keyId == Some(env.fingerprint(s.keys[e]))
                  && 0 < blinded < s.keys[e].N() && Gcd(blinded, s.keys[e].N()) == 1)
            && (Enabled(env, s, step) ==> Next(env, s, step) == s.(tokens := s.tokens + {(u, e)}))
  {
    RosterHere(s, e);
  }

  /** The candidates of an election are those whose row says so. */
  lemma RosterHere(s: Database, e: ElectionId)
    ensures Roster(s, e) != {} <==> exists c :: c in s.candidates && s.candidates[c].election == e
  {
    if Roster(s, e) != {} {
      var c := Pick(Roster(s, e));
      assert c in s.candidates && s.candidates[c].election == e;
    }
    if c :| c in s.candidates && s.candidates[c].election == e {
      assert c in Roster(s, e);
    }
  }

  /**
   A ballot is accepted exactly when its body parses with a nonce of 64 lower-case hexadecimal digits, its election is
   open now and not quarantined, the one signature that RSA allows comes with it under the anchored key, it names a
   candidate of a single-contest roster, and neither its nonce nor the voter token was used. Then one vote for that
   candidate and one nullifier are stored and nothing else changes.
   */
  lemma Casting(env: Env, s: Database, ballot: seq<Byte>, signature: int, now: int, voterToken: string, body: Body)
    requires RegionsOk(s) && env.parse(ballot) == Some(body)
    requires body.election in s.keys ==> s.keys[body.election].Valid() && s.keys[body.election].N() > 0
    ensures var step := CastBallot(ballot, signature, now, voterToken);
            var e := body.election;
            && (Enabled(env, s, step) <==>
                  && |body.nonce| == 64
                  && (forall i :: 0 <= i < 64 ==> '0' <= body.nonce[i] <= '9' || 'a' <= body.nonce[i] <= 'f')
                  && e in s.elections && s.elections[e].status == Open && !s.elections[e].recoveryRequired
                  && (s.elections[e].openAt.Some? ==> s.elections[e].openAt.value <= now)
                  && (s.elections[e].closeAt.Some? ==> now <= s.elections[e].closeAt.value)
                  && e in s.keys && s.elections[e].keyId == Some(env.fingerprint(s.keys[e]))
                  && 0 < signature < s.keys[e].N()
                  && signature == Pow(BS.HashBallot(env.sha, ballot, s.keys[e].N()), s.keys[e].d) % s.keys[e].N()
                  && body.candidate in s.candidates && s.candidates[body.candidate].election == e
                  && (forall c :: c in s.candidates && s.candidates[c].election == e ==>
                        && s.candidates[c].region == s.candidates[body.candidate].region
                        && s.candidates[c].position == s.candidates[body.candidate].position)
                  && voterToken !in s.votes && (e, env.nullifier(body.nonce)) !in s.nullifiers)
            && (Enabled(env, s, step) ==>
                  Next(env, s, step) ==
                  s.(votes := s.votes[voterToken := Vote(body.candidate, e, s.candidates[body.candidate].position)],
                     nullifiers := s.nullifiers + {(e, env.nullifier(body.nonce))}))
  {
    if body.election in s.keys {
      BS.VerifiesIff(env.sha, s.keys[body.election], ballot, signature);
    }
    if Enabled(env, s, CastBallot(ballot, signature, now, voterToken)) {
      CastingStores(env, s, ballot, signature, now, voterToken, body);
    }
  }

  lemma CastingStores(env: Env, s: Database, ballot: seq<Byte>, signature: int, now: int, voterToken: string,
                      body: Body)
    requires RegionsOk(s) && env.parse(ballot) == Some(body)
    requires Enabled(env, s, CastBallot(ballot, signature, now, voterToken))
    ensures body.candidate in s.candidates
    ensures Next(env, s, CastBallot(ballot, signature, now, voterToken)) ==
            s.(votes := s.votes[voterToken := Vote(body.candidate, body.election,
                                                   s.candidates[body.candidate].position)],
               nullifiers := s.nullifiers + {(body.election, env.nullifier(body.nonce))})
  {
  }

  /** A body that does not parse is never accepted. */
  lemma UnparsedBallots(env: Env, s: Database, ballot: seq<Byte>, signature: int, now: int, voterToken: string)
    requires env.parse(ballot).None?
    ensures !Enabled(env, s, CastBallot(ballot, signature, now, voterToken))
  {
  }

  /** The direct path asks the same of voter and election, and the region of the one candidate chosen. */
  lemma CastingDirectly(env: Env, s: Database, u: UserId, c: CandidateId, e: ElectionId, now: int, voterToken: string)
    requires RegionsOk(s)
    ensures var step := CastDirect(u, c, e, now, voterToken);
            && (Enabled(env, s, step) <==>
                  && e in s.elections && s.elections[e].status == Open && !s.elections[e].recoveryRequired
                  && (s.elections[e].openAt.Some? ==> s.elections[e].openAt.value <= now)
                  && (s.elections[e].closeAt.Some? ==> now <= s.elections[e].closeAt.value)
                  && u in s.voters
                  && s.voters[u].approved && s.voters[u].emailVerified && s.voters[u].hasVoterRole
                  && s.voters[u].enrolment.Some?
                  && s.voters[u].enrolment.value.active && s.voters[u].enrolment.value.verified
                  && c in s.candidates && s.candidates[c].election == e
                  && s.candidates[c].region == s.voters[u].enrolment.value.region
                  && (u, e) !in s.tokens && (u, e) !in s.receipts && voterToken !in s.votes)
            && (Enabled(env, s, step) ==>
                  Next(env, s, step) == s.(votes := s.votes[voterToken := Vote(c, e, s.candidates[c].position)],
                                           receipts := s.receipts + {(u, e)}))
  {
  }

  // ---------------------------------------------------------------- elections

  /** A new election needs a name and, when it has both times, an order between them; it starts as a bare draft. */
  lemma Creating(env: Env, s: Database, id: ElectionId, name: string, openAt: Option<int>, closeAt: Option<int>)
    requires RegionsOk(s)
    ensures var step := CreateElection(id, name, openAt, closeAt);
            && (Enabled(env, s, step) <==>
                  && id >= 1 && id !in s.elections && name != ""
                  && (openAt.Some? && closeAt.Some? ==> openAt.value < closeAt.value))
            && (Enabled(env, s, step) ==>
                  var s' := Next(env, s, step);
                  && s' == s.(elections := s.elections[id := s'.elections[id]])
                  && s'.elections[id].name == name && s'.elections[id].status == Draft
                  && s'.elections[id].openAt == openAt && s'.elections[id].closeAt == closeAt
                  && s'.elections[id].keyId.None? && !s'.elections[id].recoveryRequired)
  {
  }

  /**
   An election opens exactly when it is a draft that is not quarantined, no other one is open, its roster is not empty
   and has one region and one position, its key is published and is the anchored one if there is an anchor, and it
   would not close before it opens. Opening keeps a given opening time and otherwise sets it to now.
   */
  lemma Opening(env: Env, s: Database, id: ElectionId, now: int)
    requires RegionsOk(s)
    ensures var step := OpenElection(id, now);
            && (Enabled(env, s, step) <==>
                  && id in s.elections && s.elections[id].status == Draft && !s.elections[id].recoveryRequired
                  && (forall j :: j in s.elections && j != id ==> s.elections[j].status != Open)
                  && (exists c :: c in s.candidates && s.candidates[c].election == id)
                  && (forall c, d :: c in s.candidates && d in s.candidates ==>
                        s.candidates[c].election == id && s.candidates[d].election == id ==>
                          && s.candidates[c].region == s.candidates[d].region
                          && s.candidates[c].position == s.candidates[d].position)
                  && id in s.keys
                  && (s.elections[id].keyId.None? || s.elections[id].keyId == Some(env.fingerprint(s.keys[id])))
                  && (s.elections[id].closeAt.Some? ==>
                        (if s.elections[id].openAt.Some? then s.elections[id].openAt.value else now)
                        < s.elections[id].closeAt.value))
            && (Enabled(env, s, step) ==>
                  var s' := Next(env, s, step);
                  && s' == s.(elections := s.elections[id := s'.elections[id]])
                  && s'.elections[id].status == Open
                  && s'.elections[id].openAt ==
                     (if s.elections[id].openAt.Some? then s.elections[id].openAt else Some(now))
                  && s'.elections[id].closeAt == s.elections[id].closeAt
                  && s'.elections[id].keyId == Some(env.fingerprint(s.keys[id]))
                  && s'.elections[id].name == s.elections[id].name && !s'.elections[id].recoveryRequired)
  {
    RosterHere(s, id);
  }

  /** Exactly an open election closes, as of now. */
  lemma Closing(env: Env, s: Database, id: ElectionId, now: int)
    requires RegionsOk(s)
    ensures var step := CloseElection(id, now);
            && (Enabled(env, s, step) <==> id in s.elections && s.elections[id].status == Open)
            && (Enabled(env, s, step) ==>
                  var s' := Next(env, s, step);
                  && s' == s.(elections := s.elections[id := s'.elections[id]])
                  && s'.elections[id].status == Closed && s'.elections[id].closeAt == Some(now)
                  && s'.elections[id].openAt == s.elections[id].openAt
                  && s'.elections[id].keyId == s.elections[id].keyId
                  && s'.elections[id].name == s.elections[id].name
                  && s'.elections[id].recoveryRequired == s.elections[id].recoveryRequired)
  {
  }

  /**
   Reconciliation anchors exactly an open, unquarantined election without an anchor for which nothing was issued, with
   the fingerprint of its published key.
   */
  lemma Anchoring(env: Env, s: Database, id: ElectionId)
    requires RegionsOk(s)
    ensures var step := AnchorKey(id);
            && (Enabled(env, s, step) <==>
                  && id in s.elections && s.elections[id].status == Open && !s.elections[id].recoveryRequired
                  && s.elections[id].keyId.None? && (forall t :: t in s.tokens ==> t.1 != id) && id in s.keys)
            && (Enabled(env, s, step) ==>
                  var s' := Next(env, s, step);
                  && s' == s.(elections := s.elections[id := s'.elections[id]])
                  && s'.elections[id] == s.elections[id].(keyId := Some(env.fingerprint(s.keys[id]))))
  {
  }

  /** A signing key is published exactly where there is none, and never replaced. */
  lemma Provisioning(env: Env, s: Database, id: ElectionId, key: BS.Key)
    requires RegionsOk(s)
    ensures var step := ProvisionKey(id, key);
            && (Enabled(env, s, step) <==> id !in s.keys)
            && Next(env, s, step) == (if id in s.keys then s else s.(keys := s.keys[id := key]))
  {
  }

  /** Exactly a closed election without a result is signed; the result carries its name, the time and all ballots. */
  lemma Signing(env: Env, s: Database, id: ElectionId, now: int)
    requires RegionsOk(s) && VotesReferToRoster(s)
    ensures var step := SignResults(id, now);
            && (Enabled(env, s, step) <==>
                  id in s.elections && s.elections[id].status == Closed && id !in s.results)
            && (Enabled(env, s, step) ==>
                  var s' := Next(env, s, step);
                  && s' == s.(results := s.results[id := s'.results[id]])
                  && s'.results[id].electionName == s.elections[id].name && s'.results[id].signedAt == now
                  && s'.results[id].rows == Recount(s, id)
                  && s'.results[id].total == |set t | t in s.votes && s.votes[t].election == id|)
  {
    TotalIsAllBallots(s, id, Recount(s, id));
  }

  // ---------------------------------------------------------------- rosters

  /**
   A candidate is added exactly to a draft, with a name and a position, in an existing region which for a delegate is
   that of the delegate's enrolment.
   */
  lemma AddingCandidate(env: Env, s: Database, actor: Actor, c: CandidateId, row: Candidate)
    requires RegionsOk(s)
    ensures var step := CreateCandidate(actor, c, row);
            && (Enabled(env, s, step) <==>
                  && row.election in s.elections && s.elections[row.election].status == Draft
                  && row.name != "" && row.position != "" && row.region in s.regions
                  && (actor.Delegate? ==> actor.region == Some(row.region))
                  && c !in s.candidates)
            && (Enabled(env, s, step) ==>
                  var s' := Next(env, s, step);
                  && s' == s.(candidates := s.candidates[c := s'.candidates[c]])
                  && s'.candidates[c].name == row.name && s'.candidates[c].party == row.party
                  && s'.candidates[c].position == row.position && s'.candidates[c].region == row.region
                  && s'.candidates[c].election == row.election)
  {
  }

  /**
   A candidate of a draft is edited by managers, and by delegates within their region both before and after; each field
   that is given replaces that field, each that is not stays, and the election never changes.
   */
  lemma EditingCandidate(env: Env, s: Database, actor: Actor, c: CandidateId, e: ElectionId, name: Option<string>,
                         party: Option<Option<string>>, position: Option<string>, region: Option<RegionId>)
    requires RegionsOk(s)
    ensures var step := UpdateCandidate(actor, c, e, name, party, position, region);
            && (Enabled(env, s, step) <==>
                  && c in s.candidates && s.candidates[c].election == e
                  && e in s.elections && s.elections[e].status == Draft
                  && (actor.Delegate? ==> actor.region == Some(s.candidates[c].region))
                  && name != Some("") && position != Some("")
                  && (region.Some? ==>
                        region.value in s.regions && (actor.Delegate? ==> actor.region == Some(region.value))))
            && (Enabled(env, s, step) ==>
                  var s' := Next(env, s, step);
                  && s' == s.(candidates := s.candidates[c := s'.candidates[c]])
                  && (name.Some? ==> s'.candidates[c].name == name.value)
                  && (name.None? ==> s'.candidates[c].name == s.candidates[c].name)
                  && (party.Some? ==> s'.candidates[c].party == party.value)
                  && (party.None? ==> s'.candidates[c].party == s.candidates[c].party)
                  && (position.Some? ==> s'.candidates[c].position == position.value)
                  && (position.None? ==> s'.candidates[c].position == s.candidates[c].position)
                  && (region.Some? ==> s'.candidates[c].region == region.value)
                  && (region.None? ==> s'.candidates[c].region == s.candidates[c].region)
                  && s'.candidates[c].election == s.candidates[c].election)
  {
  }

  /** A candidate of a draft is deleted by managers, and by delegates of its region; only its own ballots go with it. */
  lemma DeletingCandidate(env: Env, s: Database, actor: Actor, c: CandidateId, e: ElectionId)
    requires RegionsOk(s)
    ensures var step := DeleteCandidate(actor, c, e);
            && (Enabled(env, s, step) <==>
                  && c in s.candidates && s.candidates[c].election == e
                  && e in s.elections && s.elections[e].status == Draft
                  && (actor.Delegate? ==> actor.region == Some(s.candidates[c].region)))
            && (Enabled(env, s, step) ==>
                  var s' := Next(env, s, step);
                  && s' == s.(candidates := s.candidates - {c}, votes := s'.votes)
                  && (forall t :: t in s'.votes <==> t in s.votes && s.votes[t].candidate != c)
                  && (forall t :: t in s'.votes ==> s'.votes[t] == s.votes[t]))
  {
  }
}
