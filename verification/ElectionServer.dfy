/**
 The request handlers as they are written: a server object whose tables are updated in place, with the
 checks in the order the source makes them and early returns. Each handler is proved to make exactly its step
 of the transition system, and to succeed exactly when that step is enabled. Opening may publish a key first,
 which is a step of its own, and reconciliation is a run of such steps followed by the anchors it commits.
 */
module ElectionServer {
  import opened Common
  import opened Elections
  import opened Tally
  import opened Lifecycle
  import BS = BlindSignature
  import Keys
  import Hex

  datatype Response =
    | Done | Issued(signature: nat)
    | NotFound | Malformed | NotOpen | NotDraft | NotClosed | NotEligible | BadRoster | OutsideRegion
    | AlreadyIssued | AlreadyVoted | AlreadySigned | KeyUnavailable | InvalidBlinded | InvalidSignature
    | UnknownCandidate | RecoveryRequired | AnotherOpen | BadTimes | Forbidden | Conflict | Unavailable

  // ---------------------------------------------------------------- reconciliation

  /** Whether reconciliation may go ahead for one open election. */
  predicate Reconcilable(env: Env, s: Database, e: ElectionId)
    requires e in s.elections
  {
    && !s.elections[e].recoveryRequired
    && (s.elections[e].keyId.None? ==> forall t :: t in s.tokens ==> t.1 != e)
    && (s.elections[e].keyId.Some? ==> KeyReady(env, s, e))
  }

  ghost predicate AllReconcilable(env: Env, s: Database)
  {
    forall e :: HasStatus(s, e, Open) ==> Reconcilable(env, s, e)
  }

  /** A worker caches only published keys. */
  ghost predicate CachesPublished(s: Database, access: ElectionId -> Keys.Access)
  {
    forall e :: access(e).cached ==> e in s.keys
  }

  /** Every open election's key is cached, or the file system lets it be read, and written where it has to be. */
  ghost predicate AllObtainable(s: Database, access: ElectionId -> Keys.Access)
  {
    forall e :: HasStatus(s, e, Open) ==> Keys.Obtainable(e in s.keys, false, access(e))
  }

  function Unanchored(elections: map<ElectionId, Election>): (u: set<ElectionId>)
  {
    set e | e in elections && elections[e].status == Open && elections[e].keyId.None?
  }

  /** Exactly the open elections without an anchor got the fingerprint of their published key. */
  ghost predicate AnchorsWritten(env: Env, before: map<ElectionId, Election>, after: map<ElectionId, Election>,
                                 keys: map<ElectionId, BS.Key>)
  {
    && after.Keys == before.Keys
    && forall e :: e in before ==>
         if e in Unanchored(before)
         then e in keys && after[e] == before[e].(keyId := Some(env.fingerprint(keys[e])))
         else after[e] == before[e]
  }

  /** Published keys stay; a new one belongs to an open election that had no anchor. */
  ghost predicate KeysOnlyAdded(elections: map<ElectionId, Election>, before: map<ElectionId, BS.Key>,
                                after: map<ElectionId, BS.Key>, generated: ElectionId -> BS.Key)
  {
    && (forall e :: e in before ==> e in after && after[e] == before[e])
    && (forall e :: e in after && e !in before ==> e in Unanchored(elections) && after[e] == generated(e))
  }

  /** After a successful reconciliation every open election's key is published, anchored and matching. */
  lemma ReconciledReady(env: Env, s: Database, session: map<ElectionId, Election>, keys: map<ElectionId, BS.Key>)
    requires AllReconcilable(env, s) && AnchorsWritten(env, s.elections, session, keys)
    requires forall e :: e in s.keys ==> e in keys && keys[e] == s.keys[e]
    ensures var s' := s.(elections := session, keys := keys);
            forall e :: HasStatus(s', e, Open) ==> KeyReady(env, s', e)
  {
    var s' := s.(elections := session, keys := keys);
    forall e | HasStatus(s', e, Open) ensures KeyReady(env, s', e) {
      assert HasStatus(s, e, Open) && Reconcilable(env, s, e);
    }
  }

  /** Where the loop is: the elections in `done` got their anchor, those in `todo` are still to be looked at. */
  ghost predicate Underway(env: Env, s: Database, generated: ElectionId -> BS.Key, session: map<ElectionId, Election>,
                           keys: map<ElectionId, BS.Key>, done: set<ElectionId>, todo: set<ElectionId>)
  {
    && session.Keys == s.elections.Keys
    && (forall e :: e in todo ==> HasStatus(s, e, Open) && e !in done)
    && (forall e :: HasStatus(s, e, Open) && e !in todo ==> Reconcilable(env, s, e))
    && (forall e :: e in done ==> e in Unanchored(s.elections))
    && (forall e :: e in Unanchored(s.elections) && e !in todo ==> e in done)
    && (forall e :: e in s.elections ==>
          if e in done then e in keys && session[e] == s.elections[e].(keyId := Some(env.fingerprint(keys[e])))
          else session[e] == s.elections[e])
    && (forall e :: e in s.keys ==> e in keys && keys[e] == s.keys[e])
    && (forall e :: e in keys && e !in s.keys ==> e in done && keys[e] == generated(e))
  }

  lemma AnchorOne(env: Env, s: Database, generated: ElectionId -> BS.Key, session: map<ElectionId, Election>,
                  keys: map<ElectionId, BS.Key>, done: set<ElectionId>, todo: set<ElectionId>, id: ElectionId)
    requires Underway(env, s, generated, session, keys, done, todo) && id in todo
    requires s.elections[id].keyId.None? && Reconcilable(env, s, id)
    ensures var keys' := if id in keys then keys else keys[id := generated(id)];
            Underway(env, s, generated, session[id := session[id].(keyId := Some(env.fingerprint(keys'[id])))],
                     keys', done + {id}, todo - {id})
  {
    assert id in Unanchored(s.elections);
  }

  lemma SkipOne(env: Env, s: Database, generated: ElectionId -> BS.Key, session: map<ElectionId, Election>,
                keys: map<ElectionId, BS.Key>, done: set<ElectionId>, todo: set<ElectionId>, id: ElectionId)
    requires Underway(env, s, generated, session, keys, done, todo) && id in todo
    requires s.elections[id].keyId.Some? && Reconcilable(env, s, id)
    ensures Underway(env, s, generated, session, keys, done, todo - {id})
  {
  }

  lemma AllLookedAt(env: Env, s: Database, generated: ElectionId -> BS.Key, session: map<ElectionId, Election>,
                    keys: map<ElectionId, BS.Key>, done: set<ElectionId>)
    requires Underway(env, s, generated, session, keys, done, {})
    ensures done == Unanchored(s.elections) && AllReconcilable(env, s)
    ensures AnchorsWritten(env, s.elections, session, keys) && KeysOnlyAdded(s.elections, s.keys, keys, generated)
  {
    var u := Unanchored(s.elections);
    assert u - done == {} by {
      if u - done != {} {
        var e := Pick(u - done);
        assert false;
      }
    }
    assert done - u == {} by {
      if done - u != {} {
        var e := Pick(done - u);
        assert false;
      }
    }
  }

  /** The loop's body for one open election: may it be touched, and can its key be had? */
  method ReconcileOne(env: Env, s: Database, id: ElectionId, keys: map<ElectionId, BS.Key>, generated: BS.Key,
                      access: Keys.Access)
    returns (ok: bool, keys': map<ElectionId, BS.Key>)
    requires HasStatus(s, id, Open) && (access.cached ==> id in s.keys)
    requires id in keys <==> id in s.keys
    requires id in keys ==> keys[id] == s.keys[id]
    ensures ok <==> Reconcilable(env, s, id) && Keys.Obtainable(id in s.keys, false, access)
    ensures keys' == keys || (s.elections[id].keyId.None? && id !in keys && keys' == keys[id := generated])
    ensures ok && s.elections[id].keyId.None? ==> id in keys'
  {
    keys' := keys;
    var election := s.elections[id];
    var hasAuthorisation := exists t :: t in s.tokens && t.1 == id;
    if election.recoveryRequired || (election.keyId.None? && hasAuthorisation) {
      return false, keys';
    }
    if election.keyId.Some? {
      ok := id in keys && access.Readable() && env.fingerprint(keys[id]) == election.keyId.value;
      return;
    }
    if id !in keys {
      if access.fault.CannotWrite? || access.fault.CannotRename? {
        return false, keys';
      }
      keys' := keys[id := generated];
    }
    ok := access.Readable();
  }

  /** Stopping at an election leaves only keys that may stay. */
  lemma StoppedKeys(env: Env, s: Database, generated: ElectionId -> BS.Key, session: map<ElectionId, Election>,
                    keys: map<ElectionId, BS.Key>, keys': map<ElectionId, BS.Key>, done: set<ElectionId>,
                    todo: set<ElectionId>, id: ElectionId)
    requires Underway(env, s, generated, session, keys, done, todo) && id in todo
    requires keys' == keys || (s.elections[id].keyId.None? && id !in keys && keys' == keys[id := generated(id)])
    ensures KeysOnlyAdded(s.elections, s.keys, keys', generated)
  {
  }

  /** Where the loop is, and that no key so far was out of reach. */
  ghost predicate Reached(env: Env, s: Database, generated: ElectionId -> BS.Key, access: ElectionId -> Keys.Access,
                          session: map<ElectionId, Election>, keys: map<ElectionId, BS.Key>, done: set<ElectionId>,
                          todo: set<ElectionId>)
  {
    && Underway(env, s, generated, session, keys, done, todo)
    && forall e :: HasStatus(s, e, Open) && e !in todo ==> Keys.Obtainable(e in s.keys, false, access(e))
  }

  /** One turn of the loop. */
  method ReconcileNext(env: Env, s: Database, generated: ElectionId -> BS.Key, access: ElectionId -> Keys.Access,
                       session: map<ElectionId, Election>, keys: map<ElectionId, BS.Key>, ghost done: set<ElectionId>,
                       todo: set<ElectionId>, id: ElectionId)
    returns (ok: bool, session': map<ElectionId, Election>, keys': map<ElectionId, BS.Key>, anchored: nat,
             ghost done': set<ElectionId>)
    requires Reached(env, s, generated, access, session, keys, done, todo) && id in todo && CachesPublished(s, access)
    ensures ok ==> Reached(env, s, generated, access, session', keys', done', todo - {id})
    ensures ok ==> |done'| == |done| + anchored
    ensures !ok ==> !(AllReconcilable(env, s) && AllObtainable(s, access))
    ensures !ok ==> KeysOnlyAdded(s.elections, s.keys, keys', generated)
  {
    session', done', anchored := session, done, 0;
    ok, keys' := ReconcileOne(env, s, id, keys, generated(id), access(id));
    if !ok {
      StoppedKeys(env, s, generated, session, keys, keys', done, todo, id);
      return;
    }
    if session[id].keyId.None? {
      AnchorOne(env, s, generated, session, keys, done, todo, id);
      session' := session[id := session[id].(keyId := Some(env.fingerprint(keys'[id])))];
      anchored := 1;
      done' := done + {id};
    } else {
      SkipOne(env, s, generated, session, keys, done, todo, id);
    }
  }

  /**
   The loop of `reconcile_open_election_keys` over the rows of one session. It raises on the first
   election it may not touch or whose key it cannot get; keys published on the way stay.
   */
  method ReconcileLoop(env: Env, s: Database, generated: ElectionId -> BS.Key, access: ElectionId -> Keys.Access)
    returns (ok: bool, session: map<ElectionId, Election>, keys: map<ElectionId, BS.Key>, anchored: nat)
    requires CachesPublished(s, access)
    ensures ok <==> AllReconcilable(env, s) && AllObtainable(s, access)
    ensures ok ==> AnchorsWritten(env, s.elections, session, keys) && anchored == |Unanchored(s.elections)|
    ensures KeysOnlyAdded(s.elections, s.keys, keys, generated)
  {
    session, keys, anchored := s.elections, s.keys, 0;
    var todo := set e | e in s.elections && s.elections[e].status == Open;
    ghost var done: set<ElectionId> := {};
    while todo != {}
      invariant Reached(env, s, generated, access, session, keys, done, todo)
      invariant anchored == |done|
    {
      var id :| id in todo by {
        var some := Pick(todo);
      }
      var more: nat;
      ok, session, keys, more, done := ReconcileNext(env, s, generated, access, session, keys, done, todo, id);
      if !ok {
        return;
      }
      anchored := anchored + more;
      todo := todo - {id};
    }
    AllLookedAt(env, s, generated, session, keys, done);
    ok := true;
  }

  // ---------------------------------------------------------------- reconciliation as steps

  /** Publishing some keys is a run of provisioning steps. */
  lemma {:induction false} ProvisionSteps(env: Env, s: Database, keys: map<ElectionId, BS.Key>)
    returns (steps: seq<Step>)
    requires RegionsOk(s) && forall e :: e in s.keys ==> e in keys && keys[e] == s.keys[e]
    ensures Exec(env, s, steps) == s.(keys := keys)
    ensures forall i :: 0 <= i < |steps| ==> steps[i].ProvisionKey?
    decreases keys.Keys - s.keys.Keys
  {
    var missing := keys.Keys - s.keys.Keys;
    if missing == {} {
      steps := [];
      assert s.keys == keys by {
        SameKeys(s.keys, keys);
      }
    } else {
      var id := Pick(missing);
      var step := ProvisionKey(id, keys[id]);
      var s1 := Next(env, s, step);
      assert s1 == s.(keys := s.keys[id := keys[id]]);
      assert keys.Keys - s1.keys.Keys == missing - {id};
      var rest := ProvisionSteps(env, s1, keys);
      OneThenRest(env, s, step, rest);
      steps := [step] + rest;
    }
  }

  lemma SameKeys(a: map<ElectionId, BS.Key>, b: map<ElectionId, BS.Key>)
    requires b.Keys - a.Keys == {} && forall e :: e in a ==> e in b && b[e] == a[e]
    ensures a == b
  {
    forall e | e in b ensures e in a {
      assert e !in b.Keys - a.Keys;
    }
    SameRows(a, b);
  }

  lemma OneThenRest(env: Env, s: Database, step: Step, rest: seq<Step>)
    requires RegionsOk(s)
    ensures Exec(env, s, [step] + rest) == Exec(env, Next(env, s, step), rest)
  {
    ExecAppend(env, s, [step], rest);
    assert [step][..0] == [];
    assert Exec(env, s, [step]) == Next(env, Exec(env, s, []), step);
  }

  /** Writing the anchors of a reconciliation is a run of anchoring steps. */
  lemma {:induction false} AnchorSteps(env: Env, s: Database, session: map<ElectionId, Election>)
    returns (steps: seq<Step>)
    requires RegionsOk(s) && AnchorsWritten(env, s.elections, session, s.keys)
    requires forall e :: e in Unanchored(s.elections) ==> Reconcilable(env, s, e)
    ensures Exec(env, s, steps) == s.(elections := session)
    ensures forall i :: 0 <= i < |steps| ==> steps[i].AnchorKey?
    decreases Unanchored(s.elections)
  {
    var todo := Unanchored(s.elections);
    if todo == {} {
      steps := [];
      SameElections(env, s.elections, session, s.keys);
    } else {
      var id := Pick(todo);
      var s1 := Next(env, s, AnchorKey(id));
      AnchorStep(env, s, session, id);
      var rest := AnchorSteps(env, s1, session);
      OneThenRest(env, s, AnchorKey(id), rest);
      steps := [AnchorKey(id)] + rest;
    }
  }

  lemma SameElections(env: Env, elections: map<ElectionId, Election>, session: map<ElectionId, Election>,
                      keys: map<ElectionId, BS.Key>)
    requires AnchorsWritten(env, elections, session, keys) && forall e :: e !in Unanchored(elections)
    ensures session == elections
  {
    assert forall e :: e in session <==> e in elections by {
      assert session.Keys == elections.Keys;
    }
    SameRows(session, elections);
  }

  lemma AnchorStep(env: Env, s: Database, session: map<ElectionId, Election>, id: ElectionId)
    requires RegionsOk(s) && AnchorsWritten(env, s.elections, session, s.keys)
    requires id in Unanchored(s.elections) && Reconcilable(env, s, id)
    ensures Next(env, s, AnchorKey(id)) == s.(elections := s.elections[id := session[id]])
    ensures Unanchored(s.elections[id := session[id]]) == Unanchored(s.elections) - {id}
    ensures AnchorsWritten(env, s.elections[id := session[id]], session, s.keys)
  {
    assert Enabled(env, s, AnchorKey(id));
    var after := s.elections[id := session[id]];
    assert session[id].keyId.Some?;
    forall e ensures e in Unanchored(after) <==> e in Unanchored(s.elections) - {id} {
    }
  }

  /** Where every live election has its anchor, reconciliation has nothing to do. */
  lemma NothingToAnchor(env: Env, s: Database, session: map<ElectionId, Election>, keys: map<ElectionId, BS.Key>,
                        generated: ElectionId -> BS.Key, ok: bool)
    requires KeysOnlyAdded(s.elections, s.keys, keys, generated)
    requires ok ==> AnchorsWritten(env, s.elections, session, keys)
    ensures AllAnchored(s) ==> keys == s.keys && (ok ==> session == s.elections)
  {
    if AllAnchored(s) {
      forall e ensures e !in Unanchored(s.elections) {
        assert e in Unanchored(s.elections) ==> Live(s, e);
      }
      SameRows(keys, s.keys);
      if ok {
        SameElections(env, s.elections, session, keys);
      }
    }
  }

  /** A reconciliation, from the rows and keys its loop ended with. */
  lemma ReconciliationIsRun(env: Env, s: Database, ok: bool, session: map<ElectionId, Election>,
                            keys: map<ElectionId, BS.Key>, generated: ElectionId -> BS.Key)
    returns (steps: seq<Step>)
    requires RegionsOk(s) && KeysOnlyAdded(s.elections, s.keys, keys, generated)
    requires ok ==> AllReconcilable(env, s) && AnchorsWritten(env, s.elections, session, keys)
    ensures Exec(env, s, steps) == if ok then s.(elections := session, keys := keys) else s.(keys := keys)
    ensures forall i :: 0 <= i < |steps| ==> steps[i].ProvisionKey? || (ok && steps[i].AnchorKey?)
  {
    steps := ProvisionSteps(env, s, keys);
    if ok {
      var mid := s.(keys := keys);
      forall e | e in Unanchored(mid.elections) ensures Reconcilable(env, mid, e) {
        assert HasStatus(s, e, Open);
      }
      var anchors := AnchorSteps(env, mid, session);
      ExecAppend(env, s, steps, anchors);
      steps := steps + anchors;
    }
  }

  // ---------------------------------------------------------------- steps spelled out

  /** Everything casting checks once the ballot has been parsed. */
  predicate BallotOk(env: Env, s: Database, ballot: seq<Byte>, body: Body, signature: int, now: int)
  {
    && body.election in s.elections && IsOpen(s.elections[body.election], now)
    && KeyReady(env, s, body.election)
    && BS.VerifyUnblinded(env.sha, s.keys[body.election], ballot, signature)
    && body.candidate in Roster(s, body.election) && Uniform(s, body.election)
  }

  /** When a cast is enabled, and what it does. */
  lemma CastStep(env: Env, s: Database, ballot: seq<Byte>, body: Body, signature: int, now: int, voterToken: string)
    requires RegionsOk(s) && Parsed(env, ballot) == Some(body)
    ensures var step := CastBallot(ballot, signature, now, voterToken);
            var spent := (body.election, env.nullifier(body.nonce));
            && (Enabled(env, s, step) <==>
                  BallotOk(env, s, ballot, body, signature, now) && voterToken !in s.votes && spent !in s.nullifiers)
            && (!Enabled(env, s, step) ==> Next(env, s, step) == s)
            && (Enabled(env, s, step) ==>
                  var vote := Vote(body.candidate, body.election, s.candidates[body.candidate].position);
                  Next(env, s, step) == s.(votes := s.votes[voterToken := vote], nullifiers := s.nullifiers + {spent}))
  {
  }

  /** Everything requesting a token checks before it looks at the voter's history. */
  predicate MayRequest(s: Database, user: UserId, e: ElectionId, now: int)
  {
    && e in s.elections && IsOpen(s.elections[e], now)
    && user in s.voters && Eligible(s.voters[user]) && Uniform(s, e)
    && forall c :: c in Roster(s, e) ==> s.candidates[c].region == s.voters[user].enrolment.value.region
  }

  /** When issuing is enabled, and what it does. */
  lemma RequestStep(env: Env, s: Database, user: UserId, e: ElectionId, blinded: int, now: int)
    requires RegionsOk(s)
    ensures var step := RequestToken(user, e, blinded, now);
            && (Enabled(env, s, step) <==>
                  && MayRequest(s, user, e, now) && (user, e) !in s.tokens && (user, e) !in s.receipts
                  && KeyReady(env, s, e) && BS.BlindSign(s.keys[e], blinded).Some?)
            && Next(env, s, step) == if Enabled(env, s, step) then s.(tokens := s.tokens + {(user, e)}) else s
  {
  }

  /** Everything the direct path checks. */
  predicate MayCastDirect(s: Database, user: UserId, c: CandidateId, e: ElectionId, now: int, voterToken: string)
  {
    && e in s.elections && IsOpen(s.elections[e], now)
    && user in s.voters && Eligible(s.voters[user])
    && c in Roster(s, e) && s.candidates[c].region == s.voters[user].enrolment.value.region
    && (user, e) !in s.receipts && (user, e) !in s.tokens && voterToken !in s.votes
  }

  /** When a direct cast is enabled, and what it does. */
  lemma DirectStep(env: Env, s: Database, user: UserId, c: CandidateId, e: ElectionId, now: int, voterToken: string)
    requires RegionsOk(s)
    ensures var step := CastDirect(user, c, e, now, voterToken);
            && (Enabled(env, s, step) <==> MayCastDirect(s, user, c, e, now, voterToken))
            && (!Enabled(env, s, step) ==> Next(env, s, step) == s)
            && (Enabled(env, s, step) ==>
                  var vote := Vote(c, e, s.candidates[c].position);
                  Next(env, s, step) == s.(votes := s.votes[voterToken := vote], receipts := s.receipts + {(user, e)}))
  {
  }

  /** When opening is enabled, given that its key is ready, and what it does. */
  lemma OpenStep(env: Env, s: Database, id: ElectionId, now: int)
    requires RegionsOk(s)
    ensures var step := OpenElection(id, now);
            && (Enabled(env, s, step) <==>
                  && MayOpen(s, id) && KeyStage(env, s, step)
                  && TimesOk(Some(OpeningTime(s.elections[id], now)), s.elections[id].closeAt))
            && (!Enabled(env, s, step) ==> Next(env, s, step) == s)
            && (Enabled(env, s, step) ==>
                  Next(env, s, step) ==
                  s.(elections := s.elections[id := s.elections[id].(status := Open,
                                                                     openAt := Some(OpeningTime(s.elections[id], now)),
                                                                     keyId := Some(env.fingerprint(s.keys[id])))]))
  {
  }

  /** The checks of opening before the key store is touched. */
  predicate MayOpen(s: Database, id: ElectionId)
  {
    && HasStatus(s, id, Draft) && !s.elections[id].recoveryRequired
    && (forall j :: j in s.elections && j != id ==> s.elections[j].status != Open)
    && Uniform(s, id)
  }

  class Server {
    const env: Env
    const regions: map<RegionId, string>
    var elections: map<ElectionId, Election>
    var candidates: map<CandidateId, Candidate>
    var voters: map<UserId, Voter>
    var tokens: set<(UserId, ElectionId)>
    var receipts: set<(UserId, ElectionId)>
    var nullifiers: set<(ElectionId, string)>
    var votes: map<string, Vote>
    var results: map<ElectionId, Projection>
    var keys: map<ElectionId, BS.Key>

    function View(): (s: Database)
      reads this
    {
      Database(regions, elections, candidates, voters, tokens, receipts, nullifiers, votes, results, keys)
    }

    constructor (env: Env, regions: map<RegionId, string>)
      ensures this.env == env && View() == Empty(regions)
      ensures Inv(env, View())
    {
      this.env := env;
      this.regions := regions;
      elections, candidates, voters := map[], map[], map[];
      tokens, receipts, nullifiers := {}, {}, {};
      votes, results, keys := map[], map[], map[];
      new;
      InvOfEmpty(env, regions);
    }

    /** The two `len({...}) != 1` tests on an election's candidates. */
    predicate SingleContest(e: ElectionId)
      reads this
    {
      var roster := Roster(View(), e);
      |set c | c in roster :: candidates[c].region| == 1 && |set c | c in roster :: candidates[c].position| == 1
    }

    lemma SingleContestIsUniform(e: ElectionId)
      ensures SingleContest(e) <==> Uniform(View(), e)
    {
      UniformBySizes(View(), e);
    }

    // -------------------------------------------------------------- voting

    /** `request_blind_token`. */
    method RequestBlindToken(user: UserId, electionId: ElectionId, blinded: int, now: int) returns (r: Response)
      requires RegionsOk(View())
      modifies this`tokens
      ensures View() == Next(env, old(View()), RequestToken(user, electionId, blinded, now))
      ensures r.Issued? <==> Enabled(env, old(View()), RequestToken(user, electionId, blinded, now))
      ensures r.Issued? ==> (user, electionId) in tokens && Some(r.signature) == BS.BlindSign(keys[electionId], blinded)
      ensures r == NotOpen <==> !(electionId in elections && IsOpen(elections[electionId], now))
      ensures r == AlreadyIssued ==> (user, electionId) in old(tokens)
      ensures r == AlreadyVoted ==> (user, electionId) in receipts
    {
      RequestStep(env, View(), user, electionId, blinded, now);
      if electionId !in elections || !IsOpen(elections[electionId], now) {
        return NotOpen;
      }
      if user !in voters || !Eligible(voters[user]) {
        return NotEligible;
      }
      SingleContestIsUniform(electionId);
      if !SingleContest(electionId) {
        return BadRoster;
      }
      var regionIds := set c | c in Roster(View(), electionId) :: candidates[c].region;
      var home := voters[user].enrolment.value.region;
      if home !in regionIds {
        OutsideIsRefused(user, electionId, home);
        return OutsideRegion;
      }
      assert forall c :: c in Roster(View(), electionId) ==> candidates[c].region == home;
      if (user, electionId) in tokens {
        return AlreadyIssued;
      }
      if (user, electionId) in receipts {
        return AlreadyVoted;
      }
      if !KeyReady(env, View(), electionId) {
        return KeyUnavailable;
      }
      var signed := BS.BlindSign(keys[electionId], blinded);
      if signed.None? {
        return InvalidBlinded;
      }
      tokens := tokens + {(user, electionId)};
      return Issued(signed.value);
    }

    lemma OutsideIsRefused(user: UserId, e: ElectionId, home: RegionId)
      requires Uniform(View(), e) && home !in set c | c in Roster(View(), e) :: candidates[c].region
      ensures exists c :: c in Roster(View(), e) && candidates[c].region != home
    {
      var c := Pick(Roster(View(), e));
      assert candidates[c].region in set c | c in Roster(View(), e) :: candidates[c].region;
    }

    /** Everything `cast_anonymous_ballot` checks once the ballot has been parsed. */
    method CheckBallot(ballot: seq<Byte>, body: Body, signature: int, now: int) returns (r: Response)
      ensures r == Done <==> BallotOk(env, View(), ballot, body, signature, now)
      ensures r == InvalidSignature ==>
                KeyReady(env, View(), body.election) &&
                !BS.VerifyUnblinded(env.sha, keys[body.election], ballot, signature)
      ensures r != Malformed
    {
      var Body(candidateId, electionId, nonce) := body;
      if electionId !in elections || !IsOpen(elections[electionId], now) {
        return NotOpen;
      }
      if !KeyReady(env, View(), electionId) {
        return KeyUnavailable;
      }
      if !BS.VerifyUnblinded(env.sha, keys[electionId], ballot, signature) {
        return InvalidSignature;
      }
      if candidateId !in candidates || candidates[candidateId].election != electionId {
        return UnknownCandidate;
      }
      SingleContestIsUniform(electionId);
      if !SingleContest(electionId) {
        return BadRoster;
      }
      return Done;
    }

    /** `cast_anonymous_ballot`. */
    method CastAnonymousBallot(ballot: seq<Byte>, signature: int, now: int, voterToken: string) returns (r: Response)
      requires RegionsOk(View())
      modifies this`votes, this`nullifiers
      ensures View() == Next(env, old(View()), CastBallot(ballot, signature, now, voterToken))
      ensures r == Done <==> Enabled(env, old(View()), CastBallot(ballot, signature, now, voterToken))
      ensures r == Malformed <==> Parsed(env, ballot).None?
    {
      var parsed := env.parse(ballot);
      if parsed.None? || !Hex.IsHex64(parsed.value.nonce) {
        return Malformed;
      }
      CastStep(env, View(), ballot, parsed.value, signature, now, voterToken);
      r := CastParsed(ballot, parsed.value, signature, now, voterToken);
    }

    /** The part of it after parsing: the checks, then both rows or neither. */
    method CastParsed(ballot: seq<Byte>, body: Body, signature: int, now: int, voterToken: string) returns (r: Response)
      modifies this`votes, this`nullifiers
      ensures r == Done <==>
                && BallotOk(env, old(View()), ballot, body, signature, now)
                && voterToken !in old(votes) && (body.election, env.nullifier(body.nonce)) !in old(nullifiers)
      ensures r == Done ==>
                var vote := Vote(body.candidate, body.election, candidates[body.candidate].position);
                && votes == old(votes)[voterToken := vote]
                && nullifiers == old(nullifiers) + {(body.election, env.nullifier(body.nonce))}
      ensures r != Done ==> votes == old(votes) && nullifiers == old(nullifiers)
      ensures r != Malformed
    {
      r := CheckBallot(ballot, body, signature, now);
      if r != Done {
        return;
      }
      var Body(candidateId, electionId, nonce) := body;
      var spent := (electionId, env.nullifier(nonce));
      if voterToken in votes || spent in nullifiers {
        // a unique constraint refuses the commit and both rows roll back
        return Conflict;
      }
      votes := votes[voterToken := Vote(candidateId, electionId, candidates[candidateId].position)];
      nullifiers := nullifiers + {spent};
    }

    /** `cast_anonymous_vote`, the retained direct path. */
    method CastAnonymousVote(user: UserId, candidateId: CandidateId, election: Option<ElectionId>, now: int,
                             voterToken: string)
      returns (r: Response)
      requires RegionsOk(View())
      modifies this`votes, this`receipts
      ensures candidateId !in candidates ==> r == UnknownCandidate && View() == old(View())
      ensures candidateId in candidates && election.Some? && election.value != candidates[candidateId].election ==>
                r == UnknownCandidate && View() == old(View())
      ensures candidateId in candidates && (election.None? || election.value == candidates[candidateId].election) ==>
                var step := CastDirect(user, candidateId, candidates[candidateId].election, now, voterToken);
                View() == Next(env, old(View()), step) && (r == Done <==> Enabled(env, old(View()), step))
    {
      if candidateId !in candidates {
        return UnknownCandidate;
      }
      var electionId := if election.Some? then election.value else candidates[candidateId].election;
      if candidates[candidateId].election != electionId {
        return UnknownCandidate;
      }
      DirectStep(env, View(), user, candidateId, electionId, now, voterToken);
      if electionId !in elections || !IsOpen(elections[electionId], now) {
        return NotOpen;
      }
      if user !in voters || !Eligible(voters[user]) {
        return NotEligible;
      }
      if candidates[candidateId].region != voters[user].enrolment.value.region {
        return OutsideRegion;
      }
      if (user, electionId) in receipts {
        return AlreadyVoted;
      }
      if (user, electionId) in tokens {
        return AlreadyIssued;
      }
      if voterToken in votes {
        return Conflict;
      }
      votes := votes[voterToken := Vote(candidateId, electionId, candidates[candidateId].position)];
      receipts := receipts + {(user, electionId)};
      return Done;
    }

    // -------------------------------------------------------------- managing elections

    /** `create_election`; the database supplies the new id. */
    method NewElection(id: ElectionId, name: string, openAt: Option<int>, closeAt: Option<int>) returns (r: Response)
      requires RegionsOk(View()) && id >= 1 && id !in elections
      modifies this`elections
      ensures View() == Next(env, old(View()), CreateElection(id, name, openAt, closeAt))
      ensures r == Done <==> name != "" && TimesOk(openAt, closeAt)
    {
      if name == "" {
        return Malformed;
      }
      if openAt.Some? && closeAt.Some? && closeAt.value <= openAt.value {
        return BadTimes;
      }
      elections := elections[id := Election(name, Draft, openAt, closeAt, None, false)];
      return Done;
    }

    /**
     `ensure_election_blind_signing_key` with creation allowed for an election that has no anchor: an
     existing published key is never replaced, and an anchored one must match.
     */
    method EnsureKey(id: ElectionId, generated: BS.Key, access: Keys.Access) returns (ok: bool)
      requires RegionsOk(View()) && id in elections && (access.cached ==> id in keys)
      modifies this`keys
      ensures keys == old(keys) || (id !in old(keys) && keys == old(keys)[id := generated])
      ensures View() == Exec(env, old(View()), if keys == old(keys) then [] else [ProvisionKey(id, generated)])
      ensures ok <==> KeyStage(env, View(), OpenElection(id, 0)) && access.Readable()
      ensures elections[id].keyId.None? ==> (ok <==> Keys.Obtainable(id in old(keys), false, access))
    {
      if elections[id].keyId.None? {
        if id !in keys {
          if access.fault.CannotWrite? || access.fault.CannotRename? {
            return false;
          }
          keys := keys[id := generated];
          assert [ProvisionKey(id, generated)][..0] == [];
          assert View() == Next(env, old(View()), ProvisionKey(id, generated));
        }
        return access.Readable();
      }
      if !Hex.IsHex64(elections[id].keyId.value) || !access.Readable() {
        return false;
      }
      return id in keys && env.fingerprint(keys[id]) == elections[id].keyId.value;
    }

    /** The checks of `open_election` before it touches the key store. */
    method CheckOpening(id: ElectionId) returns (r: Response)
      ensures r == Done <==> MayOpen(View(), id)
    {
      if id !in elections {
        return NotFound;
      }
      if elections[id].status != Draft {
        return NotDraft;
      }
      if elections[id].recoveryRequired {
        return RecoveryRequired;
      }
      if exists j :: j in elections && elections[j].status == Open && j != id {
        return AnotherOpen;
      }
      SingleContestIsUniform(id);
      if !SingleContest(id) {
        return BadRoster;
      }
      return Done;
    }

    /**
     `open_election`. Publishing the key is not undone when the handler then refuses, so a refusal
     after that point leaves a provisioned key behind and nothing else.
     */
    method OpenForVoting(id: ElectionId, now: int, generated: BS.Key, access: Keys.Access) returns (r: Response)
      requires RegionsOk(View()) && (access.cached ==> id in keys)
      modifies this`elections, this`keys
      ensures keys == old(keys) || (id !in old(keys) && keys == old(keys)[id := generated])
      ensures old(View()).(keys := keys) ==
              Exec(env, old(View()), if keys == old(keys) then [] else [ProvisionKey(id, generated)])
      ensures r == Done ==> View() == Next(env, old(View()).(keys := keys), OpenElection(id, now))
      ensures r != Done ==> View() == old(View()).(keys := keys)
      ensures r == Done <==> Enabled(env, old(View()).(keys := keys), OpenElection(id, now)) && access.Readable()
    {
      r := CheckOpening(id);
      if r != Done {
        return;
      }
      var ready := EnsureKey(id, generated, access);
      UniformFrame(old(View()), View(), id);
      OpenStep(env, View(), id, now);
      if !ready {
        return KeyUnavailable;
      }
      var openAt := OpeningTime(elections[id], now);
      if elections[id].closeAt.Some? && elections[id].closeAt.value <= openAt {
        return BadTimes;
      }
      elections := elections[id := elections[id].(status := Open, openAt := Some(openAt),
                                                  keyId := Some(env.fingerprint(keys[id])))];
      return Done;
    }

    /** `close_election`. */
    method Close(id: ElectionId, now: int) returns (r: Response)
      requires RegionsOk(View())
      modifies this`elections
      ensures View() == Next(env, old(View()), CloseElection(id, now))
      ensures r == Done <==> HasStatus(old(View()), id, Open)
    {
      if id !in elections {
        return NotFound;
      }
      if elections[id].status != Open {
        return NotOpen;
      }
      elections := elections[id := elections[id].(status := Closed, closeAt := Some(now))];
      return Done;
    }

    /**
     The database half of `sign_election_results`; `scan` is the order in which the table is read, `counted` and
     `signed` say whether the tally query and the signing service answered.
     */
    method SignElectionResults(id: ElectionId, now: int, scan: seq<CandidateId>, counted: bool, signed: bool)
      returns (r: Response)
      requires RegionsOk(View()) && Enumerates(scan, Roster(View(), id))
      modifies this`results
      ensures r == Done <==> Enabled(env, old(View()), SignResults(id, now)) && counted && signed
      ensures r == Done ==> View() == Next(env, old(View()), SignResults(id, now))
      ensures r != Done ==> View() == old(View())
      ensures r == Done ==> results[id].rows == Recount(old(View()), id)
      ensures r == Unavailable <==> Enabled(env, old(View()), SignResults(id, now)) && !(counted && signed)
    {
      if id !in elections {
        return NotFound;
      }
      if elections[id].status != Closed {
        return NotClosed;
      }
      if id in results {
        return AlreadySigned;
      }
      if !counted || !signed {
        return Unavailable;
      }
      var tally := GetVoteTallies(View(), id, scan);
      QueryIsRecount(View(), id, scan);
      RecountUnique(View(), id, tally, Recount(View(), id));
      results := results[id := Projection(elections[id].name, now, tally, Total(tally))];
      return Done;
    }

    /** `reconcile_open_election_keys` and the commit or rollback its caller makes. */
    method ReconcileOpenElectionKeys(generated: ElectionId -> BS.Key, access: ElectionId -> Keys.Access)
      returns (anchored: Option<nat>, ghost steps: seq<Step>)
      requires RegionsOk(View()) && CachesPublished(View(), access)
      modifies this`elections, this`keys
      ensures anchored.Some? <==> AllReconcilable(env, old(View())) && AllObtainable(old(View()), access)
      ensures View() == Exec(env, old(View()), steps)
      ensures forall i :: 0 <= i < |steps| ==> steps[i].ProvisionKey? || (anchored.Some? && steps[i].AnchorKey?)
      ensures AllAnchored(old(View())) ==> View() == old(View())
      ensures anchored.None? ==> elections == old(elections)
      ensures anchored.Some? ==>
                && AnchorsWritten(env, old(elections), elections, keys)
                && anchored.value == |Unanchored(old(elections))|
                && forall e :: HasStatus(View(), e, Open) ==> KeyReady(env, View(), e)
      ensures KeysOnlyAdded(old(elections), old(keys), keys, generated)
    {
      var ok, session, published, count := ReconcileLoop(env, View(), generated, access);
      steps := ReconciliationIsRun(env, View(), ok, session, published, generated);
      NothingToAnchor(env, View(), session, published, generated, ok);
      keys := published;
      if !ok {
        return None, steps;
      }
      ReconciledReady(env, old(View()), session, published);
      elections := session;
      return Some(count), steps;
    }

    // -------------------------------------------------------------- managing rosters

    /** `create_candidate`; the database supplies the new id. */
    method NewCandidate(actor: Actor, id: CandidateId, row: Candidate) returns (r: Response)
      requires RegionsOk(View()) && id !in candidates
      modifies this`candidates
      ensures View() == Next(env, old(View()), CreateCandidate(actor, id, row))
      ensures r == Done <==> Enabled(env, old(View()), CreateCandidate(actor, id, row))
    {
      if row.name == "" || row.position == "" {
        return Malformed;
      }
      if row.election !in elections || elections[row.election].status != Draft {
        return NotDraft;
      }
      if row.region !in regions {
        return NotFound;
      }
      if actor.Delegate? && actor.region != Some(row.region) {
        return Forbidden;
      }
      candidates := candidates[id := row];
      return Done;
    }

    /** The checks `update_candidate` and `delete_candidate` share. */
    method MayChangeRoster(actor: Actor, id: CandidateId) returns (r: Response)
      ensures r == NotFound <==> id !in candidates
      ensures r == Done <==>
                id in candidates && HasStatus(View(), candidates[id].election, Draft) &&
                MayEdit(actor, candidates[id].region)
    {
      if id !in candidates {
        return NotFound;
      }
      var row := candidates[id];
      if row.election !in elections || elections[row.election].status != Draft {
        return NotDraft;
      }
      if actor.Delegate? && actor.region != Some(row.region) {
        return Forbidden;
      }
      return Done;
    }

    /** The field-by-field part of `update_candidate`. */
    method ApplyEdits(step: Step, current: Candidate) returns (r: Response, row: Candidate)
      requires step.UpdateCandidate?
      ensures r == Done <==>
                && step.name' != Some("") && step.position' != Some("")
                && (step.region'.Some? ==> step.region'.value in regions && MayEdit(step.actor, step.region'.value))
      ensures r == Done ==> row == Updated(current, step)
    {
      row := current;
      if step.name'.Some? {
        if step.name'.value == "" {
          return Malformed, row;
        }
        row := row.(name := step.name'.value);
      }
      if step.party'.Some? {
        row := row.(party := step.party'.value);
      }
      if step.position'.Some? {
        if step.position'.value == "" {
          return Malformed, row;
        }
        row := row.(position := step.position'.value);
      }
      if step.region'.Some? {
        if step.actor.Delegate? && step.actor.region != Some(step.region'.value) {
          return Forbidden, row;
        }
        if step.region'.value !in regions {
          return NotFound, row;
        }
        row := row.(region := step.region'.value);
      }
      return Done, row;
    }

    /** `update_candidate`: a refusal part way through the edits rolls them all back. */
    method EditCandidate(actor: Actor, id: CandidateId, name: Option<string>, party: Option<Option<string>>,
                         position: Option<string>, region: Option<RegionId>) returns (r: Response)
      requires RegionsOk(View())
      modifies this`candidates
      ensures id !in old(candidates) ==> r == NotFound && View() == old(View())
      ensures id in old(candidates) ==>
                var step := UpdateCandidate(actor, id, old(candidates)[id].election, name, party, position, region);
                View() == Next(env, old(View()), step) && (r == Done <==> Enabled(env, old(View()), step))
    {
      r := MayChangeRoster(actor, id);
      if r == Done {
        var row: Candidate;
        r, row := ApplyEdits(UpdateCandidate(actor, id, candidates[id].election, name, party, position, region),
                             candidates[id]);
        if r == Done {
          candidates := candidates[id := row];
        }
      }
    }

    /** `delete_candidate`, with the cascade to the candidate's ballots. */
    method RemoveCandidate(actor: Actor, id: CandidateId) returns (r: Response)
      requires RegionsOk(View())
      modifies this`candidates, this`votes
      ensures id !in old(candidates) ==> r == NotFound && View() == old(View())
      ensures id in old(candidates) ==>
                var step := DeleteCandidate(actor, id, old(candidates)[id].election);
                View() == Next(env, old(View()), step) && (r == Done <==> Enabled(env, old(View()), step))
    {
      r := MayChangeRoster(actor, id);
      if r == Done {
        candidates := candidates - {id};
        votes := WithoutBallotsFor(votes, id);
      }
    }
  }
}
