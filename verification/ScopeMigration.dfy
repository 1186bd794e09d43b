/**
 The election-scoping migration (migrations/versions/20260714_election_scope.py): every candidate, ballot and
 receipt of a legacy database is given an election, voters are given receipts, and elections that had legacy
 authorisations are quarantined. Tables are lists of rows; the constraints created at the end decide success.
 */
module ScopeMigration {
  import opened Common

  type Instant = int

  datatype Election = Election(id: int, name: string, status: string, createdAt: Option<Instant>,
                               recoveryRequired: bool)

  datatype Candidate = Candidate(id: int, name: string, election: Option<int>)

  datatype Vote = Vote(id: int, candidate: int, token: Option<string>, user: Option<int>, createdAt: Instant,
                       election: Option<int>)

  datatype Receipt = Receipt(user: int, votedAt: Instant, election: Option<int>)

  datatype User = User(id: int, hasVoted: Option<bool>)

  /** A legacy database lacks the markers of the current schema; its columns vary. */
  datatype Schema = Legacy(voteUser: bool, userHasVoted: bool, voterToken: bool) | Partial | Scoped

  datatype Tables = Tables(
    schema: Schema, elections: seq<Election>, candidates: seq<Candidate>, votes: seq<Vote>,
    receipts: seq<Receipt>, users: seq<User>, tokens: nat)

  datatype Failure = PartialSchema | IntegrityError

  // ---------------------------------------------------------------- the promise

  predicate KnownStatus(status: string)
  {
    status == "draft" || status == "open" || status == "closed"
  }

  predicate HasReceipt(receipts: seq<Receipt>, user: int)
  {
    exists i :: 0 <= i < |receipts| && receipts[i].user == user
  }

  /** At most one receipt per user. */
  ghost predicate OneEach(receipts: seq<Receipt>)
  {
    forall i, j :: 0 <= i < j < |receipts| ==> receipts[i].user != receipts[j].user
  }

  predicate HasCandidate(candidates: seq<Candidate>, id: int)
  {
    exists i :: 0 <= i < |candidates| && candidates[i].id == id
  }

  predicate NamedByVote(votes: seq<Vote>, user: int)
  {
    exists i :: 0 <= i < |votes| && votes[i].user == Some(user)
  }

  predicate FlaggedUser(users: seq<User>, user: int)
  {
    exists i :: 0 <= i < |users| && users[i] == User(user, Some(true))
  }

  /** The users who are known to have voted: a receipt, an identified vote, or the voted flag. */
  ghost predicate VotedBefore(t: Tables, user: int)
    requires t.schema.Legacy?
  {
    || HasReceipt(t.receipts, user)
    || (t.schema.voteUser && NamedByVote(t.votes, user))
    || (t.schema.userHasVoted && FlaggedUser(t.users, user))
  }

  ghost predicate TokensUsable(tokens: seq<Option<string>>)
  {
    && (forall i :: 0 <= i < |tokens| ==> tokens[i].Some?)
    && (forall i, j :: 0 <= i < j < |tokens| ==> tokens[i] != tokens[j])
  }

  /** The ballots' tokens: those stored, or the new random ones where the column is missing. */
  function TokensOf(t: Tables, minted: seq<string>): (tokens: seq<Option<string>>)
    requires t.schema.Legacy? && |minted| == |t.votes|
    ensures |tokens| == |t.votes|
  {
    if t.schema.voterToken then seq(|t.votes|, i requires 0 <= i < |t.votes| => t.votes[i].token)
    else seq(|minted|, i requires 0 <= i < |minted| => Some(minted[i]))
  }

  /** No two ballots name the same user who has no receipt. */
  ghost predicate UnreceiptedVotersDistinct(receipts: seq<Receipt>, votes: seq<Vote>)
  {
    forall i, j :: 0 <= i < j < |votes| && votes[i].user.Some? && votes[i].user == votes[j].user ==>
      HasReceipt(receipts, votes[i].user.value)
  }

  /** When the migration goes through; every part can be checked on the legacy database. */
  ghost predicate Migratable(t: Tables, minted: seq<string>)
    requires t.schema.Legacy? && |minted| == |t.votes|
  {
    && StatusesKnown(t.elections)
    && (forall i :: 0 <= i < |t.votes| ==> HasCandidate(t.candidates, t.votes[i].candidate))
    && TokensUsable(TokensOf(t, minted))
    && OneEach(t.receipts)
    && (t.schema.voteUser ==> UnreceiptedVotersDistinct(t.receipts, t.votes))
  }

  ghost predicate StatusesKnown(elections: seq<Election>)
  {
    forall i :: 0 <= i < |elections| ==> KnownStatus(elections[i].status)
  }

  /**
   What the legacy schema enforces: a user is named by at most one ballot, which the revision before this one
   makes sure of wherever the column exists, has at most one receipt, and ballots refer to candidates.
   */
  ghost predicate LegacyConstraints(t: Tables)
    requires t.schema.Legacy?
  {
    && (t.schema.voteUser ==>
          forall i, j :: 0 <= i < j < |t.votes| && t.votes[i].user.Some? ==> t.votes[i].user != t.votes[j].user)
    && OneEach(t.receipts)
    && (forall i :: 0 <= i < |t.votes| ==> HasCandidate(t.candidates, t.votes[i].candidate))
  }

  /** Under those constraints only unknown statuses and unusable ballot tokens can stop the migration. */
  lemma ConstrainedIsMigratable(t: Tables, minted: seq<string>)
    requires t.schema.Legacy? && |minted| == |t.votes| && LegacyConstraints(t)
    ensures Migratable(t, minted) <==> StatusesKnown(t.elections) && TokensUsable(TokensOf(t, minted))
    ensures t.schema.voteUser ==> UnreceiptedVotersDistinct(t.receipts, t.votes)
  {
  }

  /** `created_at` ascending with nulls first, then `id`. */
  predicate Earlier(a: Election, b: Election)
  {
    if a.createdAt.None? || b.createdAt.None? then
      (a.createdAt.None? && b.createdAt.Some?) || (a.createdAt == b.createdAt && a.id <= b.id)
    else a.createdAt.value < b.createdAt.value || (a.createdAt == b.createdAt && a.id <= b.id)
  }

  /** The election that takes everything over. */
  ghost predicate IsTarget(elections: seq<Election>, e: int)
  {
    exists k :: 0 <= k < |elections| && elections[k].id == e && IsFirst(elections, k)
  }

  /** No other election is older, one without a time being older than all others, or as old with a smaller id. */
  ghost predicate IsFirst(elections: seq<Election>, k: nat)
    requires k < |elections|
  {
    forall j :: 0 <= j < |elections| ==>
      && (elections[j].createdAt.None? ==> elections[k].createdAt.None?)
      && (elections[j].createdAt.Some? && elections[k].createdAt.Some? ==>
            elections[k].createdAt.value <= elections[j].createdAt.value)
      && (elections[j].createdAt == elections[k].createdAt ==> elections[k].id <= elections[j].id)
  }

  ghost predicate CandidatesKept(was: seq<Candidate>, became: seq<Candidate>, e: int)
  {
    |became| == |was| && forall i :: 0 <= i < |was| ==> became[i] == was[i].(election := Some(e))
  }

  /** Each ballot keeps its identity and choice, gets its candidate's election, and no longer names a user. */
  ghost predicate BallotsKept(was: seq<Vote>, tokens: seq<Option<string>>, became: seq<Vote>,
                              candidates: seq<Candidate>)
    requires |tokens| == |was|
  {
    && |became| == |was|
    && (forall i :: 0 <= i < |was| ==>
          became[i] == Vote(was[i].id, was[i].candidate, tokens[i], None, was[i].createdAt, became[i].election))
    && (forall i, k :: 0 <= i < |was| && 0 <= k < |candidates| && candidates[k].id == was[i].candidate ==>
          became[i].election == candidates[k].election)
  }

  /** Receipts that were there stay as they were but for the election; all are for election `e`. */
  ghost predicate ReceiptsKept(was: seq<Receipt>, became: seq<Receipt>, e: int)
  {
    && |was| <= |became|
    && (forall i :: 0 <= i < |was| ==> became[i] == was[i].(election := Some(e)))
    && (forall i :: 0 <= i < |became| ==> became[i].election == Some(e))
  }

  predicate CastAt(votes: seq<Vote>, user: int, at: Instant)
  {
    exists k :: 0 <= k < |votes| && votes[k].user == Some(user) && votes[k].createdAt == at
  }

  /** A receipt added for a user named by a ballot carries the time of such a ballot. */
  ghost predicate Dated(receipts: seq<Receipt>, from: nat, votes: seq<Vote>)
  {
    forall i :: from <= i < |receipts| && NamedByVote(votes, receipts[i].user) ==>
      CastAt(votes, receipts[i].user, receipts[i].votedAt)
  }

  /** A receipt added for a flagged user carries the time of the statement that added it. */
  ghost predicate StampedFor(users: seq<User>, stamps: seq<Instant>, r: Receipt)
    requires |stamps| == |users|
  {
    exists k :: 0 <= k < |users| && users[k].id == r.user && users[k].hasVoted == Some(true) && r.votedAt == stamps[k]
  }

  /** Elections keep everything but the quarantine flag, set for the open ones when authorisations existed. */
  ghost predicate ElectionsKept(was: seq<Election>, became: seq<Election>, quarantine: bool)
  {
    |became| == |was| && forall i :: 0 <= i < |was| ==>
      became[i] == was[i].(recoveryRequired := quarantine && was[i].status == "open")
  }

  const IMPORTED := "Imported legacy election"

  ghost predicate Migrated(t: Tables, minted: seq<string>, t': Tables, e: int)
    requires t.schema.Legacy? && |minted| == |t.votes|
  {
    && t'.schema.Scoped? && t'.tokens == 0
    && (t.elections != [] ==> IsTarget(t.elections, e) && ElectionsKept(t.elections, t'.elections, t.tokens > 0))
    && (t.elections == [] ==>
        && |t'.elections| == 1
        && t'.elections[0].(createdAt := None) == Election(e, "Imported legacy election", "closed", None, false))
    && CandidatesKept(t.candidates, t'.candidates, e)
    && BallotsKept(t.votes, TokensOf(t, minted), t'.votes, t'.candidates)
    && ReceiptsKept(t.receipts, t'.receipts, e)
    && OneEach(t'.receipts)
    && (t.schema.voteUser ==> Dated(t'.receipts, |t.receipts|, t.votes))
    && (forall user :: HasReceipt(t'.receipts, user) <==> VotedBefore(t, user))
  }

  /** What stops the migration, on the legacy rows themselves. */
  lemma MigratableSays(t: Tables, minted: seq<string>)
    requires t.schema.Legacy? && |minted| == |t.votes|
    ensures Migratable(t, minted) <==>
              && (forall i :: 0 <= i < |t.elections| ==>
                    var status := t.elections[i].status; status == "draft" || status == "open" || status == "closed")
              && (forall i :: 0 <= i < |t.votes| ==>
                    exists k :: 0 <= k < |t.candidates| && t.candidates[k].id == t.votes[i].candidate)
              && (t.schema.voterToken ==> forall i :: 0 <= i < |t.votes| ==> t.votes[i].token.Some?)
              && (forall i, j :: 0 <= i < j < |t.votes| ==>
                    if t.schema.voterToken then t.votes[i].token != t.votes[j].token else minted[i] != minted[j])
              && (forall i, j :: 0 <= i < j < |t.receipts| ==> t.receipts[i].user != t.receipts[j].user)
              && (t.schema.voteUser ==>
                    forall i, j :: 0 <= i < j < |t.votes| ==>
                      (t.votes[i].user.Some? && t.votes[i].user == t.votes[j].user ==>
                         exists k :: 0 <= k < |t.receipts| && t.receipts[k].user == t.votes[i].user.value))
  {
    TokensSay(t, minted);
    VotersSay(t);
    assert forall i :: 0 <= i < |t.votes| ==>
        (HasCandidate(t.candidates, t.votes[i].candidate) <==>
         exists k :: 0 <= k < |t.candidates| && t.candidates[k].id == t.votes[i].candidate);
  }

  lemma VotersSay(t: Tables)
    ensures UnreceiptedVotersDistinct(t.receipts, t.votes) <==>
              forall i, j :: 0 <= i < j < |t.votes| ==>
                (t.votes[i].user.Some? && t.votes[i].user == t.votes[j].user ==>
                   exists k :: 0 <= k < |t.receipts| && t.receipts[k].user == t.votes[i].user.value)
  {
    assert forall i :: 0 <= i < |t.votes| && t.votes[i].user.Some? ==>
        (HasReceipt(t.receipts, t.votes[i].user.value) <==>
         exists k :: 0 <= k < |t.receipts| && t.receipts[k].user == t.votes[i].user.value);
  }

  lemma TokensSay(t: Tables, minted: seq<string>)
    requires t.schema.Legacy? && |minted| == |t.votes|
    ensures TokensUsable(TokensOf(t, minted)) <==>
              && (t.schema.voterToken ==> forall i :: 0 <= i < |t.votes| ==> t.votes[i].token.Some?)
              && (forall i, j :: 0 <= i < j < |t.votes| ==>
                    if t.schema.voterToken then t.votes[i].token != t.votes[j].token else minted[i] != minted[j])
  {
    var tokens := TokensOf(t, minted);
    forall i, j | 0 <= i < j < |t.votes|
      ensures tokens[i] != tokens[j] <==>
              if t.schema.voterToken then t.votes[i].token != t.votes[j].token else minted[i] != minted[j]
    {
    }
    if t.schema.voterToken {
      assert forall i :: 0 <= i < |t.votes| ==> tokens[i] == t.votes[i].token;
    } else {
      assert forall i :: 0 <= i < |t.votes| ==> tokens[i] == Some(minted[i]);
    }
  }

  /** What the migration leaves, row by row. */
  lemma MigratedSays(t: Tables, minted: seq<string>, t': Tables, e: int, user: int)
    requires t.schema.Legacy? && |minted| == |t.votes| && Migratable(t, minted) && Migrated(t, minted, t', e)
    ensures |t'.candidates| == |t.candidates| && |t'.votes| == |t.votes|
    ensures forall i :: 0 <= i < |t.candidates| ==>
              && t'.candidates[i].id == t.candidates[i].id && t'.candidates[i].name == t.candidates[i].name
              && t'.candidates[i].election == Some(e)
    ensures forall i :: 0 <= i < |t.votes| ==>
              && t'.votes[i].id == t.votes[i].id && t'.votes[i].candidate == t.votes[i].candidate
              && t'.votes[i].createdAt == t.votes[i].createdAt && t'.votes[i].user.None?
              && t'.votes[i].election == Some(e)
              && t'.votes[i].token == (if t.schema.voterToken then t.votes[i].token else Some(minted[i]))
    ensures forall i, j :: 0 <= i < j < |t'.receipts| ==> t'.receipts[i].user != t'.receipts[j].user
    ensures (exists i :: 0 <= i < |t'.receipts| && t'.receipts[i].user == user) <==>
              || (exists i :: 0 <= i < |t.receipts| && t.receipts[i].user == user)
              || (t.schema.voteUser && exists i :: 0 <= i < |t.votes| && t.votes[i].user == Some(user))
              || (t.schema.userHasVoted &&
                  exists i :: 0 <= i < |t.users| && t.users[i].id == user && t.users[i].hasVoted == Some(true))
    ensures forall i :: 0 <= i < |t.elections| ==>
              && |t'.elections| == |t.elections| && t'.elections[i].id == t.elections[i].id
              && t'.elections[i].status == t.elections[i].status
              && (t'.elections[i].recoveryRequired <==> t.tokens > 0 && t.elections[i].status == "open")
  {
    forall i | 0 <= i < |t.votes| ensures t'.votes[i].election == Some(e) {
      var k :| 0 <= k < |t.candidates| && t.candidates[k].id == t.votes[i].candidate;
      assert t'.candidates[k].id == t.votes[i].candidate;
    }
    FlaggedSays(t.users, user);
    assert HasReceipt(t'.receipts, user) <==> VotedBefore(t, user);
  }

  lemma FlaggedSays(users: seq<User>, user: int)
    ensures FlaggedUser(users, user) <==>
              exists i :: 0 <= i < |users| && users[i].id == user && users[i].hasVoted == Some(true)
  {
    if i :| 0 <= i < |users| && users[i].id == user && users[i].hasVoted == Some(true) {
      assert users[i] == User(user, Some(true));
    }
  }

  // ---------------------------------------------------------------- receipts

  /**
   `INSERT ... SELECT ... WHERE NOT EXISTS`: one statement, so every row of the select sees the receipts as
   they were before it.
   */
  function MissingReceipts(receipts: seq<Receipt>, votes: seq<Vote>, e: int): (r: seq<Receipt>)
  {
    if votes == [] then []
    else
      var v := votes[|votes| - 1];
      MissingReceipts(receipts, votes[..|votes| - 1], e) +
      if v.user.Some? && !HasReceipt(receipts, v.user.value) then [Receipt(v.user.value, v.createdAt, Some(e))] else []
  }

  lemma HasReceiptSnoc(receipts: seq<Receipt>, r: Receipt, user: int)
    ensures HasReceipt(receipts + [r], user) <==> HasReceipt(receipts, user) || r.user == user
  {
    var all := receipts + [r];
    assert all[|receipts|] == r;
    if i :| 0 <= i < |receipts| && receipts[i].user == user {
      assert all[i].user == user;
    }
  }

  lemma HasReceiptAppend(a: seq<Receipt>, b: seq<Receipt>, user: int)
    ensures HasReceipt(a + b, user) <==> HasReceipt(a, user) || HasReceipt(b, user)
  {
    if i :| 0 <= i < |a| && a[i].user == user {
      assert (a + b)[i].user == user;
    }
    if i :| 0 <= i < |b| && b[i].user == user {
      assert (a + b)[|a| + i].user == user;
    }
  }

  lemma OneEachSnoc(receipts: seq<Receipt>, r: Receipt)
    ensures OneEach(receipts + [r]) <==> OneEach(receipts) && !HasReceipt(receipts, r.user)
  {
    var all := receipts + [r];
    assert all[|receipts|] == r;
    assert forall i :: 0 <= i < |receipts| ==> all[i] == receipts[i];
  }

  lemma NamedByVoteSnoc(votes: seq<Vote>, v: Vote, user: int)
    ensures NamedByVote(votes + [v], user) <==> NamedByVote(votes, user) || v.user == Some(user)
  {
    var all := votes + [v];
    assert all[|votes|] == v;
    if i :| 0 <= i < |votes| && votes[i].user == Some(user) {
      assert all[i].user == Some(user);
    }
  }

  /** The statement's rows: one per identified ballot of a user without a receipt. */
  lemma {:induction false} MissingReceiptsFor(receipts: seq<Receipt>, votes: seq<Vote>, e: int, user: int)
    ensures HasReceipt(MissingReceipts(receipts, votes, e), user) <==>
              NamedByVote(votes, user) && !HasReceipt(receipts, user)
    ensures forall i :: 0 <= i < |MissingReceipts(receipts, votes, e)| ==>
        MissingReceipts(receipts, votes, e)[i].election == Some(e)
  {
    if votes != [] {
      var before, v := votes[..|votes| - 1], votes[|votes| - 1];
      assert votes == before + [v];
      MissingReceiptsFor(receipts, before, e, user);
      NamedByVoteSnoc(before, v, user);
      if v.user.Some? && !HasReceipt(receipts, v.user.value) {
        HasReceiptSnoc(MissingReceipts(receipts, before, e), Receipt(v.user.value, v.createdAt, Some(e)), user);
      } else {
        assert MissingReceipts(receipts, votes, e) == MissingReceipts(receipts, before, e);
      }
    }
  }

  lemma {:induction false} MissingReceiptsDated(receipts: seq<Receipt>, votes: seq<Vote>, e: int, i: nat)
    requires i < |MissingReceipts(receipts, votes, e)|
    ensures var r := MissingReceipts(receipts, votes, e)[i]; CastAt(votes, r.user, r.votedAt)
  {
    var before := votes[..|votes| - 1];
    var rows := MissingReceipts(receipts, before, e);
    if i < |rows| {
      MissingReceiptsDated(receipts, before, e, i);
      var k :| 0 <= k < |before| && before[k].user == Some(rows[i].user) && before[k].createdAt == rows[i].votedAt;
      assert votes[k] == before[k];
    } else {
      assert votes[|votes| - 1].user.Some?;
    }
  }

  lemma UnreceiptedSnoc(receipts: seq<Receipt>, votes: seq<Vote>, v: Vote)
    ensures UnreceiptedVotersDistinct(receipts, votes + [v]) <==>
              && UnreceiptedVotersDistinct(receipts, votes)
              && (v.user.Some? && !HasReceipt(receipts, v.user.value) ==> !NamedByVote(votes, v.user.value))
  {
    var all := votes + [v];
    assert all[|votes|] == v;
    assert forall i :: 0 <= i < |votes| ==> all[i] == votes[i];
  }

  /** The statement leaves one receipt each exactly when there was one each and no unreceipted voter is named twice. */
  lemma {:induction false} InsertIsOneEach(receipts: seq<Receipt>, votes: seq<Vote>, e: int)
    ensures OneEach(receipts + MissingReceipts(receipts, votes, e)) <==>
              OneEach(receipts) && UnreceiptedVotersDistinct(receipts, votes)
  {
    if votes == [] {
      assert receipts + [] == receipts;
    } else {
      var before, v := votes[..|votes| - 1], votes[|votes| - 1];
      assert votes == before + [v];
      InsertIsOneEach(receipts, before, e);
      UnreceiptedSnoc(receipts, before, v);
      var rows := MissingReceipts(receipts, before, e);
      if v.user.Some? && !HasReceipt(receipts, v.user.value) {
        var r := Receipt(v.user.value, v.createdAt, Some(e));
        assert receipts + (rows + [r]) == (receipts + rows) + [r];
        OneEachSnoc(receipts + rows, r);
        HasReceiptAppend(receipts, rows, r.user);
        MissingReceiptsFor(receipts, before, e, r.user);
      } else {
        assert MissingReceipts(receipts, votes, e) == rows;
      }
    }
  }

  /** Giving every receipt an election changes neither who has one nor how many. */
  lemma ScopedReceipts(receipts: seq<Receipt>, scoped: seq<Receipt>, e: int)
    requires |scoped| == |receipts|
    requires forall i :: 0 <= i < |receipts| ==> scoped[i] == receipts[i].(election := Some(e))
    ensures forall user :: HasReceipt(scoped, user) <==> HasReceipt(receipts, user)
    ensures OneEach(scoped) <==> OneEach(receipts)
  {
    forall user ensures HasReceipt(scoped, user) <==> HasReceipt(receipts, user) {
      if i :| 0 <= i < |receipts| && receipts[i].user == user {
        assert scoped[i].user == user;
      }
      if i :| 0 <= i < |scoped| && scoped[i].user == user {
        assert receipts[i].user == user;
      }
    }
    assert forall i :: 0 <= i < |receipts| ==> scoped[i].user == receipts[i].user;
  }

  // ---------------------------------------------------------------- the migration

  /** `(SELECT candidate.election_id FROM candidate WHERE candidate.id = ...)`, null when there is no such row. */
  function ElectionOf(candidates: seq<Candidate>, id: int): (e: Option<int>)
  {
    if candidates == [] then None
    else if candidates[0].id == id then candidates[0].election
    else ElectionOf(candidates[1..], id)
  }

  /** A ballot for a known candidate goes to the target election, any other to none. */
  function TargetOf(candidates: seq<Candidate>, id: int, e: int): (r: Option<int>)
  {
    if HasCandidate(candidates, id) then Some(e) else None
  }

  lemma {:induction false} ElectionOfScoped(candidates: seq<Candidate>, id: int, e: int)
    requires forall i :: 0 <= i < |candidates| ==> candidates[i].election == Some(e)
    ensures ElectionOf(candidates, id) == TargetOf(candidates, id, e)
  {
    if candidates != [] && candidates[0].id != id {
      var rest := candidates[1..];
      ElectionOfScoped(rest, id, e);
      if i :| 0 <= i < |candidates| && candidates[i].id == id {
        assert rest[i - 1].id == id;
      }
      if i :| 0 <= i < |rest| && rest[i].id == id {
        assert candidates[i + 1].id == id;
      }
    }
  }

  lemma FlaggedSnoc(users: seq<User>, k: nat, user: int)
    requires k < |users|
    ensures FlaggedUser(users[..k + 1], user) <==> FlaggedUser(users[..k], user) || users[k] == User(user, Some(true))
  {
    assert users[..k + 1][k] == users[k];
    if i :| 0 <= i < k && users[..k][i] == User(user, Some(true)) {
      assert users[..k + 1][i] == User(user, Some(true));
    }
    if FlaggedUser(users[..k + 1], user) && users[k] != User(user, Some(true)) {
      var longer := users[..k + 1];
      var i :| 0 <= i < |longer| && longer[i] == User(user, Some(true));
      assert users[..k][i] == longer[i];
    }
  }

  /** What the constraints of the new schema demand of the rows. */
  ghost predicate Admissible(elections: seq<Election>, votes: seq<Vote>, receipts: seq<Receipt>)
  {
    && (forall i :: 0 <= i < |elections| ==> KnownStatus(elections[i].status))
    && (forall i :: 0 <= i < |votes| ==> votes[i].election.Some?)
    && TokensUsable(seq(|votes|, i requires 0 <= i < |votes| => votes[i].token))
    && OneEach(receipts)
  }

  class LegacyDatabase {
    var schema: Schema
    var elections: seq<Election>
    var candidates: seq<Candidate>
    var votes: seq<Vote>
    var receipts: seq<Receipt>
    var users: seq<User>
    var tokens: nat

    ghost function Rows(): (t: Tables)
      reads this
    {
      Tables(schema, elections, candidates, votes, receipts, users, tokens)
    }

    /** Columns that do not exist hold nothing. */
    ghost predicate ColumnsFit()
      reads this
    {
      && (schema.Legacy? && !schema.voteUser ==> forall i :: 0 <= i < |votes| ==> votes[i].user.None?)
      && (schema.Legacy? ==> forall i :: 0 <= i < |elections| ==> !elections[i].recoveryRequired)
    }

    /** One UPDATE per ballot, each with a new random token. */
    method FillVoterTokens(minted: seq<string>)
      requires |minted| == |votes|
      modifies this`votes
      ensures |votes| == |old(votes)|
      ensures forall i :: 0 <= i < |votes| ==> votes[i] == old(votes)[i].(token := Some(minted[i]))
    {
      var k := 0;
      while k < |votes|
        invariant 0 <= k <= |votes| == |old(votes)|
        invariant forall i :: 0 <= i < k ==> votes[i] == old(votes)[i].(token := Some(minted[i]))
        invariant forall i :: k <= i < |votes| ==> votes[i] == old(votes)[i]
      {
        votes := votes[k := votes[k].(token := Some(minted[k]))];
        k := k + 1;
      }
    }

    /** The earliest election; a database without any gets a closed one. */
    method TargetElection(newId: int, now: Instant) returns (e: int)
      modifies this`elections
      ensures old(elections) != [] ==> IsTarget(elections, e) && elections == old(elections)
      ensures old(elections) == [] ==> e == newId && elections == [Election(e, IMPORTED, "closed", Some(now), false)]
    {
      if elections == [] {
        elections := [Election(newId, IMPORTED, "closed", Some(now), false)];
        return newId;
      }
      var best, k := 0, 1;
      while k < |elections|
        invariant 0 <= best < k <= |elections|
        invariant forall j :: 0 <= j < k ==> Earlier(elections[best], elections[j])
      {
        if !Earlier(elections[best], elections[k]) {
          best := k;
        }
        k := k + 1;
      }
      assert IsFirst(elections, best);
      return elections[best].id;
    }

    /** The three UPDATE statements that hang candidates, ballots and receipts on elections. */
    method ScopeRows(e: int)
      modifies this`candidates, this`votes, this`receipts
      ensures CandidatesKept(old(candidates), candidates, e)
      ensures |votes| == |old(votes)|
      ensures forall i :: 0 <= i < |votes| ==>
                votes[i] == old(votes)[i].(election := TargetOf(old(candidates), old(votes)[i].candidate, e))
      ensures |receipts| == |old(receipts)|
      ensures forall i :: 0 <= i < |receipts| ==> receipts[i] == old(receipts)[i].(election := Some(e))
    {
      var cs, vs, rs := candidates, votes, receipts;
      candidates := seq(|cs|, i requires 0 <= i < |cs| => cs[i].(election := Some(e)));
      var scoped := candidates;
      votes := seq(|vs|, i requires 0 <= i < |vs| => vs[i].(election := ElectionOf(scoped, vs[i].candidate)));
      receipts := seq(|rs|, i requires 0 <= i < |rs| => rs[i].(election := Some(e)));
      forall id ensures ElectionOf(scoped, id) == TargetOf(cs, id, e) {
        ElectionOfScoped(scoped, id, e);
        SameIds(cs, scoped, id);
      }
    }

    /** A receipt for every identified ballot of a user who has none. */
    method ReceiptsFromVotes(e: int)
      requires forall i :: 0 <= i < |receipts| ==> receipts[i].election == Some(e)
      modifies this`receipts
      ensures ReceiptsKept(old(receipts), receipts, e) && Dated(receipts, |old(receipts)|, votes)
      ensures OneEach(receipts) <==> OneEach(old(receipts)) && UnreceiptedVotersDistinct(old(receipts), votes)
      ensures forall user :: HasReceipt(receipts, user) <==> HasReceipt(old(receipts), user) || NamedByVote(votes, user)
    {
      var rows := MissingReceipts(receipts, votes, e);
      InsertIsOneEach(receipts, votes, e);
      forall user
        ensures HasReceipt(receipts + rows, user) <==> HasReceipt(receipts, user) || NamedByVote(votes, user)
      {
        HasReceiptAppend(receipts, rows, user);
        MissingReceiptsFor(receipts, votes, e, user);
      }
      MissingReceiptsFor(receipts, votes, e, 0);
      forall i | 0 <= i < |rows| ensures CastAt(votes, rows[i].user, rows[i].votedAt) {
        MissingReceiptsDated(receipts, votes, e, i);
      }
      receipts := receipts + rows;
    }

    /** A receipt for every user flagged as having voted who still has none, one statement per user. */
    method ReceiptsFromFlags(e: int, stamps: seq<Instant>)
      requires |stamps| == |users|
      requires forall i :: 0 <= i < |receipts| ==> receipts[i].election == Some(e)
      modifies this`receipts
      ensures ReceiptsKept(old(receipts), receipts, e)
      ensures forall i :: |old(receipts)| <= i < |receipts| ==> !HasReceipt(old(receipts), receipts[i].user)
      ensures forall i :: |old(receipts)| <= i < |receipts| ==> StampedFor(users, stamps, receipts[i])
      ensures OneEach(receipts) <==> OneEach(old(receipts))
      ensures forall user :: HasReceipt(receipts, user) <==> HasReceipt(old(receipts), user) || FlaggedUser(users, user)
    {
      var k := 0;
      while k < |users|
        invariant 0 <= k <= |users|
        invariant ReceiptsKept(old(receipts), receipts, e)
        invariant forall i :: |old(receipts)| <= i < |receipts| ==> !HasReceipt(old(receipts), receipts[i].user)
        invariant forall i :: |old(receipts)| <= i < |receipts| ==> StampedFor(users, stamps, receipts[i])
        invariant OneEach(receipts) <==> OneEach(old(receipts))
        invariant forall user :: HasReceipt(receipts, user) <==>
            HasReceipt(old(receipts), user) || FlaggedUser(users[..k], user)
      {
        ghost var before := receipts;
        if users[k].hasVoted == Some(true) && !HasReceipt(receipts, users[k].id) {
          var r := Receipt(users[k].id, stamps[k], Some(e));
          OneEachSnoc(receipts, r);
          assert StampedFor(users, stamps, r);
          receipts := receipts + [r];
        }
        forall user
          ensures HasReceipt(receipts, user) <==> HasReceipt(old(receipts), user) || FlaggedUser(users[..k + 1], user)
        {
          FlaggedSnoc(users, k, user);
          if receipts != before {
            HasReceiptSnoc(before, receipts[|before|], user);
          }
        }
        k := k + 1;
      }
      assert users[..|users|] == users;
    }

    /** All receipts the migration writes, on top of those it found. */
    method Backfill(columns: Schema, e: int, stamps: seq<Instant>)
      requires columns.Legacy? && |stamps| == |users|
      requires forall i :: 0 <= i < |receipts| ==> receipts[i].election == Some(e)
      modifies this`receipts
      ensures ReceiptsKept(old(receipts), receipts, e)
      ensures columns.voteUser ==> Dated(receipts, |old(receipts)|, votes)
      ensures OneEach(receipts) <==>
                OneEach(old(receipts)) && (columns.voteUser ==> UnreceiptedVotersDistinct(old(receipts), votes))
      ensures forall user :: HasReceipt(receipts, user) <==>
                || HasReceipt(old(receipts), user)
                || (columns.voteUser && NamedByVote(votes, user))
                || (columns.userHasVoted && FlaggedUser(users, user))
    {
      if columns.voteUser {
        ReceiptsFromVotes(e);
      }
      if columns.userHasVoted {
        ReceiptsFromFlags(e, stamps);
      }
    }

    /** Open elections are quarantined when any legacy authorisation exists; the authorisations go. */
    method Quarantine()
      modifies this`elections, this`tokens
      ensures tokens == 0 && |elections| == |old(elections)|
      ensures forall i :: 0 <= i < |elections| ==>
                elections[i] == old(elections)[i].(recoveryRequired :=
                  old(elections)[i].recoveryRequired || (old(tokens) > 0 && old(elections)[i].status == "open"))
    {
      var es := elections;
      if tokens > 0 {
        elections := seq(|es|, i requires 0 <= i < |es| =>
          if es[i].status == "open" then es[i].(recoveryRequired := true) else es[i]);
      }
      tokens := 0;
    }

    /** The check, not-null and unique constraints created at the end; then the identity columns are dropped. */
    method Constrain() returns (ok: bool)
      modifies this`votes, this`schema
      ensures ok <==> Admissible(elections, old(votes), receipts)
      ensures ok ==> schema.Scoped? && |votes| == |old(votes)| &&
                     forall i :: 0 <= i < |votes| ==> votes[i] == old(votes)[i].(user := None)
      ensures !ok ==> votes == old(votes) && schema == old(schema)
    {
      var vs, rs := votes, receipts;
      ghost var ts := seq(|vs|, i requires 0 <= i < |vs| => vs[i].token);
      var distinctTokens := forall i, j :: 0 <= i < j < |vs| ==> vs[i].token != vs[j].token;
      var present := forall i :: 0 <= i < |vs| ==> vs[i].token.Some? && vs[i].election.Some?;
      assert forall i :: 0 <= i < |vs| ==> ts[i] == vs[i].token;
      ok := && (forall i :: 0 <= i < |elections| ==> KnownStatus(elections[i].status))
            && present && distinctTokens
            && (forall i, j :: 0 <= i < j < |rs| ==> rs[i].user != rs[j].user);
      if ok {
        votes := seq(|vs|, i requires 0 <= i < |vs| => vs[i].(user := None));
        schema := Scoped;
      }
    }

    /** Tokens, target election and scoping: the steps before receipts are added. */
    method PlaceRows(minted: seq<string>, newId: int, now: Instant) returns (e: int)
      requires schema.Legacy? && |minted| == |votes|
      modifies this`elections, this`candidates, this`votes, this`receipts
      ensures old(elections) != [] ==> IsTarget(elections, e) && elections == old(elections)
      ensures old(elections) == [] ==> elections == [Election(e, IMPORTED, "closed", Some(now), false)]
      ensures CandidatesKept(old(candidates), candidates, e)
      ensures SameBallots(old(Rows()), minted, votes, e)
      ensures |receipts| == |old(receipts)|
      ensures forall i :: 0 <= i < |receipts| ==> receipts[i] == old(receipts)[i].(election := Some(e))
    {
      if !schema.voterToken {
        FillVoterTokens(minted);
      }
      e := TargetElection(newId, now);
      ScopeRows(e);
    }

    /** The data steps, up to the constraints. */
    method MoveRows(minted: seq<string>, newId: int, now: Instant, stamps: seq<Instant>) returns (e: int)
      requires schema.Legacy? && |minted| == |votes| && |stamps| == |users| && ColumnsFit()
      modifies this`elections, this`candidates, this`votes, this`receipts, this`tokens
      ensures Moved(old(Rows()), minted, Rows(), e)
    {
      ghost var t := Rows();
      e := PlaceRows(minted, newId, now);
      ghost var scoped := receipts;
      Backfill(schema, e, stamps);
      ReceiptsAccounted(t, scoped, votes, receipts, e);
      Quarantine();
    }

    /**
     The whole upgrade. A current schema is left alone and a partial one refused; a legacy database goes
     through exactly when it is migratable, and then everything promised holds of it.
     */
    method Upgrade(minted: seq<string>, newId: int, now: Instant, stamps: seq<Instant>)
      returns (r: Result<int, Failure>)
      requires |minted| == |votes| && |stamps| == |users| && ColumnsFit()
      modifies this
      ensures old(schema).Scoped? ==> r == Ok(0) && Rows() == old(Rows())
      ensures old(schema).Partial? ==> r == Err(PartialSchema) && Rows() == old(Rows())
      ensures old(schema).Legacy? ==> (r.Ok? <==> Migratable(old(Rows()), minted))
      ensures old(schema).Legacy? && LegacyConstraints(old(Rows())) ==>
                (r.Ok? <==> StatusesKnown(old(elections)) && TokensUsable(TokensOf(old(Rows()), minted)))
      ensures old(schema).Legacy? && r.Ok? ==> Migrated(old(Rows()), minted, Rows(), r.value)
    {
      if schema.Scoped? {
        return Ok(0);
      }
      if schema.Partial? {
        return Err(PartialSchema);
      }
      ghost var t := Rows();
      if LegacyConstraints(t) {
        ConstrainedIsMigratable(t, minted);
      }
      var e := MoveRows(minted, newId, now, stamps);
      ghost var moved := Rows();
      MovedIsAdmissible(t, minted, moved, e);
      var ok := Constrain();
      if !ok {
        return Err(IntegrityError);
      }
      MovedIsMigrated(t, minted, moved, Rows(), e);
      return Ok(e);
    }
  }

  /** The tables between the data steps and the constraints. */
  ghost predicate Moved(t: Tables, minted: seq<string>, m: Tables, e: int)
    requires t.schema.Legacy? && |minted| == |t.votes|
  {
    && m.schema == t.schema && m.tokens == 0
    && (t.elections != [] ==> IsTarget(t.elections, e) && ElectionsKept(t.elections, m.elections, t.tokens > 0))
    && (t.elections == [] ==>
        |m.elections| == 1 && m.elections[0].(createdAt := None) == Election(e, IMPORTED, "closed", None, false))
    && CandidatesKept(t.candidates, m.candidates, e)
    && SameBallots(t, minted, m.votes, e)
    && ReceiptsKept(t.receipts, m.receipts, e)
    && (OneEach(m.receipts) <==>
          OneEach(t.receipts) && (t.schema.voteUser ==> UnreceiptedVotersDistinct(t.receipts, t.votes)))
    && (t.schema.voteUser ==> Dated(m.receipts, |t.receipts|, t.votes))
    && (forall user :: HasReceipt(m.receipts, user) <==> VotedBefore(t, user))
  }

  lemma MovedIsAdmissible(t: Tables, minted: seq<string>, m: Tables, e: int)
    requires t.schema.Legacy? && |minted| == |t.votes| && Moved(t, minted, m, e)
    ensures Admissible(m.elections, m.votes, m.receipts) <==> Migratable(t, minted)
  {
    BallotsAccounted(t, minted, m.votes, e);
    if t.elections != [] {
      assert forall i :: 0 <= i < |t.elections| ==> m.elections[i].status == t.elections[i].status;
    }
  }

  lemma MovedIsMigrated(t: Tables, minted: seq<string>, m: Tables, t': Tables, e: int)
    requires t.schema.Legacy? && |minted| == |t.votes| && Moved(t, minted, m, e)
    requires Admissible(m.elections, m.votes, m.receipts)
    requires |t'.votes| == |m.votes| && forall i :: 0 <= i < |m.votes| ==> t'.votes[i] == m.votes[i].(user := None)
    requires t' == m.(votes := t'.votes, schema := Scoped)
    ensures Migrated(t, minted, t', e)
  {
    forall i, k | 0 <= i < |t.votes| && 0 <= k < |t'.candidates| && t'.candidates[k].id == t.votes[i].candidate
      ensures t'.votes[i].election == t'.candidates[k].election
    {
      assert t.candidates[k].id == t.votes[i].candidate;
    }
  }

  /** A ballot row of the migration in progress: the same but for its token and its election. */
  ghost predicate SameBallots(t: Tables, minted: seq<string>, ballots: seq<Vote>, e: int)
    requires t.schema.Legacy? && |minted| == |t.votes|
  {
    |ballots| == |t.votes| && forall i :: 0 <= i < |ballots| ==>
      ballots[i] == t.votes[i].(token := TokensOf(t, minted)[i],
                                election := TargetOf(t.candidates, t.votes[i].candidate, e))
  }

  lemma BallotsAccounted(t: Tables, minted: seq<string>, ballots: seq<Vote>, e: int)
    requires t.schema.Legacy? && |minted| == |t.votes| && SameBallots(t, minted, ballots, e)
    ensures seq(|ballots|, i requires 0 <= i < |ballots| => ballots[i].token) == TokensOf(t, minted)
    ensures (forall i :: 0 <= i < |ballots| ==> ballots[i].election.Some?) <==>
            (forall i :: 0 <= i < |t.votes| ==> HasCandidate(t.candidates, t.votes[i].candidate))
  {
    assert forall i :: 0 <= i < |ballots| ==>
        (ballots[i].election.Some? <==> HasCandidate(t.candidates, t.votes[i].candidate));
  }

  /** Setting tokens and elections does not change whom ballots name, so receipts come out as promised. */
  lemma ReceiptsAccounted(t: Tables, scoped: seq<Receipt>, ballots: seq<Vote>, became: seq<Receipt>, e: int)
    requires t.schema.Legacy?
    requires |scoped| == |t.receipts|
    requires forall i :: 0 <= i < |scoped| ==> scoped[i] == t.receipts[i].(election := Some(e))
    requires |ballots| == |t.votes| && forall i :: 0 <= i < |ballots| ==> ballots[i].user == t.votes[i].user
    requires |ballots| == |t.votes| && forall i :: 0 <= i < |ballots| ==> ballots[i].createdAt == t.votes[i].createdAt
    requires ReceiptsKept(scoped, became, e) && (t.schema.voteUser ==> Dated(became, |scoped|, ballots))
    requires OneEach(became) <==> OneEach(scoped) && (t.schema.voteUser ==> UnreceiptedVotersDistinct(scoped, ballots))
    requires forall user :: HasReceipt(became, user) <==>
               || HasReceipt(scoped, user)
               || (t.schema.voteUser && NamedByVote(ballots, user))
               || (t.schema.userHasVoted && FlaggedUser(t.users, user))
    ensures ReceiptsKept(t.receipts, became, e) && (t.schema.voteUser ==> Dated(became, |t.receipts|, t.votes))
    ensures OneEach(became) <==>
              OneEach(t.receipts) && (t.schema.voteUser ==> UnreceiptedVotersDistinct(t.receipts, t.votes))
    ensures forall user :: HasReceipt(became, user) <==> VotedBefore(t, user)
  {
    ScopedReceipts(t.receipts, scoped, e);
    forall user ensures NamedByVote(ballots, user) <==> NamedByVote(t.votes, user) {
      if i :| 0 <= i < |ballots| && ballots[i].user == Some(user) {
        assert t.votes[i].user == Some(user);
      }
      if i :| 0 <= i < |t.votes| && t.votes[i].user == Some(user) {
        assert ballots[i].user == Some(user);
      }
    }
    assert UnreceiptedVotersDistinct(scoped, ballots) <==> UnreceiptedVotersDistinct(t.receipts, t.votes);
  }

  lemma SameIds(a: seq<Candidate>, b: seq<Candidate>, id: int)
    requires |a| == |b| && forall i :: 0 <= i < |a| ==> a[i].id == b[i].id
    ensures HasCandidate(a, id) <==> HasCandidate(b, id)
  {
    if i :| 0 <= i < |a| && a[i].id == id {
      assert b[i].id == id;
    }
    if i :| 0 <= i < |b| && b[i].id == id {
      assert a[i].id == id;
    }
  }
}
