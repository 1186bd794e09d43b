/**
 The two halves of signing together (app/routes/results.py): the handler counts the ballots of a closed election and
 stores the signed text of that count in one transaction. Whatever the public verifier later reports valid is then
 the dictionary of a fresh recount.
 */
module OfficialResults {
  import opened Common
  import opened Elections
  import opened Tally
  import opened Lifecycle
  import R = Results
  import opened Text
  import Json

  /** The election database, and the stored texts and keys beside it. */
  datatype Books = Books(db: Database, store: R.Store)

  /** A handler other than signing, or signing with the backends as they are at the time. */
  datatype Deed =
    | Handle(step: Step)
    | Sign(e: ElectionId, now: int, vault: R.VaultState, local: Option<R.PrivateKey>, salt: nat)

  /** Signing over a database that holds the count: its text is stored too, or nothing is. */
  function SignOver(c: R.Scheme, iso: int -> string, b: Books, d: Deed, counted: Database): (b': Books)
    requires d.Sign?
  {
    if d.e !in counted.results then b
    else
      var store := R.SignInto(c, d.vault, d.local, d.salt, b.store, d.e, R.ResultValue(d.e, counted.results[d.e], iso));
      if store.None? then b else Books(counted, store.value)
  }

  /** Signing commits the count and its text together, or neither. */
  ghost function Do(env: Env, c: R.Scheme, iso: int -> string, b: Books, d: Deed): (b': Books)
    requires RegionsOk(b.db)
    ensures RegionsOk(b'.db)
  {
    match d
    case Handle(step) => if step.SignResults? then b else b.(db := Next(env, b.db, step))
    case Sign(e, now, _, _, _) =>
      var step := SignResults(e, now);
      if Enabled(env, b.db, step) then SignOver(c, iso, b, d, Next(env, b.db, step)) else b
  }

  ghost function Deeds(env: Env, c: R.Scheme, iso: int -> string, b: Books, deeds: seq<Deed>): (b': Books)
    requires RegionsOk(b.db)
    ensures RegionsOk(b'.db)
  {
    if deeds == [] then b else Do(env, c, iso, Deeds(env, c, iso, b, deeds[..|deeds| - 1]), deeds[|deeds| - 1])
  }

  function Opened(regions: map<RegionId, string>): (b: Books)
  {
    Books(Empty(regions), R.Store(map[], map[]))
  }

  // ---------------------------------------------------------------- the two halves agree

  /** The stored text of an election is the canonical text of its counted projection. */
  ghost predicate Coupled(iso: int -> string, b: Books)
  {
    && (forall e :: e in b.db.results <==> e in b.store.results)
    && (forall e :: e in b.store.results ==>
          b.store.results[e].payload == Json.Print(R.ResultValue(e, b.db.results[e], iso)))
  }

  /** A result carries the name of its election. */
  ghost predicate NamesMatch(s: Database)
  {
    forall e :: e in s.results ==> e in s.elections && s.results[e].electionName == s.elections[e].name
  }

  ghost predicate InOrder(env: Env, c: R.Scheme, iso: int -> string, pyInt: string -> Option<int>, b: Books)
  {
    Inv(env, b.db) && NamesMatch(b.db) && R.StoreOk(c, pyInt, b.store) && Coupled(iso, b)
  }

  /** Only signing touches results, and it adds one. */
  lemma ResultsAfter(env: Env, s: Database, step: Step)
    requires RegionsOk(s)
    ensures !step.SignResults? ==> Next(env, s, step).results == s.results
    ensures step.SignResults? && Enabled(env, s, step) ==>
              && step.id !in s.results && step.id in Next(env, s, step).results
              && Next(env, s, step).results == s.results[step.id := Next(env, s, step).results[step.id]]
  {
  }

  lemma NamesKept(env: Env, s: Database, step: Step)
    requires Inv(env, s) && NamesMatch(s)
    ensures NamesMatch(Next(env, s, step))
  {
    var s' := Next(env, s, step);
    forall e | e in s'.results ensures e in s'.elections && s'.results[e].electionName == s'.elections[e].name {
      ResultOrigin(env, s, step, e);
      if e in s.results {
        StepKeepsElection(env, s, step, e);
      } else {
        SignedName(env, s, step);
      }
    }
  }

  /** Signing takes name and time from the election row and the clock. */
  lemma SignedName(env: Env, s: Database, step: Step)
    requires RegionsOk(s) && step.SignResults? && Enabled(env, s, step)
    ensures var s' := Next(env, s, step);
            && s'.elections == s.elections && step.id in s.elections && step.id in s'.results
            && s'.results[step.id].electionName == s.elections[step.id].name
            && s'.results[step.id].signedAt == step.now
  {
  }

  /** Storing a result adds exactly the text of its dictionary and keeps the store checkable. */
  lemma StoredText(c: R.Scheme, pyInt: string -> Option<int>, d: Deed, s: R.Store, s': R.Store, v: Json.Value)
    requires c.Lawful() && R.StoreOk(c, pyInt, s) && d.Sign?
    requires Json.WellFormed(v) && v.Obj? && R.ElectionIdOf(v, pyInt) == Some(d.e)
    requires R.SignInto(c, d.vault, d.local, d.salt, s, d.e, v) == Some(s')
    ensures R.StoreOk(c, pyInt, s') && R.Extends(s, s')
    ensures d.e in s'.results && s'.results[d.e].payload == Json.Print(v)
    ensures s'.results == s.results[d.e := s'.results[d.e]]
  {
    R.SignKeepsStore(c, d.vault, d.local, d.salt, pyInt, s, d.e, v);
    AddsText(c, d, s, s', v);
  }

  lemma AddsText(c: R.Scheme, d: Deed, s: R.Store, s': R.Store, v: Json.Value)
    requires d.Sign? && R.SignInto(c, d.vault, d.local, d.salt, s, d.e, v) == Some(s')
    ensures d.e in s'.results && s'.results[d.e].payload == Json.Print(v)
    ensures s'.results == s.results[d.e := s'.results[d.e]]
  {
  }

  /** A stored result that is locally signed verifies, and whatever verifies has a stored text. */
  lemma StoredVerifies(c: R.Scheme, pyInt: string -> Option<int>, s: R.Store, e: ElectionId, vault: R.VaultState,
                       v: Json.Value)
    requires R.StoreOk(c, pyInt, s) && e in s.results && s.results[e].payload == Json.Print(v)
    requires s.results[e].provenance.backend == R.LOCAL_BACKEND && s.results[e].signature != ""
    requires v.Obj? && R.ElectionIdOf(v, pyInt) == Some(e)
    ensures R.VerifySubmission(c, vault, pyInt, s, v, s.results[e].signature) == R.Checked(true)
  {
    assert R.LocalRowOk(c, s, s.results[e]);
  }

  lemma VerifiedIsStored(c: R.Scheme, pyInt: string -> Option<int>, s: R.Store, vault: R.VaultState, v: Json.Value,
                         signature: string)
    requires R.VerifySubmission(c, vault, pyInt, s, v, signature) == R.Checked(true)
    ensures var e := R.ElectionIdOf(v, pyInt);
            e.Some? && e.value in s.results && s.results[e.value].payload == Json.Print(v)
  {
  }

  lemma CoupledSign(iso: int -> string, b: Books, b': Books, e: ElectionId)
    requires Coupled(iso, b) && e in b'.db.results && e in b'.store.results
    requires b'.db.results == b.db.results[e := b'.db.results[e]]
    requires b'.store.results == b.store.results[e := b'.store.results[e]]
    requires b'.store.results[e].payload == Json.Print(R.ResultValue(e, b'.db.results[e], iso))
    ensures Coupled(iso, b')
  {
  }

  lemma HandlingKeepsOrder(env: Env, c: R.Scheme, iso: int -> string, pyInt: string -> Option<int>, b: Books,
                           step: Step)
    requires InOrder(env, c, iso, pyInt, b) && !step.SignResults?
    ensures InOrder(env, c, iso, pyInt, b.(db := Next(env, b.db, step)))
  {
    InvKept(env, b.db, step);
    NamesKept(env, b.db, step);
    ResultsAfter(env, b.db, step);
  }

  lemma DeedKeepsOrder(env: Env, c: R.Scheme, iso: int -> string, pyInt: string -> Option<int>, b: Books, d: Deed)
    requires c.Lawful() && InOrder(env, c, iso, pyInt, b)
    ensures InOrder(env, c, iso, pyInt, Do(env, c, iso, b, d))
    ensures R.Extends(b.store, Do(env, c, iso, b, d).store)
  {
    if d.Handle? {
      if !d.step.SignResults? {
        HandlingKeepsOrder(env, c, iso, pyInt, b, d.step);
      }
    } else if Enabled(env, b.db, SignResults(d.e, d.now)) {
      InvKept(env, b.db, SignResults(d.e, d.now));
      NamesKept(env, b.db, SignResults(d.e, d.now));
      ResultsAfter(env, b.db, SignResults(d.e, d.now));
      SigningKeepsOrder(c, iso, pyInt, b, d, Next(env, b.db, SignResults(d.e, d.now)));
    }
  }

  lemma SigningKeepsOrder(c: R.Scheme, iso: int -> string, pyInt: string -> Option<int>, b: Books, d: Deed,
                          counted: Database)
    requires c.Lawful() && R.StoreOk(c, pyInt, b.store) && Coupled(iso, b) && d.Sign?
    requires d.e in counted.results && counted.results == b.db.results[d.e := counted.results[d.e]]
    ensures var b' := SignOver(c, iso, b, d, counted);
            && R.StoreOk(c, pyInt, b'.store) && R.Extends(b.store, b'.store) && Coupled(iso, b')
            && (b' == b || b'.db == counted)
  {
    var b' := SignOver(c, iso, b, d, counted);
    if b' != b {
      BothHalves(c, iso, pyInt, b, d, counted, b'.store);
    }
  }

  /** The count on one side and its text on the other. */
  lemma BothHalves(c: R.Scheme, iso: int -> string, pyInt: string -> Option<int>, b: Books, d: Deed, db': Database,
                   store': R.Store)
    requires c.Lawful() && R.StoreOk(c, pyInt, b.store) && Coupled(iso, b) && d.Sign?
    requires d.e in db'.results && db'.results == b.db.results[d.e := db'.results[d.e]]
    requires R.SignInto(c, d.vault, d.local, d.salt, b.store, d.e, R.ResultValue(d.e, db'.results[d.e], iso)) ==
             Some(store')
    ensures R.StoreOk(c, pyInt, store') && R.Extends(b.store, store') && Coupled(iso, Books(db', store'))
  {
    R.ResultWellFormed(d.e, db'.results[d.e], iso, pyInt);
    StoredText(c, pyInt, d, b.store, store', R.ResultValue(d.e, db'.results[d.e], iso));
    CoupledSign(iso, b, Books(db', store'), d.e);
  }

  lemma {:induction false} DeedsKeepOrder(env: Env, c: R.Scheme, iso: int -> string, pyInt: string -> Option<int>,
                                          b: Books, deeds: seq<Deed>)
    requires c.Lawful() && InOrder(env, c, iso, pyInt, b)
    ensures InOrder(env, c, iso, pyInt, Deeds(env, c, iso, b, deeds))
    ensures R.Extends(b.store, Deeds(env, c, iso, b, deeds).store)
  {
    if deeds != [] {
      DeedsKeepOrder(env, c, iso, pyInt, b, deeds[..|deeds| - 1]);
      DeedKeepsOrder(env, c, iso, pyInt, Deeds(env, c, iso, b, deeds[..|deeds| - 1]), deeds[|deeds| - 1]);
    }
  }

  // ---------------------------------------------------------------- what the public may rely on

  /** The object says of the candidate what the stored rows say, and nothing else. */
  ghost predicate SaysOf(s: Database, e: ElectionId, c: CandidateId, item: Json.Value)
  {
    && c in s.candidates && s.candidates[c].election == e && s.candidates[c].region in s.regions
    && item.Obj? && (forall k :: Json.Lookup(item.fields, k).Some? ==> R.RowKey(k))
    && Json.Lookup(item.fields, "candidate_id") == Some(Json.Num(c))
    && Json.Lookup(item.fields, "name") == Some(Json.Str(s.candidates[c].name))
    && Json.Lookup(item.fields, "position") == Some(Json.Str(s.candidates[c].position))
    && Json.Lookup(item.fields, "region_id") == Some(Json.Num(s.candidates[c].region))
    && Json.Lookup(item.fields, "region") == Some(Json.Str(s.regions[s.candidates[c].region]))
    && Json.Lookup(item.fields, "votes") == Some(Json.Num(|BallotsFor(s, e, c)|))
  }

  /** More ballots first, then the smaller name, then the smaller id. */
  ghost predicate Outranks(s: Database, e: ElectionId, c: CandidateId, d: CandidateId)
    requires c in s.candidates && d in s.candidates
  {
    || |BallotsFor(s, e, c)| > |BallotsFor(s, e, d)|
    || (|BallotsFor(s, e, c)| == |BallotsFor(s, e, d)| &&
        (Less(s.candidates[c].name, s.candidates[d].name) || (s.candidates[c].name == s.candidates[d].name && c < d)))
  }

  /** One object for each candidate of the election, in order of rank. */
  ghost predicate SaysAll(s: Database, e: ElectionId, ids: seq<CandidateId>, items: seq<Json.Value>)
  {
    && |ids| == |items|
    && (forall i :: 0 <= i < |ids| ==> SaysOf(s, e, ids[i], items[i]))
    && (forall c :: c in s.candidates && s.candidates[c].election == e ==> c in ids)
    && (forall i, j :: 0 <= i < j < |ids| ==> Outranks(s, e, ids[i], ids[j]))
  }

  /** The dictionary says what a count of the stored ballots of the election says, key by key, and nothing else. */
  ghost predicate SaysCount(s: Database, e: ElectionId, iso: int -> string, data: Json.Value)
  {
    && e in s.elections && e in s.results
    && data.Obj? && (forall k :: Json.Lookup(data.fields, k).Some? ==> R.ResultKey(k))
    && Json.Lookup(data.fields, "election_id") == Some(Json.Num(e))
    && Json.Lookup(data.fields, "election_name") == Some(Json.Str(s.elections[e].name))
    && Json.Lookup(data.fields, "signed_at") == Some(Json.Str(iso(s.results[e].signedAt)))
    && Json.Lookup(data.fields, "total_votes") == Some(Json.Num(|VotesIn(s, e)|))
    && exists ids, items ::
         Json.Lookup(data.fields, "results") == Some(Json.Arr(items)) && SaysAll(s, e, ids, items)
  }

  /** The row of a candidate, printed, says what it should. */
  lemma RowSaysOf(s: Database, e: ElectionId, r: TallyRow)
    requires RegionsOk(s) && r.candidate in Roster(s, e) && r == Row(s, e, r.candidate)
    ensures SaysOf(s, e, r.candidate, R.RowValue(r))
  {
    R.RowSays(r);
  }

  /** The rows of a recount, printed, say all there is to say. */
  lemma RecountSaysAll(s: Database, e: ElectionId, rows: seq<TallyRow>) returns (ids: seq<CandidateId>)
    requires RegionsOk(s) && IsRecount(s, e, rows)
    ensures SaysAll(s, e, ids, R.RowsValue(rows).items)
  {
    ids := seq(|rows|, i requires 0 <= i < |rows| => rows[i].candidate);
    forall i | 0 <= i < |ids| ensures SaysOf(s, e, ids[i], R.RowsValue(rows).items[i]) {
      RowSaysOf(s, e, rows[i]);
    }
    forall c | c in s.candidates && s.candidates[c].election == e ensures c in ids {
      assert c in Roster(s, e) && Lists(rows, c);
      var i :| 0 <= i < |rows| && rows[i].candidate == c;
      assert ids[i] == c;
    }
    forall i, j | 0 <= i < j < |ids| ensures Outranks(s, e, ids[i], ids[j]) {
      BeforeOutranks(s, e, rows[i], rows[j]);
    }
  }

  lemma BeforeOutranks(s: Database, e: ElectionId, r: TallyRow, q: TallyRow)
    requires RegionsOk(s) && r.candidate in Roster(s, e) && r == Row(s, e, r.candidate)
    requires q.candidate in Roster(s, e) && q == Row(s, e, q.candidate) && Before(r, q)
    ensures Outranks(s, e, r.candidate, q.candidate)
  {
  }

  /** An object that says this of a candidate is the one a recount prints. */
  lemma SameItem(s: Database, e: ElectionId, c: CandidateId, item: Json.Value)
    requires RegionsOk(s) && Json.WellFormed(item) && SaysOf(s, e, c, item)
    ensures item == R.RowValue(Row(s, e, c))
  {
    var printed := R.RowValue(Row(s, e, c));
    R.RowWellFormed(Row(s, e, c));
    R.RowSays(Row(s, e, c));
    forall k ensures Json.Lookup(item.fields, k) == Json.Lookup(printed.fields, k) {
      if !R.RowKey(k) {
        assert Json.Lookup(item.fields, k).None? && Json.Lookup(printed.fields, k).None?;
      }
    }
    Json.LookupDetermines(item.fields, printed.fields);
  }

  /** A list that says it all is the recount, printed. */
  lemma OnlyTheRecount(s: Database, e: ElectionId, rows: seq<TallyRow>, ids: seq<CandidateId>, items: seq<Json.Value>)
    requires RegionsOk(s) && IsRecount(s, e, rows) && SaysAll(s, e, ids, items)
    requires Json.WellFormed(Json.Arr(items))
    ensures Json.Arr(items) == R.RowsValue(rows)
  {
    var counted := seq(|ids|, i requires 0 <= i < |ids| => Row(s, e, ids[i]));
    forall c | c in Roster(s, e) ensures Lists(counted, c) {
      var i :| 0 <= i < |ids| && ids[i] == c;
      assert counted[i].candidate == c;
    }
    forall i, j | 0 <= i < j < |counted| ensures Before(counted[i], counted[j]) {
      assert Outranks(s, e, ids[i], ids[j]);
    }
    RecountUnique(s, e, counted, rows);
    forall i | 0 <= i < |items| ensures items[i] == R.RowValue(rows[i]) {
      assert SaysOf(s, e, ids[i], items[i]);
      SameItem(s, e, ids[i], items[i]);
    }
  }

  /** The signed dictionary is the one dictionary that says the count. */
  lemma SignedIsCount(env: Env, s: Database, e: ElectionId, iso: int -> string, data: Json.Value)
    requires Inv(env, s) && NamesMatch(s) && e in s.results && Json.WellFormed(data)
    ensures data == R.ResultValue(e, s.results[e], iso) <==> SaysCount(s, e, iso, data)
  {
    var p := s.results[e];
    var signed := R.ResultValue(e, p, iso);
    R.ResultSays(e, p, iso);
    R.ResultWellFormed(e, p, iso, text => None);
    if data == signed {
      forall k | Json.Lookup(data.fields, k).Some? ensures R.ResultKey(k) {
        R.ResultSaysNoMore(e, p, iso, k);
      }
      var ids := RecountSaysAll(s, e, p.rows);
    }
    if SaysCount(s, e, iso, data) {
      var ids, items :| Json.Lookup(data.fields, "results") == Some(Json.Arr(items)) && SaysAll(s, e, ids, items);
      FieldIsWellFormed(data.fields, "results");
      OnlyTheRecount(s, e, p.rows, ids, items);
      SameDictionary(e, p, iso, data.fields);
    }
  }

  lemma {:induction false} FieldIsWellFormed(fields: seq<Json.Field>, key: string)
    requires Json.FieldsOk(fields) && Json.Lookup(fields, key).Some?
    ensures Json.WellFormed(Json.Lookup(fields, key).value)
  {
    if fields[0].key != key {
      FieldIsWellFormed(fields[1..], key);
    }
  }

  lemma SameDictionary(e: ElectionId, p: Projection, iso: int -> string, fields: seq<Json.Field>)
    requires Json.FieldsOk(fields) && forall k :: Json.Lookup(fields, k).Some? ==> R.ResultKey(k)
    requires Json.Lookup(fields, "election_id") == Some(Json.Num(e))
    requires Json.Lookup(fields, "election_name") == Some(Json.Str(p.electionName))
    requires Json.Lookup(fields, "results") == Some(R.RowsValue(p.rows))
    requires Json.Lookup(fields, "signed_at") == Some(Json.Str(iso(p.signedAt)))
    requires Json.Lookup(fields, "total_votes") == Some(Json.Num(p.total))
    ensures fields == R.ResultValue(e, p, iso).fields
  {
    var signed := R.ResultValue(e, p, iso).fields;
    R.ResultWellFormed(e, p, iso, text => None);
    R.ResultSays(e, p, iso);
    forall k ensures Json.Lookup(signed, k).Some? ==> R.ResultKey(k) {
      if Json.Lookup(signed, k).Some? {
        R.ResultSaysNoMore(e, p, iso, k);
      }
    }
    SameOnTheKeys(fields, signed);
  }

  lemma SameOnTheKeys(a: seq<Json.Field>, b: seq<Json.Field>)
    requires Json.FieldsOk(a) && Json.FieldsOk(b)
    requires forall k :: Json.Lookup(a, k).Some? || Json.Lookup(b, k).Some? ==> R.ResultKey(k)
    requires Json.Lookup(a, "election_id") == Json.Lookup(b, "election_id")
    requires Json.Lookup(a, "election_name") == Json.Lookup(b, "election_name")
    requires Json.Lookup(a, "results") == Json.Lookup(b, "results")
    requires Json.Lookup(a, "signed_at") == Json.Lookup(b, "signed_at")
    requires Json.Lookup(a, "total_votes") == Json.Lookup(b, "total_votes")
    ensures a == b
  {
    forall k ensures Json.Lookup(a, k) == Json.Lookup(b, k) {
      if !R.ResultKey(k) {
        assert Json.Lookup(a, k).None? && Json.Lookup(b, k).None?;
      }
    }
    Json.LookupDetermines(a, b);
  }

  /**
   In every state of every history of handlers and signings, with keys and backends changing at will: a submission
   that the verifier reports valid says what a count of the ballots then on file says.
   */
  lemma ValidSaysCount(env: Env, c: R.Scheme, iso: int -> string, pyInt: string -> Option<int>,
                       regions: map<RegionId, string>, deeds: seq<Deed>, vault: R.VaultState, text: string,
                       signature: string)
    requires c.Lawful() && Json.Loads(text).Some?
    ensures var b := Deeds(env, c, iso, Opened(regions), deeds);
            var data := Json.Loads(text).value;
            var e := R.ElectionIdOf(data, pyInt);
            R.VerifySubmission(c, vault, pyInt, b.store, data, signature) == R.Checked(true) ==>
              e.Some? && SaysCount(b.db, e.value, iso, data)
  {
    var b := Deeds(env, c, iso, Opened(regions), deeds);
    var data := Json.Loads(text).value;
    InvOfEmpty(env, regions);
    DeedsKeepOrder(env, c, iso, pyInt, Opened(regions), deeds);
    Json.LoadsIsWellFormed(text);
    if R.VerifySubmission(c, vault, pyInt, b.store, data, signature) == R.Checked(true) {
      VerifiedIsStored(c, pyInt, b.store, vault, data, signature);
      var e := R.ElectionIdOf(data, pyInt).value;
      R.ResultWellFormed(e, b.db.results[e], iso, pyInt);
      Json.PrintInjective(data, R.ResultValue(e, b.db.results[e], iso));
      SignedIsCount(env, b.db, e, iso, data);
    }
  }

  /**
   And whatever says that of a locally signed election, submitted with the stored signature, is reported valid in every
   later state, whatever the backends are by then.
   */
  lemma CountIsValid(env: Env, c: R.Scheme, iso: int -> string, pyInt: string -> Option<int>,
                     regions: map<RegionId, string>, before: seq<Deed>, after: seq<Deed>, e: ElectionId,
                     vault: R.VaultState, text: string)
    requires c.Lawful() && e in Deeds(env, c, iso, Opened(regions), before).store.results
    requires var row := Deeds(env, c, iso, Opened(regions), before).store.results[e];
             row.provenance.backend == R.LOCAL_BACKEND && row.signature != ""
    requires Json.Loads(text).Some?
    ensures var b := Deeds(env, c, iso, Opened(regions), before);
            var b' := Deeds(env, c, iso, b, after);
            var data := Json.Loads(text).value;
            SaysCount(b'.db, e, iso, data) ==>
              R.VerifySubmission(c, vault, pyInt, b'.store, data, b.store.results[e].signature) == R.Checked(true)
  {
    var b := Deeds(env, c, iso, Opened(regions), before);
    var b' := Deeds(env, c, iso, b, after);
    var data := Json.Loads(text).value;
    InvOfEmpty(env, regions);
    DeedsKeepOrder(env, c, iso, pyInt, Opened(regions), before);
    DeedsKeepOrder(env, c, iso, pyInt, b, after);
    Json.LoadsIsWellFormed(text);
    R.ResultWellFormed(e, b'.db.results[e], iso, pyInt);
    SignedIsCount(env, b'.db, e, iso, data);
    if SaysCount(b'.db, e, iso, data) {
      StoredVerifies(c, pyInt, b'.store, e, vault, data);
    }
  }

  /** Every result was signed in one deed of the history, at the time it carries. */
  lemma {:induction false} SignedWhen(env: Env, c: R.Scheme, iso: int -> string, regions: map<RegionId, string>,
                                      deeds: seq<Deed>, e: ElectionId)
    requires e in Deeds(env, c, iso, Opened(regions), deeds).db.results
    ensures exists k :: 0 <= k < |deeds| && deeds[k].Sign? && deeds[k].e == e &&
              deeds[k].now == Deeds(env, c, iso, Opened(regions), deeds).db.results[e].signedAt
  {
    var front, last := deeds[..|deeds| - 1], deeds[|deeds| - 1];
    var b := Deeds(env, c, iso, Opened(regions), front);
    DeedSigns(env, c, iso, b, last, e);
    if e in b.db.results {
      SignedWhen(env, c, iso, regions, front, e);
      var k :| 0 <= k < |front| && front[k].Sign? && front[k].e == e && front[k].now == b.db.results[e].signedAt;
      assert deeds[k] == front[k];
    }
  }

  lemma DeedSigns(env: Env, c: R.Scheme, iso: int -> string, b: Books, d: Deed, e: ElectionId)
    requires RegionsOk(b.db) && e in Do(env, c, iso, b, d).db.results
    ensures e in b.db.results ==> Do(env, c, iso, b, d).db.results[e] == b.db.results[e]
    ensures e !in b.db.results ==> d.Sign? && d.e == e && Do(env, c, iso, b, d).db.results[e].signedAt == d.now
  {
    var step := if d.Handle? then d.step else SignResults(d.e, d.now);
    ResultsAfter(env, b.db, step);
    if step.SignResults? && Enabled(env, b.db, step) {
      SignedName(env, b.db, step);
    }
  }
}
