/**
 Signing, publishing and verifying election results (app/routes/results.py,
 app/security/signing_service.py): the canonical payload, the provenance stored with each signature, and
 the archive of local public keys that lets a result outlive key rotation.
 */
module Results {
  import opened Common
  import opened Text
  import Json
  import Vault
  import Hex
  import Elections

  const LOCAL_BACKEND := "local-rsa"
  const VAULT_BACKEND := "vault-transit"
  const PSS := "rsa-pss-sha256"

  /** Names a local private key; the key material itself stays outside the model. */
  datatype PrivateKey = PrivateKey(name: nat)

  /** The local signature scheme. Signing is randomised by its salt. */
  datatype Scheme = Scheme(
    sign: (PrivateKey, string, nat) -> string,
    verify: (string, string, string) -> bool,
    publicPem: PrivateKey -> string,
    fingerprint: string -> Option<string>)
  {
    ghost predicate Lawful() {
      && (forall k: PrivateKey, data: string, salt: nat ::
            verify(publicPem(k), data, sign(k, data, salt)) && IsHexText(sign(k, data, salt)))
      && (forall k: PrivateKey :: publicPem(k) != "" && fingerprint(publicPem(k)).Some? &&
            Hex.IsHex64(fingerprint(publicPem(k)).value))
    }
  }

  /** `bytes.fromhex` accepts it: pairs of digits, with white space before, between and after them. */
  predicate IsHexText(s: string)
  {
    || s == ""
    || (IsBlank(s[0]) && IsHexText(s[1..]))
    || (|s| >= 2 && Hex.IsHex(s[0]) && Hex.IsHex(s[1]) && IsHexText(s[2..]))
  }

  predicate IsBlank(c: char)
  {
    c == ' ' || 9 <= c as int <= 13
  }

  /** Without white space that is an even number of hexadecimal digits. */
  lemma {:induction false} HexTextIff(s: string)
    requires forall i :: 0 <= i < |s| ==> !IsBlank(s[i])
    ensures IsHexText(s) <==> |s| % 2 == 0 && forall i :: 0 <= i < |s| ==> Hex.IsHex(s[i])
  {
    if |s| >= 2 {
      HexTextIff(s[2..]);
      assert s == [s[0], s[1]] + s[2..];
    }
  }

  /** The Vault backend as configured at one moment. */
  datatype VaultState = VaultState(
    configured: bool, enabled: bool, endpoint: Vault.Endpoint, keyName: string,
    sign: string -> Option<string>, verify: (string, string) -> Option<bool>)

  // ---------------------------------------------------------------- signing service

  datatype Provenance = Provenance(backend: string, algorithm: string, keyId: string, keyVersion: Option<int>)

  datatype Signed = Signed(signature: string, provenance: Provenance, publicPem: Option<string>)

  /** `sign_data`: a configured Vault is used or the operation fails; there is no falling back to a local key. */
  function SignData(c: Scheme, vault: VaultState, local: Option<PrivateKey>, salt: nat,
                    data: string): (r: Option<Signed>)
  {
    if vault.configured then
      var envelope := if vault.enabled then vault.sign(data) else None;
      if envelope.None? then None
      else
        var version := Vault.SignatureVersion(envelope.value);
        var identity := Vault.KeyIdentity(vault.endpoint, vault.keyName);
        if version.None? || identity.None? then None
        else Some(Signed(envelope.value, Provenance(VAULT_BACKEND, PSS, identity.value, Some(version.value)), None))
    else if local.None? then None
    else
      var pem := c.publicPem(local.value);
      var keyId := c.fingerprint(pem);
      if keyId.None? then None
      else Some(Signed(c.sign(local.value, data, salt), Provenance(LOCAL_BACKEND, PSS, keyId.value, None), Some(pem)))
  }

  /** `validate_local_public_key`. */
  predicate ValidPem(c: Scheme, pem: Option<string>, keyId: string)
  {
    pem.Some? && pem.value != "" && c.fingerprint(pem.value) == Some(keyId)
  }

  datatype Verdict = Verdict(valid: bool) | MetadataError | Unavailable

  /** `verify_signature`: the recorded provenance alone chooses the backend and the key. */
  function VerifySignature(c: Scheme, vault: VaultState, data: string, signature: string, p: Provenance,
                           pem: Option<string>): (r: Verdict)
  {
    if p.algorithm != PSS || p.keyId == "" then MetadataError
    else if p.backend == VAULT_BACKEND then
      if p.keyVersion.None? || p.keyVersion.value < 1 then MetadataError
      else
        var version := Vault.SignatureVersion(signature);
        if version.None? || version.value != p.keyVersion.value then Verdict(false)
        else if !vault.configured || !vault.enabled then Unavailable
        else if Vault.KeyIdentity(vault.endpoint, vault.keyName) != Some(p.keyId) then Unavailable
        else
          var answer := vault.verify(data, signature);
          if answer.None? then Unavailable else Verdict(answer.value)
    else if p.backend == LOCAL_BACKEND then
      if p.keyVersion.Some? || !Hex.IsHex64(p.keyId) then MetadataError
      else if !IsHexText(signature) then Verdict(false)
      else if !ValidPem(c, pem, p.keyId) then MetadataError
      else Verdict(c.verify(pem.value, data, signature))
    else MetadataError
  }

  // ---------------------------------------------------------------- the payload

  function RowValue(r: Elections.TallyRow): (v: Json.Value)
  {
    Json.Obj([Json.Field("candidate_id", Json.Num(r.candidate)),
              Json.Field("name", Json.Str(r.name)),
              Json.Field("position", Json.Str(r.position)),
              Json.Field("region", Json.Str(r.regionName)),
              Json.Field("region_id", Json.Num(r.region)),
              Json.Field("votes", Json.Num(r.votes))])
  }

  function RowsValue(rows: seq<Elections.TallyRow>): (v: Json.Value)
  {
    Json.Arr(seq(|rows|, i requires 0 <= i < |rows| => RowValue(rows[i])))
  }

  /** The dictionary that is signed; `iso` renders the signing time. */
  function ResultValue(e: ElectionId, p: Elections.Projection, iso: int -> string): (v: Json.Value)
  {
    Json.Obj([Json.Field("election_id", Json.Num(e)),
              Json.Field("election_name", Json.Str(p.electionName)),
              Json.Field("results", RowsValue(p.rows)),
              Json.Field("signed_at", Json.Str(iso(p.signedAt))),
              Json.Field("total_votes", Json.Num(p.total))])
  }

  /** `int(data["election_id"])`, refusing booleans; `pyInt` is `int` on text. */
  function ElectionIdOf(v: Json.Value, pyInt: string -> Option<int>): (e: Option<ElectionId>)
  {
    if !v.Obj? then None
    else
      match Json.Lookup(v.fields, "election_id")
      case Some(Num(n)) => Some(n)
      case Some(Str(s)) => pyInt(s)
      case _ => None
  }

  lemma LessByPrefix(p: string, a: string, b: string)
    requires Less(a, b)
    ensures Less(p + a, p + b)
  {
    if p == "" {
      assert p + a == a && p + b == b;
    } else {
      LessByPrefix(p[1..], a, b);
      assert (p + a)[1..] == p[1..] + a && (p + b)[1..] == p[1..] + b;
    }
  }

  lemma RowKeysSorted()
    ensures Less("candidate_id", "name") && Less("name", "position") && Less("position", "region")
    ensures Less("region", "region_id") && Less("region_id", "votes")
  {
    LessByPrefix("region", "", "_id");
    assert "region" + "" == "region" && "region" + "_id" == "region_id";
  }

  lemma ResultKeysSorted()
    ensures Less("election_id", "election_name") && Less("election_name", "results")
    ensures Less("results", "signed_at") && Less("signed_at", "total_votes")
  {
    LessByPrefix("election_", "id", "name");
    assert "election_" + "id" == "election_id" && "election_" + "name" == "election_name";
  }

  lemma RowWellFormed(r: Elections.TallyRow)
    ensures Json.WellFormed(RowValue(r))
  {
    RowKeysSorted();
    Json.SortedFieldsOk(RowValue(r).fields);
  }

  lemma RowsWellFormed(rows: seq<Elections.TallyRow>)
    ensures Json.WellFormed(RowsValue(rows))
  {
    forall i | 0 <= i < |rows| ensures Json.WellFormed(RowsValue(rows).items[i]) {
      RowWellFormed(rows[i]);
    }
  }

  lemma FiveFieldsOk(a: Json.Field, b: Json.Field, c: Json.Field, d: Json.Field, e: Json.Field)
    requires Json.WellFormed(a.value) && Json.WellFormed(b.value) && Json.WellFormed(c.value)
    requires Json.WellFormed(d.value) && Json.WellFormed(e.value)
    requires Less(a.key, b.key) && Less(b.key, c.key) && Less(c.key, d.key) && Less(d.key, e.key)
    ensures Json.WellFormed(Json.Obj([a, b, c, d, e]))
  {
    Json.SortedFieldsOk([a, b, c, d, e]);
  }

  lemma ResultNamesElection(e: ElectionId, p: Elections.Projection, iso: int -> string, pyInt: string -> Option<int>)
    ensures ElectionIdOf(ResultValue(e, p, iso), pyInt) == Some(e)
  {
    assert ResultValue(e, p, iso).fields[0] == Json.Field("election_id", Json.Num(e));
  }

  /** The signed dictionary is in canonical form and names its election. */
  lemma ResultWellFormed(e: ElectionId, p: Elections.Projection, iso: int -> string, pyInt: string -> Option<int>)
    ensures Json.WellFormed(ResultValue(e, p, iso)) && ElectionIdOf(ResultValue(e, p, iso), pyInt) == Some(e)
  {
    ResultKeysSorted();
    RowsWellFormed(p.rows);
    FiveFieldsOk(Json.Field("election_id", Json.Num(e)), Json.Field("election_name", Json.Str(p.electionName)),
                 Json.Field("results", RowsValue(p.rows)), Json.Field("signed_at", Json.Str(iso(p.signedAt))),
                 Json.Field("total_votes", Json.Num(p.total)));
    ResultNamesElection(e, p, iso, pyInt);
  }

  predicate RowKey(k: string)
  {
    k == "candidate_id" || k == "name" || k == "position" || k == "region" || k == "region_id" || k == "votes"
  }

  predicate ResultKey(k: string)
  {
    k == "election_id" || k == "election_name" || k == "results" || k == "signed_at" || k == "total_votes"
  }

  /** What the dictionary says of one candidate, key by key. */
  lemma RowSays(r: Elections.TallyRow)
    ensures RowValue(r).Obj?
    ensures var fields := RowValue(r).fields;
            && (forall k :: Json.Lookup(fields, k).Some? ==> RowKey(k))
            && Json.Lookup(fields, "candidate_id") == Some(Json.Num(r.candidate))
            && Json.Lookup(fields, "name") == Some(Json.Str(r.name))
            && Json.Lookup(fields, "position") == Some(Json.Str(r.position))
            && Json.Lookup(fields, "region") == Some(Json.Str(r.regionName))
            && Json.Lookup(fields, "region_id") == Some(Json.Num(r.region))
            && Json.Lookup(fields, "votes") == Some(Json.Num(r.votes))
  {
    var fields := RowValue(r).fields;
    RowWellFormed(r);
    forall i | 0 <= i < 6 ensures Json.Lookup(fields, fields[i].key) == Some(fields[i].value) {
      Json.LookupIff(fields, fields[i].key, fields[i].value);
    }
    assert fields[0].key == "candidate_id" && fields[1].key == "name" && fields[2].key == "position";
    assert fields[3].key == "region" && fields[4].key == "region_id" && fields[5].key == "votes";
    forall k | Json.Lookup(fields, k).Some? ensures RowKey(k) {
      Json.LookupIff(fields, k, Json.Lookup(fields, k).value);
    }
  }

  /** What the signed dictionary says, key by key. */
  lemma ResultSays(e: ElectionId, p: Elections.Projection, iso: int -> string)
    ensures ResultValue(e, p, iso).Obj?
    ensures var fields := ResultValue(e, p, iso).fields;
            && Json.Lookup(fields, "election_id") == Some(Json.Num(e))
            && Json.Lookup(fields, "election_name") == Some(Json.Str(p.electionName))
            && Json.Lookup(fields, "results") == Some(RowsValue(p.rows))
            && Json.Lookup(fields, "signed_at") == Some(Json.Str(iso(p.signedAt)))
            && Json.Lookup(fields, "total_votes") == Some(Json.Num(p.total))
  {
    var fields := ResultValue(e, p, iso).fields;
    ResultWellFormed(e, p, iso, text => None);
    forall i | 0 <= i < 5 ensures Json.Lookup(fields, fields[i].key) == Some(fields[i].value) {
      Json.LookupIff(fields, fields[i].key, fields[i].value);
    }
    assert fields[0].key == "election_id" && fields[1].key == "election_name" && fields[2].key == "results";
    assert fields[3].key == "signed_at" && fields[4].key == "total_votes";
  }

  lemma ResultSaysNoMore(e: ElectionId, p: Elections.Projection, iso: int -> string, k: string)
    requires Json.Lookup(ResultValue(e, p, iso).fields, k).Some?
    ensures ResultKey(k)
  {
    var fields := ResultValue(e, p, iso).fields;
    ResultWellFormed(e, p, iso, text => None);
    OneOfFive(fields, k);
    assert fields[0].key == "election_id" && fields[1].key == "election_name" && fields[2].key == "results";
    assert fields[3].key == "signed_at" && fields[4].key == "total_votes";
  }

  lemma OneOfFive(fields: seq<Json.Field>, k: string)
    requires Json.FieldsOk(fields) && |fields| == 5 && Json.Lookup(fields, k).Some?
    ensures k == fields[0].key || k == fields[1].key || k == fields[2].key || k == fields[3].key || k == fields[4].key
  {
    Json.LookupIff(fields, k, Json.Lookup(fields, k).value);
  }

  // ---------------------------------------------------------------- the store

  datatype ArchivedKey = ArchivedKey(algorithm: string, pem: string)

  datatype StoredResult = StoredResult(payload: string, signature: string, provenance: Provenance)

  /** Immutable rows: signed results by election, local public keys by fingerprint. */
  datatype Store = Store(archive: map<string, ArchivedKey>, results: map<ElectionId, StoredResult>)

  /** What `sign_election_results` stores for a dictionary, or nothing when it refuses. */
  function SignInto(c: Scheme, vault: VaultState, local: Option<PrivateKey>, salt: nat, s: Store, e: ElectionId,
                    v: Json.Value): (s': Option<Store>)
  {
    if e in s.results then None
    else
      var payload := Json.Print(v);
      var signed := SignData(c, vault, local, salt, payload);
      if signed.None? then None
      else
        var row := StoredResult(payload, signed.value.signature, signed.value.provenance);
        var keyId := signed.value.provenance.keyId;
        if signed.value.provenance.backend != LOCAL_BACKEND then Some(s.(results := s.results[e := row]))
        else if !ValidPem(c, signed.value.publicPem, keyId) then None
        else
          var key := ArchivedKey(PSS, signed.value.publicPem.value);
          if keyId in s.archive && s.archive[keyId] != key then None
          else Some(Store(s.archive[keyId := key], s.results[e := row]))
  }

  /** The archived key a stored result is verified with. */
  function ArchivedPem(s: Store, row: StoredResult): (pem: Option<string>)
  {
    if row.provenance.backend == LOCAL_BACKEND && row.provenance.keyId in s.archive
    then Some(s.archive[row.provenance.keyId].pem) else None
  }

  datatype Answer = BadRequest | NoSuchResult | Checked(valid: bool) | ServiceUnavailable

  /** `verify_election_results` for a submitted dictionary and signature. */
  function VerifySubmission(c: Scheme, vault: VaultState, pyInt: string -> Option<int>, s: Store, data: Json.Value,
                            signature: string): (a: Answer)
  {
    if !data.Obj? || signature == "" then BadRequest
    else
      var e := ElectionIdOf(data, pyInt);
      if e.None? then BadRequest else VerifyCanonical(c, vault, s, e.value, Json.Print(data), signature)
  }

  /**
   The rest of it, once the submission has been put into canonical text and its election id read. The text is
   whatever `json.dumps` makes of the submission, fractions and lone surrogates included.
   */
  function VerifyCanonical(c: Scheme, vault: VaultState, s: Store, e: ElectionId, canonical: string,
                           signature: string): (a: Answer)
  {
    if e !in s.results then NoSuchResult
    else
      var row := s.results[e];
      if row.payload != canonical || row.signature != signature then Checked(false)
      else
        match VerifySignature(c, vault, row.payload, signature, row.provenance, ArchivedPem(s, row))
        case Verdict(valid) => Checked(valid)
        case _ => ServiceUnavailable
  }

  /** `get_latest_results` for one election: the parsed payload with its signature and archived key. */
  function Publish(c: Scheme, s: Store, e: ElectionId): (p: Option<(Json.Value, string, Provenance, Option<string>)>)
  {
    if e !in s.results then None
    else
      var row := s.results[e];
      var pem := ArchivedPem(s, row);
      if row.provenance.backend == LOCAL_BACKEND &&
         (pem.None? || s.archive[row.provenance.keyId].algorithm != row.provenance.algorithm ||
          !ValidPem(c, pem, row.provenance.keyId)) then None
      else
        var data := Json.Loads(row.payload);
        if data.None? then None else Some((data.value, row.signature, row.provenance, pem))
  }

  // ---------------------------------------------------------------- what stays true of the store

  /** A stored result is the canonical text of a dictionary that names its election. */
  ghost predicate CanonicalRow(pyInt: string -> Option<int>, e: ElectionId, row: StoredResult)
  {
    var v := Json.Loads(row.payload);
    && v.Some? && v.value.Obj? && Json.WellFormed(v.value)
    && Json.Print(v.value) == row.payload && ElectionIdOf(v.value, pyInt) == Some(e)
  }

  /** A locally signed result can be checked with the key archived beside it. */
  ghost predicate LocalRowOk(c: Scheme, s: Store, row: StoredResult)
  {
    var p := row.provenance;
    p.backend == LOCAL_BACKEND ==>
      && p.algorithm == PSS && p.keyVersion.None? && Hex.IsHex64(p.keyId) && p.keyId in s.archive
      && s.archive[p.keyId].algorithm == PSS && ValidPem(c, Some(s.archive[p.keyId].pem), p.keyId)
      && IsHexText(row.signature) && c.verify(s.archive[p.keyId].pem, row.payload, row.signature)
  }

  ghost predicate StoreOk(c: Scheme, pyInt: string -> Option<int>, s: Store)
  {
    forall e :: e in s.results ==> CanonicalRow(pyInt, e, s.results[e]) && LocalRowOk(c, s, s.results[e])
  }

  /** Rows are only ever added. */
  ghost predicate Extends(s: Store, s': Store)
  {
    && (forall k :: k in s.archive ==> k in s'.archive && s'.archive[k] == s.archive[k])
    && (forall e :: e in s.results ==> e in s'.results && s'.results[e] == s.results[e])
  }

  lemma CanonicalOfValue(pyInt: string -> Option<int>, e: ElectionId, v: Json.Value, row: StoredResult)
    requires Json.WellFormed(v) && v.Obj? && ElectionIdOf(v, pyInt) == Some(e) && row.payload == Json.Print(v)
    ensures CanonicalRow(pyInt, e, row)
  {
    Json.LoadsOfPrint(v);
  }

  /** What a local signature leaves behind verifies against the key archived with it. */
  lemma LocalSignature(c: Scheme, vault: VaultState, local: Option<PrivateKey>, salt: nat, data: string)
    requires c.Lawful() && SignData(c, vault, local, salt, data).Some?
    ensures var x := SignData(c, vault, local, salt, data).value;
            x.provenance.backend == LOCAL_BACKEND ==>
              && x.provenance.algorithm == PSS && x.provenance.keyVersion.None? && Hex.IsHex64(x.provenance.keyId)
              && ValidPem(c, x.publicPem, x.provenance.keyId)
              && IsHexText(x.signature) && c.verify(x.publicPem.value, data, x.signature)
  {
  }

  /**
   What is signed, by whom and under which name: Vault whenever it is configured, and then by the version its envelope
   carries; otherwise the local key, with its public half beside it. Nothing is signed where that is not to be had.
   */
  lemma SignDataSays(c: Scheme, vault: VaultState, local: Option<PrivateKey>, salt: nat, data: string)
    ensures var x := SignData(c, vault, local, salt, data);
            if vault.configured then
              && (x.Some? <==>
                    && vault.enabled && vault.sign(data).Some? && Vault.SignatureVersion(vault.sign(data).value).Some?
                    && Vault.KeyIdentity(vault.endpoint, vault.keyName).Some?)
              && (x.Some? ==>
                    && Some(x.value.signature) == vault.sign(data) && x.value.publicPem.None?
                    && x.value.provenance.backend == "vault-transit"
                    && x.value.provenance.algorithm == "rsa-pss-sha256"
                    && Some(x.value.provenance.keyId) == Vault.KeyIdentity(vault.endpoint, vault.keyName)
                    && x.value.provenance.keyVersion == Vault.SignatureVersion(x.value.signature))
            else
              && (x.Some? <==> local.Some? && c.fingerprint(c.publicPem(local.value)).Some?)
              && (x.Some? ==>
                    && x.value.signature == c.sign(local.value, data, salt)
                    && x.value.publicPem == Some(c.publicPem(local.value))
                    && x.value.provenance.backend == "local-rsa"
                    && x.value.provenance.algorithm == "rsa-pss-sha256"
                    && Some(x.value.provenance.keyId) == c.fingerprint(c.publicPem(local.value))
                    && x.value.provenance.keyVersion.None?)
  {
  }

  /** Exactly when a signature is found valid, backend by backend. */
  lemma ValidIff(c: Scheme, vault: VaultState, data: string, signature: string, p: Provenance, pem: Option<string>)
    ensures VerifySignature(c, vault, data, signature, p, pem) == Verdict(true) <==>
              && p.algorithm == "rsa-pss-sha256" && p.keyId != ""
              && (|| (&& p.backend == "vault-transit" && p.keyVersion.Some? && p.keyVersion.value >= 1
                      && Vault.SignatureVersion(signature).Some?
                      && Vault.SignatureVersion(signature).value == p.keyVersion.value
                      && vault.configured && vault.enabled
                      && Vault.KeyIdentity(vault.endpoint, vault.keyName) == Some(p.keyId)
                      && vault.verify(data, signature) == Some(true))
                  || (&& p.backend == "local-rsa" && p.keyVersion.None? && Hex.IsHex64(p.keyId)
                      && IsHexText(signature)
                      && pem.Some? && pem.value != "" && c.fingerprint(pem.value) == Some(p.keyId)
                      && c.verify(pem.value, data, signature)))
  {
    assert LOCAL_BACKEND[0] != VAULT_BACKEND[0];
  }

  /** And exactly when it is found wrong: the verdict is withheld where metadata are bad or the key cannot be asked. */
  lemma InvalidIff(c: Scheme, vault: VaultState, data: string, signature: string, p: Provenance, pem: Option<string>)
    ensures VerifySignature(c, vault, data, signature, p, pem) == Verdict(false) <==>
              && p.algorithm == "rsa-pss-sha256" && p.keyId != ""
              && (|| (&& p.backend == "vault-transit" && p.keyVersion.Some? && p.keyVersion.value >= 1
                      && (|| Vault.SignatureVersion(signature).None?
                          || Vault.SignatureVersion(signature).value != p.keyVersion.value
                          || (&& vault.configured && vault.enabled
                              && Vault.KeyIdentity(vault.endpoint, vault.keyName) == Some(p.keyId)
                              && vault.verify(data, signature) == Some(false))))
                  || (&& p.backend == "local-rsa" && p.keyVersion.None? && Hex.IsHex64(p.keyId)
                      && (|| !IsHexText(signature)
                          || (&& pem.Some? && pem.value != "" && c.fingerprint(pem.value) == Some(p.keyId)
                              && !c.verify(pem.value, data, signature)))))
  {
    assert LOCAL_BACKEND[0] != VAULT_BACKEND[0];
  }

  /** What Vault signed is found valid for as long as Vault answers for the same key and accepts its own signature. */
  lemma VaultSignature(c: Scheme, vault: VaultState, vault': VaultState, local: Option<PrivateKey>, salt: nat,
                       data: string, pem: Option<string>)
    requires vault.configured && SignData(c, vault, local, salt, data).Some?
    requires vault'.configured && vault'.enabled && vault'.endpoint == vault.endpoint && vault'.keyName == vault.keyName
    ensures var x := SignData(c, vault, local, salt, data).value;
            VerifySignature(c, vault', data, x.signature, x.provenance, pem) ==
            match vault'.verify(data, x.signature) case Some(ok) => Verdict(ok) case None => Unavailable
  {
    var signature := SignData(c, vault, local, salt, data).value.signature;
    Vault.OnlyEnvelopes(signature);
    IdentityNotEmpty(vault.endpoint, vault.keyName);
  }

  lemma IdentityNotEmpty(e: Vault.Endpoint, key: string)
    requires Vault.KeyIdentity(e, key).Some?
    ensures Vault.KeyIdentity(e, key).value != ""
  {
  }

  /** A submission is reported valid exactly when it is the stored text with the stored signature and that is valid. */
  lemma CheckedTrueIff(c: Scheme, vault: VaultState, pyInt: string -> Option<int>, s: Store, data: Json.Value,
                       signature: string)
    ensures VerifySubmission(c, vault, pyInt, s, data, signature) == Checked(true) <==>
              && data.Obj? && signature != ""
              && (exists e :: ElectionIdOf(data, pyInt) == Some(e) && e in s.results &&
                    var row := s.results[e];
                    && row.payload == Json.Print(data) && row.signature == signature
                    && VerifySignature(c, vault, row.payload, signature, row.provenance, ArchivedPem(s, row)) ==
                       Verdict(true))
  {
  }

  /**
   A result is stored exactly where there is none yet and it can be signed, and a local signer's public key is the one
   archived under its fingerprint, if any is; with it goes that key, and nothing else changes.
   */
  lemma SignIntoIff(c: Scheme, vault: VaultState, local: Option<PrivateKey>, salt: nat, s: Store, e: ElectionId,
                    v: Json.Value)
    requires c.Lawful()
    ensures var x := SignData(c, vault, local, salt, Json.Print(v));
            var r := SignInto(c, vault, local, salt, s, e, v);
            && (r.Some? <==>
                  && e !in s.results && x.Some?
                  && (!vault.configured && x.value.provenance.keyId in s.archive ==>
                        && s.archive[x.value.provenance.keyId].algorithm == "rsa-pss-sha256"
                        && Some(s.archive[x.value.provenance.keyId].pem) == x.value.publicPem))
            && (r.Some? ==>
                  && r.value.results ==
                     s.results[e := StoredResult(Json.Print(v), x.value.signature, x.value.provenance)]
                  && (vault.configured ==> r.value.archive == s.archive)
                  && (!vault.configured && x.value.publicPem.Some? ==>
                        r.value.archive ==
                        s.archive[x.value.provenance.keyId := ArchivedKey("rsa-pss-sha256", x.value.publicPem.value)]))
  {
    SignDataSays(c, vault, local, salt, Json.Print(v));
    assert LOCAL_BACKEND[0] != VAULT_BACKEND[0];
  }

  lemma SignKeepsStore(c: Scheme, vault: VaultState, local: Option<PrivateKey>, salt: nat, pyInt: string -> Option<int>,
                       s: Store, e: ElectionId, v: Json.Value)
    requires c.Lawful() && StoreOk(c, pyInt, s)
    requires Json.WellFormed(v) && v.Obj? && ElectionIdOf(v, pyInt) == Some(e)
    requires SignInto(c, vault, local, salt, s, e, v).Some?
    ensures var s' := SignInto(c, vault, local, salt, s, e, v).value;
            StoreOk(c, pyInt, s') && Extends(s, s') && e !in s.results && e in s'.results
  {
    var s' := SignInto(c, vault, local, salt, s, e, v).value;
    LocalSignature(c, vault, local, salt, Json.Print(v));
    forall j | j in s'.results ensures CanonicalRow(pyInt, j, s'.results[j]) && LocalRowOk(c, s', s'.results[j]) {
      if j == e {
        CanonicalOfValue(pyInt, e, v, s'.results[e]);
      } else {
        assert LocalRowOk(c, s, s.results[j]);
      }
    }
  }

  /** One signing request, with the state of both backends at that time. */
  datatype Request = Request(vault: VaultState, local: Option<PrivateKey>, salt: nat, e: ElectionId,
                             projection: Elections.Projection)

  /** Signing requests one after the other; the local key and Vault may change between any two. */
  function SignAll(c: Scheme, iso: int -> string, s: Store, requests: seq<Request>): (s': Store)
  {
    if requests == [] then s
    else
      var before, q := SignAll(c, iso, s, requests[..|requests| - 1]), requests[|requests| - 1];
      var r := SignInto(c, q.vault, q.local, q.salt, before, q.e, ResultValue(q.e, q.projection, iso));
      if r.Some? then r.value else before
  }

  lemma {:induction false} SignAllExtends(c: Scheme, iso: int -> string, pyInt: string -> Option<int>, s: Store,
                                          requests: seq<Request>)
    requires c.Lawful() && StoreOk(c, pyInt, s)
    ensures StoreOk(c, pyInt, SignAll(c, iso, s, requests)) && Extends(s, SignAll(c, iso, s, requests))
  {
    if requests != [] {
      var front, q := requests[..|requests| - 1], requests[|requests| - 1];
      SignAllExtends(c, iso, pyInt, s, front);
      var before := SignAll(c, iso, s, front);
      var v := ResultValue(q.e, q.projection, iso);
      ResultWellFormed(q.e, q.projection, iso, pyInt);
      if SignInto(c, q.vault, q.local, q.salt, before, q.e, v).Some? {
        SignKeepsStore(c, q.vault, q.local, q.salt, pyInt, before, q.e, v);
      }
    }
  }

  // ---------------------------------------------------------------- published results verify

  /** Submitted data has the stored canonical text exactly when it is the published dictionary. */
  lemma SamePayloadIffSameData(pyInt: string -> Option<int>, e: ElectionId, row: StoredResult, data: Json.Value)
    requires CanonicalRow(pyInt, e, row) && Json.WellFormed(data)
    ensures row.payload == Json.Print(data) <==> data == Json.Loads(row.payload).value
  {
    if row.payload == Json.Print(data) {
      Json.PrintInjective(data, Json.Loads(row.payload).value);
    }
  }

  /**
   A locally signed result stays verifiable. Whatever is signed afterwards and however the local key
   rotates, publishing returns the signed dictionary; re-submitting it, parsed from any text that denotes
   it, with the stored signature is reported valid whatever the backends are then; and any other
   dictionary for that election, or any other signature, is reported invalid.
   */
  lemma PublishedResultVerifies(c: Scheme, iso: int -> string, pyInt: string -> Option<int>, s: Store,
                                requests: seq<Request>, e: ElectionId, vault: VaultState, text: string,
                                signature: string)
    requires c.Lawful() && StoreOk(c, pyInt, s)
    requires e in s.results && s.results[e].provenance.backend == LOCAL_BACKEND
    requires Json.Loads(text).Some? && Json.Loads(text).value.Obj? && signature != ""
    requires ElectionIdOf(Json.Loads(text).value, pyInt) == Some(e)
    ensures var s' := SignAll(c, iso, s, requests);
            var data := Json.Loads(text).value;
            var published := Publish(c, s', e);
            && published.Some? && Json.Print(published.value.0) == s.results[e].payload
            && published.value.1 == s.results[e].signature && published.value.2 == s.results[e].provenance
            && published.value.3.Some?
            && c.verify(published.value.3.value, s.results[e].payload, published.value.1)
            && VerifySubmission(c, vault, pyInt, s', data, signature) ==
               Checked(data == published.value.0 && signature == published.value.1)
  {
    var s' := SignAll(c, iso, s, requests);
    var data := Json.Loads(text).value;
    SignAllExtends(c, iso, pyInt, s, requests);
    Json.LoadsIsWellFormed(text);
    var row := s'.results[e];
    assert CanonicalRow(pyInt, e, row) && LocalRowOk(c, s', row);
    SamePayloadIffSameData(pyInt, e, row, data);
  }

  /**
   Whichever backend signed: anything but the published dictionary with the stored signature is reported
   invalid, before any key or service is consulted.
   */
  lemma AnythingElseIsInvalid(c: Scheme, vault: VaultState, pyInt: string -> Option<int>, s: Store, e: ElectionId,
                              text: string, signature: string)
    requires StoreOk(c, pyInt, s) && e in s.results && signature != ""
    requires Json.Loads(text).Some? && Json.Loads(text).value.Obj?
    requires ElectionIdOf(Json.Loads(text).value, pyInt) == Some(e)
    requires Json.Loads(text) != Json.Loads(s.results[e].payload) || signature != s.results[e].signature
    ensures VerifySubmission(c, vault, pyInt, s, Json.Loads(text).value, signature) == Checked(false)
  {
    Json.LoadsIsWellFormed(text);
    SamePayloadIffSameData(pyInt, e, s.results[e], Json.Loads(text).value);
  }

  /**
   The same for every submission there is, in any JSON: it is reported invalid unless its canonical text denotes the
   published dictionary and it comes with the stored signature.
   */
  lemma OnlyThePublishedText(c: Scheme, vault: VaultState, pyInt: string -> Option<int>, s: Store, e: ElectionId,
                             canonical: string, signature: string)
    requires StoreOk(c, pyInt, s) && e in s.results
    requires VerifyCanonical(c, vault, s, e, canonical, signature) != Checked(false)
    ensures signature == s.results[e].signature
    ensures Json.Loads(canonical).Some? && Json.Loads(canonical) == Json.Loads(s.results[e].payload)
    ensures canonical == Json.Print(Json.Loads(s.results[e].payload).value)
  {
    assert CanonicalRow(pyInt, e, s.results[e]);
  }

  /** The recorded backend alone decides: a local result never consults Vault, and a Vault result never a local key. */
  lemma ProvenanceChoosesVerifier(c: Scheme, c': Scheme, vault: VaultState, vault': VaultState, data: string,
                                  signature: string, p: Provenance, pem: Option<string>, pem': Option<string>)
    ensures p.backend == LOCAL_BACKEND ==>
              VerifySignature(c, vault, data, signature, p, pem) == VerifySignature(c, vault', data, signature, p, pem)
    ensures p.backend == VAULT_BACKEND ==>
              VerifySignature(c, vault, data, signature, p, pem) == VerifySignature(c', vault, data, signature, p, pem')
    ensures p.backend != LOCAL_BACKEND && p.backend != VAULT_BACKEND ==>
              VerifySignature(c, vault, data, signature, p, pem) == MetadataError
  {
    assert LOCAL_BACKEND[0] != VAULT_BACKEND[0];
  }

  // ---------------------------------------------------------------- the handler

  /** The signing handler over its tables: it archives the public key and stores the result, or changes nothing. */
  class ResultsService {
    const scheme: Scheme
    const iso: int -> string
    var local: Option<PrivateKey>
    var vault: VaultState
    var archive: map<string, ArchivedKey>
    var results: map<ElectionId, StoredResult>

    function View(): (s: Store)
      reads this
    {
      Store(archive, results)
    }

    constructor (scheme: Scheme, iso: int -> string, local: Option<PrivateKey>, vault: VaultState)
      ensures this.scheme == scheme && this.iso == iso && this.local == local && this.vault == vault
      ensures View() == Store(map[], map[])
    {
      this.scheme, this.iso, this.local, this.vault := scheme, iso, local, vault;
      archive, results := map[], map[];
    }

    method SignElectionResults(e: ElectionId, projection: Elections.Projection, salt: nat,
                               ghost pyInt: string -> Option<int>)
      returns (stored: bool)
      requires scheme.Lawful() && StoreOk(scheme, pyInt, View())
      modifies this`archive, this`results
      ensures StoreOk(scheme, pyInt, View()) && Extends(old(View()), View())
      ensures stored ==> e !in old(results) && e in results &&
                         results[e].payload == Json.Print(ResultValue(e, projection, iso))
      ensures var r := SignInto(scheme, vault, local, salt, old(View()), e, ResultValue(e, projection, iso));
              stored == r.Some? && View() == (if stored then r.value else old(View()))
    {
      if e in results {
        return false;
      }
      var payload := Json.Print(ResultValue(e, projection, iso));
      var signed := SignData(scheme, vault, local, salt, payload);
      if signed.None? {
        return false;
      }
      var p := signed.value.provenance;
      if p.backend == LOCAL_BACKEND {
        if !ValidPem(scheme, signed.value.publicPem, p.keyId) {
          return false;
        }
        var key := ArchivedKey(PSS, signed.value.publicPem.value);
        if p.keyId in archive && archive[p.keyId] != key {
          return false;
        }
        archive := archive[p.keyId := key];
      }
      results := results[e := StoredResult(payload, signed.value.signature, p)];
      ResultWellFormed(e, projection, iso, pyInt);
      SignKeepsStore(scheme, vault, local, salt, pyInt, old(View()), e, ResultValue(e, projection, iso));
      return true;
    }
  }
}
