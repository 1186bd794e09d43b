# SecureVote: a verified model

SecureVote is an online voting system. A voter is authorised under their own identity and then casts an
anonymous ballot; what joins the two steps is a blind RSA signature. Managers prepare elections and rosters,
open and close them, and sign the results. This project models the parts of SecureVote that decide whether
that is sound, and proves what they promise.

| file | part of the system |
|---|---|
| `NumberTheory.dfy` | modular arithmetic, Bezout, Euclid's lemma, the binomial theorem, Fermat, the RSA identity |
| `BlindSignature.dfy`, `BlindVote.dfy` | the server's and the browser's half of the blind-signature protocol, end to end |
| `Elections.dfy`, `Lifecycle.dfy`, `Guarantees.dfy` | the election protocol as a transition system, its invariant, and its promises over every run |
| `Requirements.dfy` | what every step of that system asks of the stored rows and does to them, field by field |
| `ElectionServer.dfy` | the request handlers as they are written, each proved to make its step of that system; opening may publish a key first, and reconciliation is a run of steps |
| `Transactions.dfy` | the same handlers cut into lock, read and commit actions that interleave |
| `Keys.dfy` | worker processes that generate, publish, cache and anchor signing keys |
| `Tally.dfy`, `Results.dfy`, `Json.dfy`, `Vault.dfy` | counting, signing, publishing and verifying results |
| `OfficialResults.dfy` | counting and signing together: what is reported valid is a fresh recount |
| `Audit.dfy`, `AuditWriters.dfy` | the HMAC audit chain, its verifier and its concurrent writers |
| `Otp.dfy`, `Lockout.dfy`, `LoginRaces.dfy` | the two throttles that run against the clock, and login requests that overlap |
| `ScopeMigration.dfy` | the migration of a legacy database to election scoping |
| `Base64.dfy`, `Pii.dfy`, `PiiMigration.dfy` | the envelope for personal data and the migration to it |
| `Common.dfy`, `Text.dfy`, `Hex.dfy` | shared vocabulary |

## What is assumed

* SHA-256, the HMACs, key fingerprints, the AEAD cipher, UTF-8, RSA-PSS, Fernet and `int()` on text are
  function parameters. The laws used of them are the `Lawful` predicates, `IsSha256`, `CollisionFree` and, for
  `Pii.RelabelledIsRefused` alone, `Authentic`.
* A blind-signing key is two different primes and two exponents with e * d = 1 modulo p - 1 and q - 1. The RSA
  identity is proved from that, not assumed.
* One-more unforgeability of blind signatures appears once, as a hypothesis inside `OneVoterOneVote`: casting
  has not accepted more different ballots for an election than were blind-signed for it.
* Row locks are held until commit or abort, and a read made after taking a row lock sees the latest committed
  rows. Unique constraints, foreign keys and the atomic rename of the key directory act at commit.
* The clock, random values, the order in which a table is scanned and refusals by the database are inputs of the
  members that meet them. So are failures of the file system where keys are generated or loaded for opening and
  reconciliation, and where the audit log and its state file are read and written.

## Where the code and its promise differ

* `modPow` stands for modular exponentiation. With exponent zero and modulus one its loop never runs and it
  returns 1 rather than 0. `BlindVote.ModPow` states that this is the only case in which it differs.
* `modInverse` stands for the modular inverse. Its division truncates towards zero, so for a negative argument the
  sign of the last remainder can be wrong, as for -1 modulo 5 (`BlindVote.NegativeArgument`); `BlindVote.ModInverse`
  states exactly when. The protocol never passes a negative argument.
* Account lockout spaces wrong passwords thirty minutes apart from the fifth on, for requests one after the other. A
  login request reads the user row without a lock, so two that pass the gate together lose a failure and are both
  evaluated (`LoginRaces.TwoRequestsOverlap`). The counter is right if and only if every recording writes to the
  account its gate read (`LoginRaces.CounterExactIff`), and from the fifth wrong password on so is the spacing
  (`LoginRaces.SpacedIffFresh`).
* Blind-key reconciliation leaves keys it published on the way behind when it then refuses, and so does
  opening an election; the models do the same and `Keys.KeysArePermanent` shows why that is harmless.
* The audit chain depends on the state file. One lost state write while a state file exists makes the next
  emission by any worker break the chain for good (`AuditWriters.LostStateWriteBreaksChain`), and so does one by a
  worker that fails to read the file after another has written (`AuditWriters.FailedReadBreaksChain`). Whatever
  fails, the log of a run is accepted exactly when every append was linked to the head of the log as it then was
  (`AuditWriters.RunAcceptedIff`).

## Model

| member | source | states |
|---|---|---|
| `NumberTheory.RsaIdentity` | app/security/blind_signature.py:359-395 | for primes p and q and an exponent congruent to 1 modulo p - 1 and q - 1, a^k is a modulo pq for every a, units or not |
| `NumberTheory.Fermat` | app/security/blind_signature.py:359-395 | a^p is a modulo a prime p for every integer, by the binomial theorem |
| `NumberTheory.PrimeDividesProduct` | app/security/blind_signature.py:359-375 | Euclid's lemma: a prime dividing a product divides a factor |
| `NumberTheory.GcdOneIffUnit` | app/security/blind_signature.py:359-375 | the server's gcd test accepts exactly the invertible residues |
| `BlindSignature.HashBytes` | app/security/blind_signature.py:344-356 | byte k of the hash before reduction is byte k % 32 of SHA-256 over SHA-256(ballot) and the four-byte counter k / 32, for 256 bytes, and the hash is that number modulo n |
| `BlindSignature.HashBinds` | app/security/blind_signature.py:344-356 | two ballots with the same hash before reduction are the same ballot, or exhibit two inputs on which SHA-256 collides |
| `BlindSignature.VerifiesIff` | app/security/blind_signature.py:378-395 | exactly one signature verifies for a ballot: the d-th power of its hash modulo n, and that only if it is not zero |
| `BlindSignature.SignAnswers` | app/security/blind_signature.py:359-375 | the server answers exactly for an invertible value in (0, n), with the one number in (0, n) whose e-th power is that value modulo n |
| `BlindSignature.SignThenOpen` | app/security/blind_signature.py:364-395 | RSASP1 and RSAVP1 undo each other on every residue, in either order |
| `BlindSignature.SignsIffUnits` | app/security/blind_signature.py:364-375 | the server signs a blinded hash if and only if both the hash and the blinding factor are invertible |
| `BlindSignature.UnblindIsPlainSignature` | app/static/js/blind_vote.js:136-172 | the blinding factor cancels: what the browser unblinds is the plain signature of the ballot's hash |
| `BlindSignature.BlindRoundTrip` | app/security/blind_signature.py:359-395 | for every key, ballot and factor: if the server signs, the factor is invertible and the unblinded signature lies in (0, n) and verifies for that ballot |
| `BlindSignature.ExplanationUnique` | app/security/blind_signature.py:364-375 | at most one factor modulo n turns a given unit hash into what the server saw |
| `BlindSignature.ExplanationExists` | app/security/blind_signature.py:364-375 | and there is one, for every value below n |
| `BlindSignature.Blindness` | app/static/js/blind_vote.js:136-143 | for every signed value and every ballot with a unit hash, exactly one invertible factor explains it, so authorisation is consistent with every choice |
| `BlindVote.NormalisedRem` | app/static/js/blind_vote.js:22-40 | the double-remainder idiom yields the least non-negative residue under truncating division |
| `BlindVote.ModPow` | app/static/js/blind_vote.js:21-30 | square-and-multiply returns base^exp mod m for every base and non-negative exponent except exactly exponent zero modulo one |
| `BlindVote.ModInverse` | app/static/js/blind_vote.js:32-41 | terminates with a residue in [0, m); for a >= 0 its product with a is the gcd; it is the inverse if and only if m is one, or the gcd is one and a is non-negative, m is two, or Euclid makes an odd number of divisions |
| `BlindVote.NegativeArgument` | app/static/js/blind_vote.js:32-41 | -1 modulo 5 is invertible and outside the condition: the loop does not return its inverse |
| `BlindVote.BigIntToHex` | app/static/js/blind_vote.js:49-52 | an even number of digits that read back as the same integer |
| `BlindVote.HexOfBytesIsBigEndian` | app/static/js/blind_vote.js:43-47 | the growing hex string denotes the big-endian integer of the bytes |
| `BlindVote.BytesToBigInt` | app/static/js/blind_vote.js:43-47 | the loop decodes big-endian, including the empty array |
| `BlindVote.HexToBytes` | app/static/js/blind_vote.js:54-59 | for every string: byte i is what `parseInt` makes of the i-th pair, an odd last character is dropped, and the encoding of bytes is read back as those bytes |
| `BlindVote.ExpandSeed` | app/static/js/blind_vote.js:66-79 | the blocks placed into one buffer are the server's counter-mode expansion |
| `BlindVote.HexRoundTrip` | app/static/js/blind_vote.js:43-59 | reading digit pairs undoes the byte-by-byte hex encoding |
| `BlindVote.CounterBytes` | app/static/js/blind_vote.js:71-74 | the four shift-and-mask stores are the server's four-byte big-endian counter |
| `BlindVote.HashBallot` | app/static/js/blind_vote.js:63-82 | the browser's buffer-and-hex hash equals the server's for every ballot and modulus |
| `BlindVote.CastBlindVote` | app/static/js/blind_vote.js:134-172 | the whole exchange: a signature comes back if and only if hash and factor are units, and then it verifies for this ballot |
| `Elections.UniformBySizes` | app/routes/elections.py:118-131 | the two set-size tests decide exactly a non-empty roster with one region and one position |
| `Requirements.Requesting` | app/routes/main.py:253-386 | a blind signature is issued exactly to an approved, e-mail-verified voter with the role and an active, verified enrolment in the region of the roster, while the election is open, without token or receipt, under the anchored key, for an invertible value; only the token is recorded |
| `Requirements.Casting` | app/routes/main.py:389-543 | a ballot is accepted exactly with a 64-digit nonce, for an open election, with the one signature the anchored key makes for it, for a candidate of a single-contest roster, nonce and voter token unused; one vote and one nullifier are stored |
| `Requirements.UnparsedBallots` | app/routes/main.py:403-447 | a body that does not parse is never accepted |
| `Requirements.CastingDirectly` | app/vote_service.py:22-123 | the direct path asks the same of voter and election and the region of the chosen candidate; one vote and one receipt are stored |
| `Requirements.Creating` | app/routes/elections.py:43-88 | a new election needs a name and ordered times, and each goes into its own field of a bare draft |
| `Requirements.Opening` | app/routes/elections.py:91-175 | opening field by field: when it is allowed, and which opening time and anchor are written |
| `Requirements.Closing` | app/routes/elections.py:178-203 | exactly an open election closes, as of now, with all else unchanged |
| `Requirements.Anchoring` | app/services/election_key_service.py:18-49 | exactly an open, unquarantined election without an anchor and without tokens is anchored, to its published key |
| `Requirements.Provisioning` | app/security/blind_signature.py:184-271 | a key is published exactly where there is none, and never replaced |
| `Requirements.Signing` | app/routes/results.py:48-90 | exactly a closed election without a result is signed, with its own name, the time, its recount and the number of its ballots |
| `Requirements.AddingCandidate` | app/routes/candidates.py:12-71 | when a candidate is added, and which value goes into which field |
| `Requirements.EditingCandidate` | app/routes/candidates.py:73-147 | when a candidate is edited; each given field replaces that field, every other stays |
| `Requirements.DeletingCandidate` | app/routes/candidates.py:149-188 | when a candidate is deleted; exactly the ballots that name it go with it |
| `Lifecycle.AuthorisedAfter` | app/routes/main.py:335-375 | tokens, receipts and nullifiers are never removed, and new ones are of open elections, tokens and nullifiers with a ready key |
| `Lifecycle.AnchorIsReady` | app/services/election_key_service.py:40-49 | an anchor appears only as the fingerprint of the published key |
| `Lifecycle.StepFreezes` | app/routes/candidates.py:33-63 | no step touches the roster, key or anchor of an election that has left draft, nor moves its status back |
| `Lifecycle.CascadeDeletesNothing` | app/models.py:385-390 | deleting a candidate never deletes a ballot, because only drafts lose candidates and drafts have no ballots |
| `Lifecycle.BallotsAfter` | app/routes/main.py:498-535 | a step adds at most one ballot, to an open election, and changes none |
| `Lifecycle.ClosedKeepsBallots` | app/routes/elections.py:178-203 | no step adds, drops or changes a ballot of a closed election |
| `Lifecycle.ClosedKeepsAuthorisations` | app/routes/elections.py:178-203 | no step adds a token, receipt or nullifier to a closed election |
| `Lifecycle.InvKept` | app/routes/main.py:253-543 | every step keeps the invariant: foreign keys, one open election, live elections with a single-contest roster and a matching key or, while unanchored, no tokens and nullifiers, ballots balanced by nullifiers and receipts, results equal to recounts |
| `Lifecycle.InvAlong` | app/routes/main.py:253-543 | and so does every run |
| `Lifecycle.FrozenAlong` | app/routes/elections.py:140-167 | from opening on, roster, published key and anchor are the same after any run |
| `Lifecycle.AnchoredAlong` | app/routes/elections.py:140-167 | if every live election has its anchor, so it is after any run |
| `Lifecycle.ClosedAlong` | app/routes/elections.py:178-203 | once closed, ballots and authorisations are the same after any run |
| `Guarantees.LifecycleHolds` | app/routes/elections.py:91-203 | over every run: status only moves forward, at most one election is open, live elections keep a frozen single-contest roster and a matching key, drafts have no ballots or tokens |
| `Guarantees.DeletionSparesBallots` | app/routes/candidates.py:149-188 | no candidate deletion in any run destroys a ballot |
| `Guarantees.SignedResultStands` | app/models.py:543-578 | a signed result is in every later state the only one of its election, equal to a fresh recount, with the total of all ballots |
| `Guarantees.IssuedIsTokens` | app/routes/main.py:315-375 | signatures issued under an election's key over a run equal its token rows |
| `Guarantees.RedeemedIsNullifiers` | app/routes/main.py:498-535 | accepted ballots over a run are all different and equal in number to spent nullifiers |
| `Guarantees.OneVoterOneVote` | app/models.py:453-515 | ballots equal nullifiers plus receipts, nobody holds token and receipt, and under one-more unforgeability ballots never outnumber the voters with a token or receipt |
| `Guarantees.LaterStillReady` | app/security/blind_signature.py:305-341 | after an issue and any further steps the election's key, anchor and roster are unchanged |
| `Guarantees.CastEffect` | app/routes/main.py:498-535 | an accepted cast adds exactly one ballot for the named candidate and one nullifier |
| `Guarantees.AuthorisationStaysRedeemable` | app/routes/main.py:335-386 | whatever happens in between, while the election is open and the nonce unspent the unblinded ballot is accepted and counts once |
| `Guarantees.TokenStep` | app/routes/main.py:276-345 | whoever a step gives a token was entitled to it, in terms of the voter, enrolment, roster and election rows before the step |
| `Guarantees.RowStep` | app/vote_service.py:22-123 | and so for a new receipt, and for a new vote, which came with the one valid signature or directly from an entitled voter |
| `Guarantees.RowsAreAccounted` | app/routes/main.py:253-543 | over every run: each token and receipt on file went to a voter then entitled while the election was under way within its own times, and each vote was signed for or cast by such a voter |
| `Guarantees.InterleavingsAreRuns` | app/routes/main.py:276-286 | every interleaving of transactions from an empty database ends where a run of whole handlers ends |
| `Guarantees.InterleavedRowsAreAccounted` | app/routes/main.py:253-543 | the same for every row on file after every interleaving |
| `Guarantees.InterleavedOneVoterOneVote` | app/routes/main.py:315-375 | one voter, one vote under every interleaving |
| `Guarantees.InterleavedResultStands` | app/routes/results.py:48-168 | a signed result stands under every continuation of every interleaving |
| `Transactions.LocksSeparate` | app/routes/main.py:276-286 | compatible row locks mean that a committing transaction owns no row another has read under lock |
| `Transactions.VotersDoNotBlock` | app/routes/main.py:276-286 | requests of different voters never wait for each other's locks, and two of one voter do |
| `Transactions.ClosingBlocksVoters` | app/routes/elections.py:178-195 | closing waits for the voters under way in the election, and they for it |
| `Transactions.CommitFramed` | app/routes/candidates.py:73-147 | a commit changes only rows its transaction had locked for it |
| `Transactions.ReadsStable` | app/routes/main.py:448-535 | what a transaction has read under its locks stays true through any other commit |
| `Transactions.TallyStable` | app/routes/results.py:48-77 | the count a signer made under its lock is still a recount at its commit |
| `Transactions.OpensCollide` | app/routes/elections.py:97-117 | opening waits for any other opening |
| `Transactions.CommitIsAtomicStep` | app/routes/main.py:448-535 | a transaction that reaches commit does exactly what the whole handler would do at that moment |
| `Transactions.Serialisable` | app/routes/main.py:253-543 | every interleaving of lock, read, abort and commit actions leaves the database of the committed handlers run one by one |
| `Transactions.NothingCommitsAfterClose` | app/routes/elections.py:182-195 | after a close has committed no interleaving commits a ballot, token, receipt or nullifier for that election |
| `ElectionServer.Server.RequestBlindToken` | app/routes/main.py:253-386 | issues exactly when every guard holds, records the token, returns the signature; otherwise changes nothing |
| `ElectionServer.Server.CheckBallot` | app/routes/main.py:448-497 | accepts exactly an open election, the anchored key, a valid signature and a roster candidate |
| `ElectionServer.CastStep` | app/routes/main.py:448-535 | when a cast is enabled and exactly what it stores |
| `ElectionServer.Server.CastParsed` | app/routes/main.py:448-543 | after parsing: both rows exactly when every check passes and neither constraint is hit, else neither |
| `ElectionServer.Server.CastAnonymousBallot` | app/routes/main.py:389-543 | stores ballot and nullifier together exactly when the cast is enabled; a duplicate nonce or token rolls both back |
| `ElectionServer.Server.CastAnonymousVote` | app/vote_service.py:58-123 | the direct path stores ballot and receipt exactly when enabled, refusing holders of a token or receipt and a named election that is not the candidate's |
| `ElectionServer.Server.NewElection` | app/routes/elections.py:43-88 | creates a draft exactly for a name and ordered times |
| `ElectionServer.Server.EnsureKey` | app/security/blind_signature.py:305-341 | publishes a key only where none exists and no anchor is set; an anchored key must be well formed and match; succeeds exactly when the key is cached or the file system lets it be had |
| `ElectionServer.Server.CheckOpening` | app/routes/elections.py:97-131 | opening may go ahead exactly for a draft without recovery flag, no other open election and a single-contest roster |
| `ElectionServer.Server.OpenForVoting` | app/routes/elections.py:91-175 | opens exactly when enabled and the key is cached or can be read; a refusal, also by the file system, leaves at most a newly published key behind |
| `ElectionServer.Server.Close` | app/routes/elections.py:178-203 | closes exactly an open election and stamps the time |
| `ElectionServer.Server.SignElectionResults` | app/routes/results.py:28-168 | signs exactly a closed, unsigned election when tallies and signing service answer, and the stored rows are its recount whatever the scan order; otherwise changes nothing |
| `ElectionServer.ReconcileLoop` | app/services/election_key_service.py:11-51 | the loop succeeds exactly when every open election is reconcilable and its key obtainable, anchors exactly the unanchored ones and counts them |
| `ElectionServer.ReconcileOne` | app/services/election_key_service.py:25-49 | one election: passes exactly when it may be touched and its key can be had; publishes at most its key |
| `ElectionServer.ReconciliationIsRun` | app/services/election_key_service.py:18-51 | what reconciliation leaves is the state after a run of provisioning and, on success, anchoring steps |
| `ElectionServer.ReconciledReady` | app/services/election_key_service.py:18-51 | after success every open election's key is published, anchored and matching |
| `ElectionServer.Server.ReconcileOpenElectionKeys` | app/services/election_key_service.py:11-51 | the result is the state after a run of steps, so every run theorem covers it; a refusal changes no election, published keys are never replaced, and nothing changes where all live elections are anchored |
| `ElectionServer.Server.NewCandidate` | app/routes/candidates.py:12-71 | adds a candidate exactly to a draft, in a known region the actor may edit |
| `ElectionServer.Server.EditCandidate` | app/routes/candidates.py:73-147 | edits exactly when enabled; a refusal part way keeps nothing |
| `ElectionServer.Server.RemoveCandidate` | app/routes/candidates.py:149-188 | deletes exactly from a draft, with the cascade |
| `Keys.Worker.Generate` | app/security/blind_signature.py:184-271 | whoever wins the rename, an existing key stays, at most one key is added and the worker caches the published one; fails exactly when the file system refuses what is still needed |
| `Keys.Worker.Load` | app/security/blind_signature.py:274-288 | returns exactly the published key, from the cache even when it cannot be read, and keeps the cache coherent |
| `Keys.Worker.Ensure` | app/security/blind_signature.py:305-341 | an anchored key is matched and never regenerated; creation needs permission, no anchor and a file system that lets it |
| `Keys.KeysArePermanent` | app/security/blind_signature.py:184-341 | under every interleaving of workers, published keys and committed anchors never change, caches equal the published key and anchors are its fingerprint |
| `Keys.AgreementFromNothing` | app/security/blind_signature.py:184-341 | from no keys at all, every history of events keeps caches, anchors and published keys in agreement and permanent |
| `Keys.GenerateIsEvents` | app/security/blind_signature.py:184-271 | what generating does, for every race and fault, is what its events in the interleaving do |
| `Keys.CachesAgree` | app/security/blind_signature.py:274-288 | no two workers ever hold different keys for an election, across any events |
| `Keys.AnyWorkerVerifies` | app/security/blind_signature.py:359-395 | what one worker signed verifies at any other after any events |
| `Tally.BeforeIsTotal` | app/services/results_service.py:30-66 | votes descending, name, id orders any two candidates one way only |
| `Tally.GroupCountIsBallots` | app/services/results_service.py:30-55 | counting over the left join counts the candidate's ballots, zero for the joined null |
| `Tally.RecountUnique` | app/services/results_service.py:30-66 | the database determines the recount, rows and order |
| `Tally.RecountSays` | app/services/results_service.py:14-66 | a recount has one row per candidate with that candidate's name, position, region, region name and number of ballots, by votes descending, then name, then id |
| `Text.LessIff` | app/services/results_service.py:42 | names are in lexicographic order: after the part they share, the smaller one ends or has the smaller character |
| `Tally.QueryIsRecount` | app/services/results_service.py:14-66 | the join, group and order query is the recount, whatever order the table is scanned in |
| `Tally.TotalIsAllBallots` | app/models.py:416-424 | the counts sum to all ballots of the election, by the composite foreign key |
| `Json.LoadsOfPrint` | app/routes/results.py:78-91 | parsing canonical text gives the value back, for every value |
| `Json.PrintInjective` | app/routes/results.py:78-91 | different values have different canonical texts |
| `Json.PrintSays` | app/routes/results.py:88 | the canonical text to the character: literals, brackets, and commas without white space |
| `Json.PrintFieldsSays` | app/routes/results.py:88 | and fields with a colon, in the order of the dictionary |
| `Json.EscapeSays` | app/routes/results.py:88 | which characters stand for themselves and how each other one of the basic plane is escaped to ASCII |
| `Json.LoadsIsWellFormed` | app/routes/results.py:247-275 | whatever text is parsed, the result has sorted unique keys all the way down |
| `Json.RestoreField` | app/logging_service.py:262-268 | a dictionary is determined by one key's value and the dictionary without that key |
| `Json.LookupIff` | app/routes/results.py:264-287 | reading a key of a dictionary finds exactly the field with that key |
| `Json.LookupDetermines` | app/routes/results.py:260-287 | dictionaries whose keys all read alike are the same |
| `Vault.EnvelopeVersion` | app/security/vault_client.py:104-119 | an envelope written with a version is read back as that version |
| `Vault.OnlyEnvelopes` | app/security/vault_client.py:104-119 | whatever reads as a version is such an envelope, with that positive version in decimal and Base64 that decodes |
| `Vault.IdentityInjective` | app/security/vault_client.py:121-144 | equal identities name the same cluster, namespace, mount and key, an empty namespace reading as root |
| `Vault.IdentitySays` | app/security/vault_client.py:121-144 | the identity text, character for character, for the root and for another namespace, up to 255 characters |
| `Results.ResultWellFormed` | app/routes/results.py:78-91 | the signed dictionary is canonical and names its election |
| `Results.RowSays` | app/services/results_service.py:56-66 | the object of a candidate says each of the six values under its own key, and no other key says anything |
| `Results.ResultSays` | app/routes/results.py:78-85 | the signed dictionary says election id, name, rows, signing time and total under their own keys |
| `Results.HexTextIff` | app/security/signing_service.py:255-261 | a signature without white space is read exactly when it is an even number of hexadecimal digits |
| `Results.SignDataSays` | app/security/signing_service.py:146-191 | who signs, with which provenance, and when nobody does: Vault whenever configured, else the local key |
| `Results.ValidIff` | app/security/signing_service.py:194-281 | exactly when a signature is found valid, backend by backend, Vault's own verdict included |
| `Results.InvalidIff` | app/security/signing_service.py:194-281 | and exactly when it is found wrong rather than undecidable |
| `Results.VaultSignature` | app/security/signing_service.py:146-281 | what Vault signed gets Vault's own verdict for as long as the same key answers |
| `Results.SignIntoIff` | app/routes/results.py:92-168 | when a result is stored, and exactly what row and what archived key |
| `Results.CheckedTrueIff` | app/routes/results.py:247-317 | a submission is reported valid exactly when it is the stored text with the stored signature and that verifies |
| `Results.LocalSignature` | app/security/signing_service.py:146-191 | a local signature verifies against the public key returned with it, under the recorded fingerprint |
| `Results.SignKeepsStore` | app/routes/results.py:92-168 | signing only adds rows, refuses a second result, and keeps every stored local result checkable |
| `Results.SignAllExtends` | app/routes/results.py:92-168 | so do any number of signings with keys and backends changing in between |
| `Results.SamePayloadIffSameData` | app/routes/results.py:247-287 | a submission has the stored text if and only if it is the published dictionary |
| `Results.PublishedResultVerifies` | app/routes/results.py:191-317 | after any later signings and key rotations a local result is published, and re-submission is reported valid exactly for the published data and signature |
| `Results.AnythingElseIsInvalid` | app/routes/results.py:280-287 | whichever backend signed, other data or another signature is reported invalid |
| `Results.OnlyThePublishedText` | app/routes/results.py:260-287 | whatever JSON is submitted, fractions and lone surrogates included, it is reported invalid unless its canonical text is the published one and the signature the stored one |
| `Results.ProvenanceChoosesVerifier` | app/security/signing_service.py:194-281 | a local result never depends on Vault, a Vault result never on a local key, an unknown backend is an error |
| `Results.ResultsService.SignElectionResults` | app/routes/results.py:78-168 | stores the canonical payload with its provenance and archives the key, or changes nothing |
| `OfficialResults.DeedKeepsOrder` | app/routes/results.py:66-168 | every handler and every signing keeps the stored text equal to the canonical text of the counted result, or changes neither |
| `OfficialResults.DeedsKeepOrder` | app/routes/results.py:66-168 | and so does every history of them, with keys and backends changing in between |
| `OfficialResults.SignedIsCount` | app/routes/results.py:66-91 | the signed dictionary is the one and only dictionary that says the count: election, name, time, total, and one object per candidate with that candidate's row and ballots, in order |
| `OfficialResults.ValidSaysCount` | app/routes/results.py:247-317 | in every state of every history, a submission reported valid says, key by key, what a count of the ballots then on file says |
| `OfficialResults.CountIsValid` | app/routes/results.py:247-317 | and whatever says that of a locally signed election, with the stored signature, is reported valid in every later state |
| `OfficialResults.SignedWhen` | app/routes/results.py:78-90 | every result carries the time of the one signing that made it |
| `Audit.VerifyAudit` | app/logging_service.py:243-278 | accepts if and only if every line is an object, carries its own hmac and names the previous one; reports exactly what is wrong with the lines up to the first that is not an object |
| `Audit.CheckEntry` | app/logging_service.py:262-273 | reports exactly what is wrong with the entry of one line |
| `Audit.AcceptedIffNoProblem` | app/logging_service.py:243-278 | a log is accepted if and only if no line of it has a problem |
| `Audit.AcceptedSays` | app/logging_service.py:243-278 | what an accepted log is, key by key: each entry's hmac is that of its text without it, the first links to null or nothing and every other to the one before |
| `Audit.NewEntryOk` | app/logging_service.py:119-158 | an emitted entry is a dictionary, sealed, and links to what it was given; taking link and seal away gives the record's own fields back |
| `Audit.EntrySays` | app/logging_service.py:119-158 | the appended entry says level, line number, logger, message, path, time and extra of the record, the link it was given, and the hmac over all of that, each under its own key |
| `Audit.EntryDeterminesRecord` | app/logging_service.py:119-158 | the same entry comes from the same record and the same link |
| `Audit.AppendAcceptedIff` | app/logging_service.py:139-158 | appending keeps an accepted log accepted if and only if the link is its head |
| `Audit.RejectedForGood` | app/logging_service.py:243-278 | a rejected log stays rejected whatever is appended |
| `Audit.SealBinds` | app/logging_service.py:262-271 | with a collision-free hmac, entries with the same hmac are the same entry |
| `Audit.HeadBindsLog` | app/logging_service.py:243-278 | two accepted logs ending in the same hmac agree entry for entry, by induction back to the null link |
| `Audit.ContainedHeadIsPrefix` | app/logging_service.py:243-278 | an accepted log that contains another's head begins with all of it |
| `Audit.NoReplay` | app/logging_service.py:243-278 | no two entries of an accepted log share an hmac |
| `AuditWriters.HmacAuditHandler.Emit` | app/logging_service.py:111-169 | the new log, state file and memory for every combination of read, append and state-write failures; acceptance kept exactly when linked to the head |
| `AuditWriters.HealthyRunKeepsInv` | app/logging_service.py:111-169 | at every moment of every healthy interleaving the log is accepted and only grows |
| `AuditWriters.WritersAreAccepted` | app/logging_service.py:111-169 | from empty files every interleaving of writers whose state reads and writes succeed leaves a log the verifier accepts |
| `AuditWriters.RunAcceptedIff` | app/logging_service.py:111-169 | over every history with any failures, the log is accepted if and only if every append was linked to the head |
| `AuditWriters.FailedReadBreaksChain` | app/logging_service.py:134-141 | one failed read of the state file lets the next emission by another worker break the chain for good |
| `AuditWriters.NothingLost` | app/logging_service.py:119-161 | the log says, entry by entry and key by key, what the records whose append succeeded say, in order |
| `AuditWriters.WholeEmission` | app/logging_service.py:131-163 | four undisturbed micro-steps are one emission of the handler |
| `AuditWriters.LostStateWriteBreaksChain` | app/logging_service.py:155-163 | one lost state write makes the next emission by any worker break the chain for good |
| `Otp.OtpService.Issue` | app/services/otp_service.py:39-78 | replaces a challenge exactly when allowed, with a lifetime of 60 to 900 seconds; the issued code is then the valid one |
| `Otp.OtpService.Verify` | app/services/otp_service.py:81-117 | the verdict and new row in each case; a challenge that was used, expired or locked is gone for good |
| `Otp.IssueAllowedIff` | app/services/otp_service.py:39-78 | exactly when a challenge must be issued, and the row it leaves, in terms of the stored row and of seconds |
| `Otp.VerdictSays` | app/services/otp_service.py:81-117 | exactly when each verdict is given and what it leaves of the row |
| `Otp.OnlyTheIssuedCode` | app/services/otp_service.py:39-117 | over every run, and unless two codes share a digest, only the code issued under that id to that user for that purpose verifies, and only within fifteen minutes |
| `Otp.Lifetime` | app/services/otp_service.py:72 | the lifetime is clamped to 60 to 900 seconds and is the requested one within |
| `Otp.ReachableOk` | app/services/otp_service.py:81-117 | in every reachable table failures never exceed five, five failures imply consumed, and ids are unique |
| `Otp.AccountKept` | app/services/otp_service.py:39-117 | every event keeps the account of issues, wrong codes, right codes, withdrawals and time per user and purpose |
| `Otp.GuessesBounded` | app/services/otp_service.py:39-117 | a run of T from the empty table compares at most 5 (T / 60 s + 1 + V + W) wrong codes per user and purpose, W counting only challenges withdrawn after a wrong code |
| `Otp.NothingGuessedWithdrawn` | app/auth.py:309-335 | a challenge withdrawn before its id was told to anybody had no wrong code |
| `Otp.GuessesBoundedByTime` | app/auth.py:309-335 | with withdrawals as the login handler makes them the bound is 5 (T / 60 s + 1 + V) |
| `Otp.SingleUse` | app/services/otp_service.py:111-117 | a challenge is accepted at most as often as it was issued |
| `Lockout.User.IsAccountLocked` | app/models.py:117-121 | locked exactly strictly before the stored time |
| `Lockout.User.RecordFailedLogin` | app/models.py:123-136 | the count goes up and from the fifth failure the lock is thirty minutes from now |
| `Lockout.User.Login` | app/auth.py:274-349 | the gate, the recording and the reset in each case; a locked account is neither evaluated nor changed |
| `Lockout.AccountRemembers` | app/models.py:117-136 | along a run without success, new password or unlock the counter is the number of evaluated wrong passwords and the lock is thirty minutes after the last |
| `Lockout.WrongPasswordsAreSpaced` | app/auth.py:274-294 | for requests one after the other, the (5+j)-th evaluated wrong password comes at least j times 1,800 seconds after the fifth, and time bounds their number |
| `Lockout.LockEnds` | app/models.py:117-136 | the next wrong password is evaluated exactly from thirty minutes after the last on |
| `LoginRaces.UndisturbedIsAttempt` | app/auth.py:262-287 | a request that nobody overlaps is one attempt of the account |
| `LoginRaces.CounterExactIff` | app/models.py:123-136 | over every interleaving the counter never exceeds the evaluated wrong passwords and equals them if and only if every recording wrote to the account its gate read |
| `LoginRaces.FreshIsSpaced` | app/auth.py:262-294 | without lost updates, overlapping requests are spaced like requests one after the other |
| `LoginRaces.SpacedIffFresh` | app/auth.py:262-294 | from the fifth wrong password on, the spacing holds if and only if no recording is stale |
| `LoginRaces.TwoRequestsOverlap` | app/auth.py:262-287 | two requests that pass the gate together make the sixth wrong password follow the fifth at once |
| `ScopeMigration.InsertIsOneEach` | migrations/versions/20260714_election_scope.py:326-336 | the backfill statement leaves one receipt each if and only if there was one each and no unreceipted voter is named twice |
| `ScopeMigration.MissingReceiptsFor` | migrations/versions/20260714_election_scope.py:326-336 | it adds a row for exactly the users named by a ballot and without a receipt |
| `ScopeMigration.MissingReceiptsDated` | migrations/versions/20260714_election_scope.py:326-336 | each added receipt carries the time of a ballot of that user |
| `ScopeMigration.LegacyDatabase.FillVoterTokens` | migrations/versions/20260714_election_scope.py:265-271 | every ballot gets its own new token and nothing else changes |
| `ScopeMigration.LegacyDatabase.TargetElection` | migrations/versions/20260714_election_scope.py:294-309 | the earliest election by creation time then id, or a new closed one |
| `ScopeMigration.LegacyDatabase.ScopeRows` | migrations/versions/20260714_election_scope.py:311-325 | candidates and receipts get the target, ballots their candidate's election or null when dangling |
| `ScopeMigration.LegacyDatabase.ReceiptsFromVotes` | migrations/versions/20260714_election_scope.py:326-336 | afterwards exactly the users with a receipt or an identified ballot have one |
| `ScopeMigration.LegacyDatabase.ReceiptsFromFlags` | migrations/versions/20260714_election_scope.py:337-360 | the loop gives every flagged user a receipt and nobody a second one |
| `ScopeMigration.LegacyDatabase.Quarantine` | migrations/versions/20260714_election_scope.py:366-377 | open elections are flagged exactly when an authorisation existed; authorisations are deleted |
| `ScopeMigration.LegacyDatabase.Constrain` | migrations/versions/20260714_election_scope.py:403-479 | the new constraints hold exactly for admissible rows, and ballots then name nobody |
| `ScopeMigration.ConstrainedIsMigratable` | migrations/versions/20251005_add_uq_vote_user.py:29-39 | under the constraints of the legacy schema only an unknown status or unusable ballot tokens can stop the migration |
| `ScopeMigration.MigratableSays` | migrations/versions/20260714_election_scope.py:261-479 | what stops the migration, on the legacy rows: an unknown status, a ballot for no candidate, a missing or repeated token, a repeated receipt, an unreceipted voter named twice |
| `ScopeMigration.MigratedSays` | migrations/versions/20260714_election_scope.py:261-479 | what it leaves, row by row: every candidate and ballot in the target election, ballots anonymous with their tokens, one receipt for exactly those who voted, open elections flagged where authorisations existed |
| `ScopeMigration.MovedIsAdmissible` | migrations/versions/20260714_election_scope.py:261-377 | the moved rows satisfy the constraints if and only if the legacy database was migratable |
| `ScopeMigration.LegacyDatabase.Upgrade` | migrations/versions/20260714_election_scope.py:227-479 | succeeds on a legacy database if and only if it is migratable, which under the legacy constraints means known statuses and usable tokens, and then keeps every candidate and ballot with its choice, gives each ballot its candidate's election, leaves one receipt for exactly the users who had voted, and quarantines; a current schema is left alone and a partial one refused |
| `Base64.DecodeLength` | app/security/encryption.py:79-88 | only whole groups of four decode, each to at most three bytes |
| `Base64.RoundTrip` | app/security/encryption.py:81-88 | decoding what was encoded gives the bytes back, for every length |
| `Base64.AlphabetIs` | app/security/encryption.py:81-88 | the alphabet is that of table 1 of RFC 4648, in order |
| `Base64.Vectors` | app/security/encryption.py:81-88 | the examples of section 10 of RFC 4648 for every kind of group |
| `Base64.EncodeIsText` | app/security/encryption.py:79-81 | encoded text stays in the alphabet and its padding, so it has no white space to strip |
| `Pii.DecryptEncrypt` | app/security/encryption.py:102-136 | what is encrypted is read back under any nonce, in a current envelope |
| `Pii.RelabelledIsRefused` | app/security/encryption.py:102-170 | with a cipher that authenticates its associated data, old ciphertext relabelled as an envelope is refused, and so is an envelope's payload as old ciphertext |
| `Pii.EncryptLength` | app/security/encryption.py:102-121 | an envelope's length depends on the text only |
| `Pii.FitsIff` | app/models.py:14-20 | exactly how many bytes of text a column of a given length holds |
| `Pii.LegacyLimitsFit` | app/models.py:14-20 | 255 characters of any script fit the long column and 50 the short one |
| `Pii.ConvertKeepsMeaning` | scripts/migrate_pii_envelope.py:93-109 | conversion succeeds exactly on values that mean something, keeps the meaning, leaves current values alone and never converts twice |
| `Pii.UnversionedMeaning` | app/security/encryption.py:153-170 | old unversioned ciphertext is never taken for an envelope and means its text |
| `Pii.MarkedMeaning` | app/security/encryption.py:138-151 | marked plaintext is refused by reads and means what follows the marker |
| `PiiMigration.RunOfLawful` | scripts/migrate_pii_envelope.py:93-109 | the conversion the script hands to its loops reads, converts and measures as they rely on |
| `PiiMigration.ConvertField` | scripts/migrate_pii_envelope.py:187-207 | a value is accepted exactly when it can be read and its envelope fits |
| `PiiMigration.MigrateRow` | scripts/migrate_pii_envelope.py:185-215 | the field loop succeeds exactly on good rows; its updates re-envelope every stale field, rehash a converted licence and touch nothing else |
| `PiiMigration.MigrateRows` | scripts/migrate_pii_envelope.py:185-227 | the row loop, with refusals by the database, counts the stale values |
| `PiiMigration.ValidateCapacity` | scripts/migrate_pii_envelope.py:112-154 | reports nothing exactly when every present column is text and wide enough |
| `PiiMigration.MigrateTables` | scripts/migrate_pii_envelope.py:167-227 | the transaction succeeds exactly when every table does |
| `PiiMigration.PiiStore.Migrate` | scripts/migrate_pii_envelope.py:157-231 | all or nothing: failure and dry run change nothing; success happens exactly for a migratable store, reports the number of stale values and leaves each as a current envelope of the same text |
| `PiiMigration.PiiStore.Script` | scripts/migrate_pii_envelope.py:34-231 | the same for the script's own field lists, cipher, declared source and Fernet key |
| `PiiMigration.FieldsPlanned` | scripts/migrate_pii_envelope.py:34-59 | the script's fixed field lists are duplicate-free and disjoint from the hash columns |
| `PiiMigration.ScriptSays` | scripts/migrate_pii_envelope.py:34-231 | what the script leaves in each column by its table and name: the eight columns of personal data wide enough and protected under the same meaning, the two blind indexes following their licences, everything else unchanged |
| `PiiMigration.MigratedRowIsCurrent` | scripts/migrate_pii_envelope.py:185-215 | after success no selected field is stale and each still reads and fits |
| `PiiMigration.SameCipherSameReader` | scripts/migrate_pii_envelope.py:93-109 | runs with the same key read current envelopes alike, whatever sources they declare |
| `PiiMigration.SecondRunConvertsNothing` | scripts/migrate_pii_envelope.py:157-231 | a second run under any declared source goes through and converts nothing |

## Left out

- Flask routing, templates, flashes, CSRF, geo-filtering, metrics, health and developer routes, and the parsing of request bodies into typed arguments.
- ORM, SQL dialects, DDL, grants and collations: names are ordered by code point; deadlocks and lock timeouts appear only as aborts.
- `user_is_eligible_to_vote`, the read-only page filter in front of the voting page: voting itself checks again.
- The result page that picks the newest election when no election id is given.
- The network side of Vault, PEM and DER parsing, key-file permissions and damage to key files from outside.
- Randomness: `generateBlindingFactor`, nonces and tokens are inputs; the chance that a draw is unusable is not modelled.
- Parsing of JSON fractions, exponents and lone surrogates: integers are exact. In the audit log a line holding them is not read.
- Results.AnythingElseIsInvalid: stated for submissions the parser covers; `Results.OnlyThePublishedText` covers all others by their canonical text.
- The text form of an audit line in insertion order: only that parsing it returns the entry. Lines are stripped already; truncation of the log's tail is outside what the verifier decides; a failed append is taken to leave no partial line.
- Lockout.WrongPasswordsAreSpaced: stated for login requests one after the other, as the promise is false of overlapping ones; the exact condition is in `LoginRaces`.
- The user foreign key of a challenge, and `SECRET_KEY` or hash-pepper misconfiguration.
- A failure to read a published key while voting: the handler then refuses and changes nothing.
- Runs from a migrated database: the invariant admits unanchored open elections, but a legacy database need not have as many receipts as ballots, one open election or single-contest rosters, so it is a start of the run theorems only where the invariant holds of it.
- Characters outside the basic plane in `hexToBytes`: the source sees them as two units.
- What a failed scope migration leaves behind: schema changes are not transactional on every database. The order in which its constraints are created does not matter to whether it succeeds.
- Creation of the new tables of the scope migration, and the schema inspection that classifies a database as legacy, partial or current: the class is an input.
- Password rules, page limits, licence checksums, session versions, seeding, ceremony and text-to-speech scripts: they would only add easy members.
- BlindVote.CastBlindVote: the exchange is one call; its network failures only end it.
- Results.PublishedResultVerifies: stated for locally signed results; whether Vault answers is up to Vault.
