# Verified core of an asset-tokenisation platform

This project models the parts of the platform whose correctness rests on an argument over many steps, and proves that argument.

- `Merkle`, `MerkleTheorems`: the sorted Merkle tree of sanctioned names: building with odd-node duplication, path extraction, path checking, binary search, non-membership proofs.
- `Schnorr`, `Codecs`, `Groups`, `ModArith`, `SmallCurve`: Schnorr proofs with Fiat-Shamir challenges, the transcript framing and the hexadecimal forms. The equation is the one of section 3 of RFC 8235 and the parameters are those of section 2.4.1 of SEC 2.
- `Sessions`: the Redis blacklist and per-user watermarks behind logout and account deletion.
- `Ledger`, `LedgerTheorems`, `Formats`, `Audit`: the chaincode's four transactions, its format and role checks, and the checker that reads the provenance trails.
- `Saga`, `Reconciliation`: freezing and unfreezing an asset in ledger and database, and the background job that reconciles the two.
- `CircuitBreaker`, `FabricRetry`: the two circuit breakers under interleaved calls.
- `RateLimiter`, `TokenBucket`: the two rate limiters over whole runs.
- `Tribunal`, `TribunalTheorems`: the commit-reveal tribunal over runs of commits, reveals and tallies.
- `Bytes`, `Text`: byte strings, digests, hexadecimal, and Python's ordering of strings.

Code that changes state is a class whose methods are proved equal to a step function on values; the theorems are about those step functions and about runs of them.

## What is assumed

- SHA-256 is a function from byte strings to 32 bytes, given as a parameter. No injectivity is assumed: binding results read "or two different members of this explicit finite set of hashed inputs share a digest".
- `str.lower` is idempotent and UTF-8 encoding is injective (`Merkle.Lawful`).
- The curve's points with infinity form a cyclic group of prime order generated by G, and the library's `multiply` is repeated addition (`Schnorr.PrimeOrderCurve`; `SmallCurve` gives an instance). Infinity is written (0, 0), as the library does.
- Each request, transaction or stretch between two awaits is one step. A failing chaincode invocation commits nothing. Clocks and the text of a time, random nonces, database faults and client replies are parameters. Database and Redis calls may raise at every point the models name; cancelled tasks are modelled only in the circuit breakers.
- A token is dead on or after `exp` (section 4.1.4 of RFC 7519), all tokens have one lifespan, and none is presented before its issue time.
- Times, amounts and stakes are reals; the tally threshold is `3 * count >= 2 * total`.

## Where code and documentation differ

- `verify_non_membership` is documented to check two adjacent leaves, but does not compare their positions. `StraddleSoundIff` gives the exact condition on the two paths under which acceptance is enough; `AdjacentProofShowsAbsence` gives a check on the two side lists that needs no tree.
- The empty tree stores the name "", so the search refuses to prove that "" is absent from it (`RefusedExactlyWhenListed`).
- The generic breaker's documentation allows one probe in HALF_OPEN; the code lets every call through until the next outcome, so the promise holds exactly when at most one call arrives between the cooldown and that outcome (`ProbesAreLateArrivals`, `OneProbeIff`, `ManyProbesReachable`). It also speaks of a sliding window; the code counts failures since the last success (`ClosedExactlyBelowThreshold`).
- The window limiter keys its entries by timestamp, so requests of a key with one timestamp count once (`SameInstantUnlimited`). With up to m of them on a timestamp the exact bound is m times the limit, so the limit holds if and only if m <= 1 (`SharedTimestampsBound`, `SharedTimestampsTight`, `LimitHoldsIff`).
- The deletion watermark lives 30 days. For longer-lived tokens it is forgotten too early (`LongTokensOutliveDeletion`); otherwise revocation is exact (`RevocationExact`).
- `freeze` leaves ledger and database apart also after a block number that is not an integer, a database read that raises, a rollback that raises, or a submit that raises after committing (`FreezeAgreesIff`). When a database commit raises after taking effect, the compensation is what parts them (`FreezeEndsApart`).
- The unfreeze saga compensates with the reference "SAGA-COMP", which the contract always refuses, so every committed unfreeze whose row was not written leaves ledger and row apart (`UnfreezeAgreesIff`, `UnfreezeEndsApart`).
- db/sql/01_schema.sql:83 allows a NULL `current_value`, core/features/assets/schemas.py:66 does not. On such a row `freeze` and `unfreeze_asset` raise after both sides have committed (`FreezeAgreesIff`, `UnfreezeAgreesIff`), and the reconciliation job raises and repairs nothing (`SyncRepairsIff`).
- The integrity checker accepts trails that break the freeze discipline; `DisciplinedExactly` says which.
- A commitment hashes "vote:salt" without escaping ':', so an opening is unique only among votes free of ':' (`CommitBinding`, `SameTextIff`).

## Model

The results come first. The last rows of the table, from `Merkle.Build` on, are the source's loops and state changes: their contracts tie the code to the functions the results are about.

| member | source | states |
|---|---|---|
| `MerkleTheorems.PathBinding` | core/features/zkp/merkle.py:126-134 | Any name and path accepted for a root have path length equal to the depth, and the name is stored at the leaf its sides decode to, or hashed inputs collide. |
| `MerkleTheorems.PathComplete` | core/features/zkp/merkle.py:59-69 | The path of every stored leaf checks against the root, spells the leaf's index, and hashes nothing the builder did not hash. |
| `MerkleTheorems.RootIdentifiesNames` | core/features/zkp/merkle.py:36-57 | Two non-empty lists with one root store the same names, sizes and depths included, or hashed inputs collide. |
| `MerkleTheorems.SameNamesSameTree` | core/features/zkp/merkle.py:36-57 | Lists with the same lower-cased names build the same tree, whatever their order, repetitions and case. |
| `Text.LessExactly` | core/features/zkp/merkle.py:38-81 | The order of names is that of Python's strings: a proper prefix comes first, otherwise the first differing code point decides. |
| `MerkleTheorems.StoredInOrder` | core/features/zkp/merkle.py:38-38 | Names are stored in that order. |
| `Merkle.HashInputs` | core/features/zkp/merkle.py:19-24 | What a leaf and a node hash, byte by byte: the ASCII tag, then the encoded lower-cased name, or the two children in order. |
| `Merkle.NodesHashChildren` | core/features/zkp/merkle.py:48-54 | Every node hashes its two children in order, the last one of an odd level twice. |
| `Merkle.EmptyTree` | core/features/zkp/merkle.py:41-57 | The empty list builds the one-leaf tree of 32 zero bytes under the name "". |
| `MerkleTheorems.DecodeSteps` | core/features/zkp/merkle.py:47-54 | Moving to the next position moves the decoded leaf forward by at most one, despite duplicated odd nodes. |
| `MerkleTheorems.AdjacentProofShowsAbsence` | core/features/zkp/merkle.py:137-156 | An accepted proof whose side lists spell consecutive positions shows the queried name is not listed, or hashed inputs collide. |
| `Merkle.AcceptedExactly` | core/features/zkp/merkle.py:137-156 | A proof is accepted if and only if its leaf hashes are those of its names, the queried name lies strictly between them, both paths lead to the expected root, and it carries that root. |
| `Merkle.RaisedExactly` | core/features/zkp/merkle.py:137-156 | Verification raises if and only if it gets to the paths and one of them has a sibling that is not hexadecimal. |
| `Merkle.ParseFailsIff` | core/features/zkp/merkle.py:126-134 | A path cannot be read if and only if some sibling is not hexadecimal. |
| `Bytes.HexSpelling` | core/features/zkp/merkle.py:66-68 | Digests are printed as two lower-case digits a byte, the high one first. |
| `Bytes.FromHexReads` | core/features/zkp/merkle.py:129-129 | What `fromhex` reads: digits of either case, white space between bytes, and nothing else. |
| `MerkleTheorems.GenuineProofAccepted` | core/features/zkp/merkle.py:137-156 | A proof made from leaves i and j verifies exactly for keys strictly between their names. |
| `MerkleTheorems.StraddleSoundIff` | core/features/zkp/merkle.py:137-156 | For any two names and paths accepted for a root, hashed inputs collide, or acceptance is right for every queried name if and only if the right leaf is at most one after the left one -- for names in increasing order, exactly when it is the next leaf. |
| `MerkleTheorems.RefusedExactlyWhenListed` | core/features/zkp/merkle.py:38-43 | A key is stored exactly when it is listed, or the list is empty and the key is "". |
| `MerkleTheorems.AnswerVerifiesInside` | core/features/zkp/merkle.py:71-99 | For a name that is not stored, the returned proof verifies exactly when the name lies strictly between the first and last stored names, and then its positions are consecutive. |
| `Schnorr.Completeness` | core/features/zkp/crypto.py:120-167 | For every key and nonce in [1, n) and every context below 2^32 bytes, proving succeeds and the proof is accepted, also for a zero response or challenge; the nullifier does not depend on the nonce. |
| `Schnorr.UniqueResponse` | core/features/zkp/crypto.py:146-167 | For one commitment, key and context at most one response is accepted. |
| `Schnorr.SpecialSoundness` | core/features/zkp/crypto.py:146-167 | Two accepted proofs with one commitment and key but different challenges -- from another context or another hash function -- give the private key (s - s') / (e' - e) mod n. |
| `Schnorr.ContextBinding` | core/features/zkp/crypto.py:146-167 | A proof accepted under two contexts exhibits two different transcripts with one challenge. |
| `Schnorr.TranscriptInjective` | core/features/zkp/crypto.py:58-71 | Equal framed transcripts agree on commitment, key and context. |
| `Schnorr.ChallengeLayout` | core/features/zkp/crypto.py:58-71 | The challenge is the hash of commitment, key and context, in this order and each behind its four-byte length, as a big-endian number modulo n; and exactly when it cannot be formed. |
| `Schnorr.VerifyRaisesIff` | core/features/zkp/crypto.py:146-167 | Verification raises if and only if points and response are in order and the context has 2^32 bytes or more. |
| `Schnorr.ProveRaisesIff` | core/features/zkp/crypto.py:120-141 | Proving raises if and only if a coordinate, the key or the context cannot be encoded. |
| `Schnorr.NullifierBinding` | core/features/zkp/crypto.py:137-139 | Equal nullifiers come from one key and context, or two hash inputs collide. |
| `Schnorr.NullifierLayout` | core/features/zkp/crypto.py:137-139 | The nullifier hashes the word NULLIFIER, the key in 32 big-endian bytes, and the context. |
| `Schnorr.SerialisationRoundTrip` | core/features/zkp/crypto.py:102-115 | Proofs and points survive printing and parsing, each number under its own name. |
| `Schnorr.Secp256k1Sizes` | core/features/zkp/crypto.py:27-59 | The field prime and the order of secp256k1 meet the size hypotheses: above 7 and at most 2^256, so that coordinates and scalars fit in 32 bytes. |
| `SmallCurve.SmallIsPrimeOrder` | core/features/zkp/crypto.py:32-53 | The same equation over 13 elements, with generator (7, 5) of order 7, meets every hypothesis of the Schnorr theorems. |
| `Codecs.FrameRoundTrip` | core/features/zkp/crypto.py:66-71 | Every framed part list decodes back to itself. |
| `Codecs.FrameInjective` | core/features/zkp/crypto.py:66-71 | Part lists with one framing are equal. |
| `Codecs.FramedExactly` | core/features/zkp/crypto.py:66-71 | Parts can be framed if and only if each is shorter than 2^32 bytes. |
| `Bytes.MostSignificantFirst` | core/features/zkp/crypto.py:58-63 | Integers are read with the first byte weighing most. |
| `Codecs.PointBytesInjective` | core/features/zkp/crypto.py:58-59 | The 64-byte encoding is injective on coordinates that fit. |
| `Codecs.PointBytesLayout` | core/features/zkp/crypto.py:58-59 | The first 32 bytes spell x and the last 32 spell y. |
| `Codecs.HexIntRoundTrip` | core/features/zkp/crypto.py:172-177 | int(hex(n), 16) = n for every integer. |
| `Codecs.HexIntSpelling` | core/features/zkp/crypto.py:172-173 | `hex` prints a sign, "0x" and lower-case digits without leading zeros. |
| `Codecs.ParseHexIntReads` | core/features/zkp/crypto.py:110-115 | Parsing also accepts a plus sign, no prefix or "0X", and upper-case digits. |
| `Sessions.RevocationExact` | core/features/auth/router.py:161-174 | After any run, with any requests failing half-way, an unexpired token is refused if and only if what some accepted logout or deletion got to write covers it, whatever keys expired or were overwritten. |
| `Sessions.LogoutIsPermanent` | core/features/auth/router.py:161-174 | Once a logout has gone through, no token of that user issued up to then passes again. |
| `Sessions.LoggedOutTokenIsDead` | core/features/auth/router.py:161-168 | Once a logout has written its blacklist key, that token never passes again, also when the next write raises. |
| `Sessions.DeletionIsPermanent` | core/features/auth/router.py:352-384 | After an account deletion no token of that user issued up to then passes again, for lifespans up to 30 days. |
| `Sessions.UntouchedTokenPasses` | core/api/middleware/auth_middleware.py:92-121 | An unexpired token passes when it was not logged out and every logout and deletion of its user was about earlier tokens. |
| `Sessions.LongTokensOutliveDeletion` | core/features/auth/router.py:384-384 | For every lifespan above 30 days some run lets a token covered by a deletion pass again. |
| `LedgerTheorems.AssetIsReplayOfTrail` | chaincode/contract.go:23-284 | In every reachable ledger each asset's owner, value, status, transfer count and freeze data are the fold of its trail, and every record was permitted after its predecessors. |
| `LedgerTheorems.TrailsOnlyGrow` | chaincode/contract.go:154-274 | Over any run, trails only gain records and issuance data never changes. |
| `LedgerTheorems.TrailDocumentsCommits` | chaincode/contract.go:68-267 | The trail has one record for each committed transaction on the asset, in order, with its actor, time, owners, amount and justification. |
| `LedgerTheorems.AssetFollowsCommits` | chaincode/contract.go:23-284 | The first committed transaction on an asset is the issue that gave it its type, name, identifiers, nominal value, currency, date and issuer; its regulatory reference is that of the freeze in force. |
| `LedgerTheorems.AllowedExactly` | chaincode/contract.go:23-284 | In every reachable ledger a transaction commits if and only if the right organisation sends it with well-formed data, a positive amount, and an asset that its committed transactions show to be issued or not, frozen or not. |
| `Formats.AssetIdExactly` | chaincode/compliance.go:11-11 | Valid asset ids are exactly RWA, 2-12 and 2-6 capitals, four and three digits, joined by dashes. |
| `Formats.ReferenceExactly` | chaincode/compliance.go:15-15 | Valid references are exactly 2-6 capitals, 2-8 capitals or digits, four digits, and 3-8 capitals or digits, joined by dashes. |
| `Formats.IdentifiersExactly` | chaincode/compliance.go:19-83 | Which ISINs, LEIs and currencies are valid. |
| `Formats.EqualFoldExactly` | chaincode/access.go:59-63 | Which spellings of an organisation's id are accepted: any letter case, and the two Unicode letters that fold to K and S. |
| `LedgerTheorems.ReachableTrailsDisciplined` | chaincode/compliance.go:24-39 | In every reachable trail TOKENISE stands exactly first, freezes and releases alternate, no transfer happens while frozen, and each MSP is one allowed for its action. |
| `LedgerTheorems.LawfulIsDisciplined` | chaincode/access.go:14-67 | The step-by-step rules imply the positional discipline, roles included. |
| `LedgerTheorems.FrozenExactly` | chaincode/contract.go:186-274 | A lawful trail replays to GELE exactly when some GELE has no later DEGELE. |
| `LedgerTheorems.TransfersChainOwners` | chaincode/contract.go:142-157 | Every transfer record's from-owner is the owner given by the records before it. |
| `Audit.Check` | core/features/audit/integrity_checker.py:27-85 | The report record by record, its count of tampered records, and validity exactly for trails that are empty or start with TOKENISE and use only known actions. |
| `Audit.ValidExactly` | core/features/audit/integrity_checker.py:35-68 | No record has a problem exactly when the trail starts with TOKENISE and knows every action. |
| `Audit.ProblemsExactly` | core/features/audit/integrity_checker.py:35-47 | Which flags a record gets, flag by flag. |
| `Audit.TamperedIsSize` | core/features/audit/integrity_checker.py:66-69 | The tampered count is the number of records with a flag. |
| `Audit.ReachableTrailsAcceptable` | core/features/audit/integrity_checker.py:27-85 | The checker accepts every trail of every reachable ledger. |
| `Audit.CheckerIgnoresDiscipline` | core/features/audit/integrity_checker.py:35-47 | For any trail and one more record: the checker asks only for a known action, the discipline also for the contract's guards -- no second TOKENISE, the role, and a DEGELE exactly on a frozen trail. |
| `Audit.DisciplinedExactly` | core/features/audit/integrity_checker.py:35-68 | On every trail: it is disciplined if and only if the checker accepts it and every record passed the guards, so a rejection is always right and an acceptance exactly when no guard was bypassed. |
| `Saga.FreezeAgreesIff` | core/features/assets/service.py:219-290 | From equal statuses, `freeze` ends with equal statuses if and only if the ledger step did not commit, or exactly one of "the row was written" and "the ledger step was undone" holds; with both statuses in every case. |
| `Saga.FreezeOutcome` | core/features/assets/service.py:219-290 | The ledger and the rows after `freeze` -- transaction id, block number and compensation record included -- and exactly when it raises, by conditions on replies and faults. |
| `Saga.FreezeWithoutRow` | core/features/assets/service.py:219-237 | Without a database row `freeze` raises and rows stay; the ledger takes the freeze if the submit committed and is unchanged otherwise. |
| `Saga.CompensationRestores` | core/features/assets/service.py:262-269 | A committed compensation gives back every field of every asset; the trail gains exactly GELE then DEGELE. |
| `Saga.UnfreezeAgreesIff` | core/features/assets/service.py:299-359 | From equal statuses, `unfreeze_asset` ends with equal statuses if and only if the ledger step did not commit or the row was written; every other committed one leaves the ledger ACTIF and the row GELE, whatever the compensation answers. |
| `Saga.UnfreezeOutcome` | core/features/assets/service.py:299-359 | The same for `unfreeze_asset`, whose compensation never takes. |
| `Saga.FreezeEndsApart` | core/features/assets/service.py:256-269 | A reachable ledger and a database commit that raises after taking effect, where the compensation itself leaves the ledger ACTIF and the row GELE. |
| `Saga.UnfreezeEndsApart` | core/features/assets/service.py:336-348 | A reachable ledger and a raising database commit after which the ledger is ACTIF and the row GELE. |
| `Reconciliation.SyncSettles` | core/features/assets/tasks.py:41-69 | A reconciled row has the ledger's status and owner where given, and its own value if that is within 0.001 of the ledger's, else the ledger's as stored; exactly the changed columns are reported, nothing else changes, and a further run would change nothing. |
| `Reconciliation.StoredIsClose` | db/sql/01_schema.sql:83-83 | A stored value is the nearest whole number of ten-thousandths, away from zero on a tie. |
| `Reconciliation.SyncRepairsIff` | core/features/assets/tasks.py:28-73 | With any part of a run raising: the row ends settled if and only if it was before, or its value is not NULL and the write takes; no other row changes; and exactly when the run raises and what it reports. |
| `Reconciliation.SyncRepairsFreeze` | core/features/assets/tasks.py:28-73 | Whatever `freeze` left behind, one run brings status and value in step if and only if they were, or the value is not NULL and the run's write takes; the next run then reports no change. |
| `Reconciliation.SyncRepairsUnfreeze` | core/features/assets/tasks.py:28-73 | The same after `unfreeze_asset`, whose own compensation never takes. |
| `Reconciliation.SyncAll` | core/features/assets/tasks.py:82-105 | Paging launches every asset id exactly once, in order. |
| `CircuitBreaker.ClosedExactlyBelowThreshold` | core/core/circuit_breaker.py:91-127 | Under every interleaving the circuit is closed exactly when fewer than `threshold` calls failed since the last success. |
| `CircuitBreaker.ModeExactly` | core/core/circuit_breaker.py:91-127 | Under every interleaving the mode, the count and the start of the cooldown are determined by the failures since the last success: late failures restart the cooldown. |
| `CircuitBreaker.AdmittedExactly` | core/core/circuit_breaker.py:93-103 | A call is let through if and only if the failures are below the threshold, a probe is under way, or the cooldown since the last failure is over. |
| `CircuitBreaker.ProbesAreLateArrivals` | core/core/circuit_breaker.py:93-103 | From any reachable open circuit, until the next outcome, the calls let through are exactly those that arrive after the cooldown, with any cancellations between them. |
| `CircuitBreaker.OneProbeIff` | core/core/circuit_breaker.py:10-102 | At most one probe is let through if and only if at most one call arrives after the cooldown before the next outcome. |
| `CircuitBreaker.ManyProbesReachable` | core/core/circuit_breaker.py:93-127 | For every threshold some run opens the circuit and then lets any given number of probes through together. |
| `CircuitBreaker.FailingDependencyBound` | core/core/circuit_breaker.py:91-127 | While every admitted call fails, fewer than `threshold` get through before the first opening, and each later one costs a full cooldown. |
| `CircuitBreaker.OutageIsRun` | core/core/circuit_breaker.py:91-127 | Those calls are a run of the interleaved system, with the same breaker and the same number let through. |
| `FabricRetry.OpenExactlyAtThreshold` | core/fabric_client/retry.py:72-131 | Under every interleaving the circuit is open exactly when the count reached the threshold, the count is a run of faults since the last success within the timeout window, and every call is within its attempts with its backoff delay. |
| `FabricRetry.OpensExactly` | core/fabric_client/retry.py:99-111 | Under every interleaving the circuit is open if and only if, among the faults since the last success or reset, some window that starts with a fault and spans the timeout has reached the threshold; it then dates from the last fault. |
| `FabricRetry.BurstOpens` | core/fabric_client/retry.py:99-111 | `threshold` faults within the timeout of the first one counted open the circuit. |
| `FabricRetry.AttemptsCounted` | core/fabric_client/retry.py:84-131 | A call makes one attempt more than it has suffered faults, and suffers at most `maxAttempts`. |
| `FabricRetry.CallEndsExactly` | core/fabric_client/retry.py:84-131 | What ends a call, and what leaves the breaker alone. |
| `FabricRetry.TripNeedsBurst` | core/fabric_client/retry.py:99-111 | When an event opens the circuit, the last `threshold` faults since the last success all came within the timeout of the first of them. |
| `FabricRetry.RejectedExactlyWhileOpen` | core/fabric_client/retry.py:74-79 | A new call is turned away without a trace exactly while the count is at the threshold and the timeout has not passed; otherwise it starts, and an open circuit is reset. |
| `FabricRetry.OpenStaysShut` | core/fabric_client/retry.py:74-111 | From an opening until the timeout has passed, unless an attempt in flight succeeds, the circuit stays open and no new call is admitted. |
| `RateLimiter.ServedExactly` | core/api/middleware/rate_limiter.py:37-45 | A request is served exactly when its key has at most 120 request times for GET, 30 otherwise, in the last 60 seconds, its own included. |
| `RateLimiter.ServedTimesBound` | core/api/middleware/rate_limiter.py:31-55 | In any 60-second window the served requests of a key carry at most `limit` different timestamps. |
| `RateLimiter.WindowBound` | core/api/middleware/rate_limiter.py:31-55 | No 60-second window serves more than `limit` requests of a client and method whose own timestamps are distinct, whatever other clients send. |
| `RateLimiter.ExpiryIsInvisible` | core/api/middleware/rate_limiter.py:38-41 | The key's expiry never changes what is counted. |
| `RateLimiter.SameInstantUnlimited` | core/api/middleware/rate_limiter.py:39-45 | Requests carrying one timestamp are all served, however many. |
| `RateLimiter.SharedTimestampsBound` | core/api/middleware/rate_limiter.py:31-55 | If at most m requests of a key share a timestamp, a window serves at most m * limit of them. |
| `RateLimiter.SharedTimestampsTight` | core/api/middleware/rate_limiter.py:31-55 | For every m some such run serves m * limit requests in one window. |
| `RateLimiter.LimitHoldsIff` | core/api/middleware/rate_limiter.py:31-55 | The limit holds over all runs with at most m requests of the key on one timestamp if and only if m <= 1. |
| `TokenBucket.TokensInRange` | core/fabric_client/events.py:39-52 | Tokens stay between zero and the rate, over every run. |
| `TokenBucket.GrantsBound` | core/fabric_client/events.py:39-52 | Between s and t at most rate * (t - s) + rate calls are granted. |
| `TokenBucket.SlowBucketNeverGrants` | core/fabric_client/events.py:44-52 | A rate below one never grants anything. |
| `TokenBucket.SpacedCallGranted` | core/fabric_client/events.py:39-52 | With a rate of at least one, a call 1/rate seconds after the previous one is granted. |
| `TokenBucket.FullBucketBurst` | core/fabric_client/events.py:33-52 | Of calls made at the creation of the bucket, exactly the whole tokens of its rate are granted. |
| `TribunalTheorems.DecidesByTwoThirds` | core/features/tribunal/service.py:114-127 | An option is decided exactly when it has two thirds of at least one revealed vote; tie-breaking is irrelevant. |
| `TribunalTheorems.RevealedCount` | core/features/tribunal/service.py:104-113 | The total of a tally is the number of revealed votes of the session. |
| `TribunalTheorems.CastCount` | core/features/tribunal/service.py:104-119 | An option's count is the number of the session's votes revealed as that option. |
| `TribunalTheorems.HonestVoteCounts` | core/features/tribunal/service.py:43-119 | Whoever may still vote and commits to a vote can, after any further events, reveal exactly that opening while the session is unresolved and the vote unrevealed, and it is counted once, for what was voted. |
| `TribunalTheorems.DecisionIgnoresOrder` | core/features/tribunal/service.py:104-127 | The order of the votes does not matter. |
| `TribunalTheorems.TallySlashesAtMostAThird` | core/features/tribunal/service.py:129-139 | A deciding tally slashes at most a third of the revealed votes, and total stake changes by 10 * revealed - 60 * slashed. |
| `TribunalTheorems.CommitBinding` | core/features/tribunal/service.py:20-22 | Two openings of one commitment, whatever votes and salts: two hash inputs collide, or they are equal, or one vote continues the other over a ':'; so of two votes free of ':', such as the two options, at most one opens it. |
| `TribunalTheorems.SameTextIff` | core/features/tribunal/service.py:20-22 | Exactly which pairs of openings hash one text. |
| `TribunalTheorems.SpoiledOpening` | core/features/tribunal/service.py:73-98 | A commitment to a vote with a ':' in its salt also opens as a longer vote, which no option matches. |
| `TribunalTheorems.StakeLaw` | core/features/tribunal/service.py:43-148 | Over any run: one vote per auditor and session, every reveal matches its commitment, and after k deciding tallies a stake is 100 + 10k, 100 - 50k or 100, with the rewarded and slashed marks to match. |
| `TribunalTheorems.ResolvedIsFinal` | core/features/tribunal/service.py:84-148 | After the first deciding tally no vote of the session is added or revealed, and every later tally returns the same decision. |
| `Merkle.Build` | core/features/zkp/merkle.py:36-57 | The loops build the tree of the specification: lower-cased set in order, every level the pairing of the one below with an odd last node paired with itself, and the root on top. |
| `Merkle.PairUp` | core/features/zkp/merkle.py:48-54 | One pass of the inner loop yields the next level. |
| `Merkle.MerklePath` | core/features/zkp/merkle.py:59-69 | The loop over the levels extracts the path of a leaf index. |
| `Merkle.CheckPath` | core/features/zkp/merkle.py:126-134 | The checking loop hashes upwards and compares with the root; it raises exactly when some sibling is not hexadecimal. |
| `Merkle.Search` | core/features/zkp/merkle.py:75-84 | The loop finds whether a key is stored, and otherwise how many stored names sort before it. |
| `Merkle.NonMembershipProof` | core/features/zkp/merkle.py:71-99 | Returns None exactly for a stored name, and otherwise the proof at the two leaves around the insertion point. |
| `Codecs.FrameLoop` | core/features/zkp/crypto.py:66-71 | The loop feeds the hash the framed parts, and raises exactly when a part has 2^32 bytes or more. |
| `Sessions.Redis.Check` | core/api/middleware/auth_middleware.py:92-121 | The middleware's verdict on a token: invalid, revoked, passed, or a system fault when validation or Redis raises. |
| `Sessions.Redis.Logout` | core/features/auth/router.py:152-174 | The keys, lifetimes and watermark a logout writes, also when one of the two writes raises; one that is refused, or whose check raises, writes nothing. |
| `Sessions.Redis.DeleteAccount` | core/features/auth/router.py:352-384 | The 30-day watermark an account deletion writes; one that is refused, or raises before the write, writes nothing. |
| `Ledger.Contract.TokenizeAsset` | chaincode/contract.go:23-106 | Succeeds exactly when every guard passes, and then stores the new asset and sets its event; otherwise nothing changes. |
| `Ledger.Contract.TransferAsset` | chaincode/contract.go:108-170 | Succeeds exactly when every guard passes, and then moves owner, value, count and trail together; above 1,000,000 the MiCA event is set before the transfer event. |
| `Ledger.Contract.FreezeAsset` | chaincode/contract.go:172-230 | Succeeds exactly when every guard passes, and then sets status, freeze data with the RFC 3339 time, and trail together. |
| `Ledger.Contract.UnfreezeAsset` | chaincode/contract.go:232-284 | Succeeds exactly when every guard passes, and then clears the freeze data and extends the trail. |
| `Saga.AssetService.SubmitCall` | core/fabric_client/network.py:203-256 | A refused transaction raises and changes nothing; a raising one may still have committed. |
| `Saga.AssetService.FreezeAsset` | core/features/assets/service.py:213-290 | The state of ledger and rows after `freeze`, in every combination of replies and faults, the response after the commit included. |
| `Saga.AssetService.UnfreezeAsset` | core/features/assets/service.py:293-359 | The state of ledger and rows after `unfreeze_asset`, in every combination of replies and faults, the response after the commit included. |
| `Reconciliation.SyncFabricState` | core/features/assets/tasks.py:28-73 | The rows and the outcome of a run: synced with the changed columns, not synced, or raised -- by a NULL value, the ledger query, the select, the write or the audit log. |
| `CircuitBreaker.Breaker.Enter` | core/core/circuit_breaker.py:93-103 | Who is admitted, and that a rejected call changes nothing. |
| `CircuitBreaker.Breaker.RecordSuccess` | core/core/circuit_breaker.py:111-115 | A success closes the circuit and clears the count. |
| `CircuitBreaker.Breaker.RecordFailure` | core/core/circuit_breaker.py:118-127 | A failure counts, and opens the circuit from HALF_OPEN or at the threshold. |
| `FabricRetry.SharedState.Enter` | core/fabric_client/retry.py:72-79 | Who is rejected, and the reset after the timeout. |
| `FabricRetry.SharedState.RecordSuccess` | core/fabric_client/retry.py:86-89 | A success closes the circuit and clears the count. |
| `FabricRetry.SharedState.RecordFailure` | core/fabric_client/retry.py:99-111 | The windowed count, the opening, and whether the failure trips the circuit. |
| `RateLimiter.Limiter.Dispatch` | core/api/middleware/rate_limiter.py:23-68 | The response and the stored set of one request, with exempt paths and Redis down. |
| `TokenBucket.Throttle.Acquire` | core/fabric_client/events.py:39-52 | The refill, the cap, the grant and the new state. |
| `Tribunal.TribunalService.CommitVote` | core/features/tribunal/service.py:43-71 | A vote is added exactly in an open, unexpired COMMIT session without a vote of that auditor, with the submitted commitment and a stake of 100. |
| `Tribunal.TribunalService.RevealVote` | core/features/tribunal/service.py:73-100 | A reveal is stored exactly for an unrevealed vote of an unresolved session that matches its commitment, and every other answer. |
| `Tribunal.TribunalService.CountVotes` | core/features/tribunal/service.py:104-119 | The loop's three counts. |
| `Tribunal.TribunalService.Slash` | core/features/tribunal/service.py:129-139 | The loop settles exactly the session's revealed votes. |
| `Tribunal.TribunalService.TallyAndSlash` | core/features/tribunal/service.py:102-148 | The decision, the settled votes and the resolved session. |

## Left out

- secp256k1 point arithmetic, SHA-256, ECDSA, Ed25519 and the CKKS library: foreign code, taken as parameters with their laws.
- Schnorr.Completeness: the primality of the group order and the group laws of secp256k1 are hypotheses, not proved for its constants.
- Codecs.HexIntRoundTrip: the parser covers signs, prefixes and digits; the underscores and surrounding white space that `int` also accepts are not modelled.
- Random scalar generation: it would only add a rejection loop; nonces are parameters.
- Event payloads: the names of the events a transaction sets are modelled, their JSON is not.
- Audit.Check: the record digest is a parameter; the JSON text it is taken of is not modelled.
- Reconciliation.SyncAll: the asset ids are those of one query snapshot; concurrent inserts between pages are not modelled.
- Owner reconciliation from ledger replies: the reply carries no owner id under the key the job reads, so only status and value are compared with the ledger.
- The transfer saga: core/features/assets/service.py:135-142 passes the price before the justification, the opposite of the chaincode's order, so its outcome rests on the argument conversion of the chaincode runtime, which is not modelled.
- FabricRetry.OpenExactlyAtThreshold: the random jitter added to each sleep is not modelled, since no decision depends on it.
- RateLimiter.WindowBound: assumes one clock for the middleware and Redis, and Redis up.
- Sessions.RevocationExact: the request's check and handler are one step; requests of one user interleaved inside each other are not modelled.
- Tribunal session creation: sessions are given at the start of a run; only the service's own operations change them.
- Compliance scoring, sanctions matching, KYC and MiCA checks, the agent, graph sync, reports, dashboards, CLI and gRPC layers: they would only add easy members or external services.
