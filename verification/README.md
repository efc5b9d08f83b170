# Verification of the outcome SDK and its prime certificates

A Dafny 4.11 model of the deterministic core of the outcome engine, with proofs. `dafny verify dfyconfig.toml` checks
all of it. Arithmetic is on unbounded integers unless a module says otherwise; where the source works on a machine width
(`u128`, `u64`, byte-wide fields) the wrap-around, the overflow check or the range check is written out.

## What is modelled

**128-bit primality certificates.** `NumberTheory` proves Fermat's little theorem and Pocklington's theorem (Handbook of
Applied Cryptography, section 4.3.2) from scratch. `Montgomery` proves the limb multiplication, the Newton inverse, both
carry branches of the reduction (section 14.3.2) and square-and-multiply against exact integer arithmetic. `Pocklington`
proves that the on-chain verifier accepts exactly the certificates of its own specification and that acceptance means
prime. `Keeper` is the off-chain prover: sieve, smooth part, base search, Wesolowski proof, circuit certificate; whatever
its search finds passes the verifier, and of its three failing exits only the exhausted search can be taken.

**Draws and commitments.** `WeightedDraw` proves three implementations of the weighted draw equal to one specification
for distinct ids, says what the streaming one does with repeated ids, and bounds the modulo bias. `StableSort` is the stable sort of ECMA-262 2023, section 23.1.3.30, with a proof that it is
the only arrangement the standard allows; `RankedDraw` proves the bounded streaming top-k and the index sort against it,
ties included. `Merkle` proves completeness and soundness of the snapshot tree for an arbitrary hash function: an accepted
proof either belongs to a committed line or exhibits two distinct strings, one hashed by the checker and one by the
builder, with the same digest.

**Artifact formats and what they mean.** `EntryTable` holds the record table shared by formats 1, 2, 3 and 5 and the loop
that reads it; `OutcomeFormat`, `SnapshotV5`, `CompositeFormat` and `SlotFormat` are the codecs, each with both round trips
and an exact description of the accepted blobs; `OutcomeBuilder`, `SnapshotBuilder` and `CompositeBuilder` are the builders
of formats 1 to 3, 5 and 8, from configuration to parse. `EffectPayout` and `OutcomeDraw` prove that draws conserve the
effect table. `SlotReplay` proves the blob interpreter against the direct meaning of a game
(`Xorshift` is its generator), `CompositeRank` and `Conditions` the two scoring schemes. What a codec accepts, and which bytes
each column is read from, is also stated as rules on byte offsets (`AcceptsByRules` and the `Content` lemmas).

**Step protocols.** `ChunkUpload` is the resumable upload against the on-chain instructions (submit, init, write, finalize,
review), as a state machine over crashes, restarts, stale reads and concurrent uploaders; `SlotEvidence` the greedy slot resolution; `EventLog` the call-stack machine over transaction logs.

## Where the code does not do what one would expect

* The magic of formats 1, 2, 3, 5 and 8 is compared after `toString("ascii")`, and Node's decoding drops the high bit of
  every byte. So an accepted blob always has a twin with another magic byte and the same parse (`MagicBends` of
  `OutcomeFormat`, `SnapshotV5` and `CompositeFormat`); equal parses mean equal blobs exactly when the four magic bytes
  agree (`EqualParses` of each codec).
* In format 8 the field keys are decoded the same way before they are matched, so their raw bytes are not determined by
  the parse either (`CompositeFormat.KeysBend`, `CompositeFormat.EqualParses`).
* The slot encoder checks only the upper bound of the wild and scatter indices; a negative index is written as its low
  byte. Such an encoding is rejected by the parser, or stands for another game (`SlotFormat.NegativeIndices`); it parses
  exactly when both bytes are in range, and the round trip holds exactly for non-negative indices
  (`SlotFormat.EncodingStandsFor`, `SlotFormat.RoundTripExactly`).
* `sortLegs` ignores `termKind`. The slip commitment does not depend on the order of the legs exactly when no two of them
  differ in `termKind` alone (`Conditions.OrderIrrelevantExactly`); validated legs never do (`Conditions.SlipCanonical`).
* Without normalisation a composite ranking survives a positive affine map of one field exactly when the map only shifts
  or the field is the only one (`CompositeRank.AffineInvarianceExactly`, values and shifts being unbounded integers); with
  min-max normalisation always.
* The snapshot file of a streaming draw may repeat an id. All entries of the id drop out when it wins, and the draw fails
  exactly when more winners are asked for than there are distinct ids (`WeightedDraw.StreamingDraw`).
* The serializer of formats 1 to 3 has no size cap; what it writes is accepted exactly up to 8192 bytes
  (`OutcomeBuilder.ParseAfterBuild`).
* The final "every order seen" check of the verifier's format 5 parser never fires (`SnapshotV5.OrdersFill`), so both
  format 5 parsers accept the same blobs.
* The prover's last check, "capped F <= sqrt(l)", never fires either: an exponent cut off at 64 leaves a power whose square
  no 128-bit l reaches (`Keeper.CappedProductSuffices`).
* The empty blob cannot be submitted, and the on-chain reader would refuse it (`ChunkUpload.Submit`, `ChunkUpload.LoadBlob`).

## Assumptions

* Instructions execute one at a time and a rejected one changes nothing; the runtime hands a program the data stored at an
  address it owns. Address derivation is an arbitrary function, and the format parser that the finalization calls an
  arbitrary predicate.
* SHA-256 is a parameter (a function into 32 bytes); nothing else is assumed of it. The 64-bit roll of a round is an
  arbitrary function of the round.
* The probabilistic primality test of the prover is an arbitrary predicate; soundness does not depend on it.
* JavaScript numbers that the source treats as integers are integers here.

## Model

| member | source | states |
|---|---|---|
| NumberTheory.Fermat | programs/unicorn-spike/src/pocklington.rs:98-105 | for a prime p not dividing a, a^(p-1) is 1 modulo p |
| NumberTheory.PocklingtonFactor | programs/unicorn-spike/src/pocklington.rs:106-115 | every prime p dividing a number with a certificate has f dividing p - 1 |
| NumberTheory.Pocklington | programs/unicorn-spike/src/pocklington.rs:8-13 | l - 1 = f*r with f*f > l and the Fermat and gcd conditions for a base make l prime |
| Montgomery.AddRow | programs/unicorn-spike/src/mont.rs:33-36 | one row of limb products adds a[i]*b shifted by i limbs, without overflowing its columns |
| Montgomery.Columns | programs/unicorn-spike/src/mont.rs:29-38 | the eight columns together are worth the full product |
| Montgomery.Propagate | programs/unicorn-spike/src/mont.rs:39-47 | carry propagation keeps the value and leaves 32-bit limbs |
| Montgomery.Mul128 | programs/unicorn-spike/src/mont.rs:16-51 | hi * 2^128 + lo is exactly the product of any two 128-bit numbers |
| Montgomery.AddMod | programs/unicorn-spike/src/mont.rs:59-62 | modular addition through checked_add is right on the overflow branch too |
| Montgomery.NaiveMulMod | programs/unicorn-spike/src/mont.rs:54-71 | double-and-add gives a*b mod m for every 128-bit a, b and m > 0 |
| Montgomery.NewtonStep | programs/unicorn-spike/src/mont.rs:86-89 | one Newton step squares the precision of the inverse |
| Montgomery.MontCtx.New | programs/unicorn-spike/src/mont.rs:81-94 | for odd l, n' is -1/l modulo 2^128 after seven steps, and R, R^2 modulo l are right |
| Montgomery.LowWordsCancel | programs/unicorn-spike/src/mont.rs:99-102 | the low words of T and m*l cancel: they are both zero or add up to 2^128 |
| Montgomery.AddHigh | programs/unicorn-spike/src/mont.rs:103-113 | both carry branches give the high words' sum with the carry, less l where needed |
| Montgomery.MontMul | programs/unicorn-spike/src/mont.rs:97-114 | the result lies in [0, l) and times 2^128 is a*b modulo l |
| Montgomery.RInverse | programs/unicorn-spike/src/mont.rs:90-92 | 2^128 has an inverse modulo the odd l |
| Montgomery.ToMont | programs/unicorn-spike/src/mont.rs:116-118 | conversion into Montgomery form multiplies by 2^128 modulo l |
| Montgomery.FromMont | programs/unicorn-spike/src/mont.rs:119-121 | conversion back divides by 2^128 modulo l |
| Montgomery.Modpow | programs/unicorn-spike/src/mont.rs:124-136 | the result is base^exp modulo l for every odd l and all 128-bit base and exp |
| Pocklington.GcdU128 | programs/unicorn-spike/src/pocklington.rs:21-28 | Euclid's loop returns the greatest common divisor |
| Pocklington.IsPrimeTrial | programs/unicorn-spike/src/pocklington.rs:31-46 | trial division answers true exactly for primes, the overflow of d*d included |
| Pocklington.CertifiedIsPrime | programs/unicorn-spike/src/pocklington.rs:59-117 | a certificate meeting the specification has a prime l |
| Pocklington.AcceptedForPrime | programs/unicorn-spike/src/pocklington.rs:98-115 | for prime l and well-built f, a base is accepted exactly when it is no q-th power residue for any listed q |
| Pocklington.DivideOut | programs/unicorn-spike/src/pocklington.rs:82-84 | the inner loop removes exactly the power of q |
| Pocklington.FullyFactored | programs/unicorn-spike/src/pocklington.rs:76-88 | dividing out leaves 1 exactly when the listed primes are all primes of f, repeated or not |
| Pocklington.CheckWitness | programs/unicorn-spike/src/pocklington.rs:108-114 | the gcd test of one prime, the zero residue included |
| Pocklington.PocklingtonVerify | programs/unicorn-spike/src/pocklington.rs:59-117 | true exactly for the certificates of the specification, and then l is prime |
| Keeper.CrossOut | spikes/unicorn-circom/keeper.js:22 | the inner loop of the sieve crosses out exactly the multiples of i from i*i |
| Keeper.Sieve | spikes/unicorn-circom/gen_pocklington_cert.js:12-14 | a cell holds 1 exactly for a prime up to 2^16 |
| Keeper.CollectPrimes | spikes/unicorn-circom/gen_pocklington_cert.js:15-16 | the list is all primes up to 2^16 in increasing order |
| Keeper.PeelPrime | spikes/unicorn-circom/gen_pocklington_cert.js:44 | moves the full power of p from t to f |
| Keeper.SmoothPart | spikes/unicorn-circom/gen_pocklington_cert.js:40-49 | f is the product of all powers of primes below 65536 in n and the list is its distinct primes, increasing |
| Keeper.SmoothUnique | spikes/unicorn-circom/keeper.js:42 | the smooth part and its list of primes are uniquely determined |
| Keeper.Modpow | spikes/unicorn-circom/keeper.js:25 | b^e mod m, with the unreduced 1 for e = 0 |
| Keeper.GcdBig | spikes/unicorn-circom/keeper.js:36 | Euclid's loop returns the greatest common divisor |
| Keeper.ModInv | spikes/unicorn-circom/keeper.js:37 | the extended Euclidean loop returns the inverse in [0, m) of every unit |
| Keeper.Squarings | spikes/unicorn-circom/keeper.js:48 | T squarings give u^(2^T) modulo N |
| Keeper.WesolowskiProof | spikes/unicorn-circom/keeper.js:46-70 | pi^l * u^r is y modulo N for every u, N and l, so the failing exit is unreachable |
| Keeper.DeriveL | spikes/unicorn-circom/keeper.js:41 | a candidate is the low 128 bits of the digest with only its top and its lowest bit forced |
| Keeper.DerivedUnique | spikes/unicorn-circom/gen_pocklington_cert.js:34-38 | no other number is |
| Keeper.TryPrime | spikes/unicorn-circom/keeper.js:62 | the gcd check for one prime of l - 1 |
| Keeper.TryBase | spikes/unicorn-circom/keeper.js:61-62 | a base is taken exactly when the Fermat check and all gcd checks hold |
| Keeper.FindBase | spikes/unicorn-circom/keeper.js:60-62 | returns the least working base of the twelve, and zero exactly when none works |
| Keeper.Certify | spikes/unicorn-circom/keeper.js:58-63 | one nonce yields a candidate exactly when l is certifiable |
| Keeper.SearchIsSound | spikes/unicorn-circom/gen_pocklington_cert.js:62-75 | every candidate found, written as a certificate, meets the verifier's specification, so l is prime |
| Keeper.Grind | spikes/unicorn-circom/keeper.js:53-65 | the first probable prime that is certifiable is found, it is the one derived from its digest, and failure means there is none in the budget |
| Keeper.FewestFactors | spikes/unicorn-circom/gen_pocklington_cert.js:54-76 | the result has the fewest distinct primes of all candidates scanned, and is the one derived from its digest |
| Keeper.CountMultiplicity | spikes/unicorn-circom/keeper.js:74 | the exponent loop with its cap at 64 |
| Keeper.MakeSlot | spikes/unicorn-circom/keeper.js:74-76 | one slot of the circuit certificate, its inverse included |
| Keeper.AssembleWitness | spikes/unicorn-circom/keeper.js:71-83 | F*R is l - 1, unused slots are padded, failure happens exactly when the capped product squared is at most l, and never for an l of 128 bits |
| Keeper.CappedProductSuffices | spikes/unicorn-circom/keeper.js:74-80 | for every suitable candidate below 2^128 the capped product squared exceeds l, so the failing exit is unreachable |
| Keeper.GenWitness | spikes/unicorn-circom/keeper.js:45-83 | the whole prover: it fails exactly when no nonce of the budget is certifiable, and otherwise returns the prime l of the Fiat-Shamir digest with a correct delay proof and a circuit certificate of eight slots |
| StableSort.SortArranges | sdk/snapshot.ts:1455-1462 | the sort yields a permutation in comparator order with ties in list order |
| StableSort.SortIsTheStableSort | sdk/snapshot.ts:1501-1504 | every arrangement the standard allows equals this sort |
| RankedDraw.ComparatorConsistent | sdk/snapshot.ts:1149-1175 | every formula's comparator is a consistent comparator, ties in order included |
| RankedDraw.StreamStep | sdk/snapshot.ts:1456-1462 | pushing, sorting and truncating a top-k buffer gives the top k of one more entry |
| RankedDraw.PushTopK | sdk/snapshot.ts:1457-1461 | one turn of the streaming loop keeps the buffer the top k of what was read |
| RankedDraw.StreamTopK | sdk/snapshot.ts:1455-1466 | the streaming pass returns the first k of the full stable sort, or fails exactly when there are too few |
| RankedDraw.SortAndSlice | sdk/snapshot.ts:1501-1510 | sorting everything and slicing returns what the streaming pass returns, failure included |
| RankedDraw.IndexSortAgrees | sdk/verify.ts:1505-1510 | sorting indices and slicing points at the same winners in the same order |
| RankedDraw.IndexSortDistinct | sdk/verify.ts:1505-1510 | the index sort names k different outcomes |
| RankedDraw.IndexSortMeaning | sdk/verify.ts:1505-1510 | the same of the index sort: everybody selected leads those selected later and everybody not selected |
| RankedDraw.RankingMeaning | sdk/snapshot.ts:1501-1504 | winners are k distinct positions; by the scores and orders of each formula, every winner leads those after it and everybody outside, and list order breaks full ties |
| WeightedDraw.Scan | sdk/snapshot.ts:1484-1492 | the cursor loop finds the cell of the roll, or fails exactly when the roll is past the total |
| WeightedDraw.ChooseWeightedIndex | sdk/verify.ts:1419-1435 | fails exactly on an empty list or a zero weight, and otherwise picks the cell of the reduced roll |
| WeightedDraw.WinnersDistinct | sdk/snapshot.ts:1475-1498 | the winners of a draw have distinct ids and are entries of the list |
| WeightedDraw.SpliceDraw | sdk/snapshot.ts:1475-1500 | the splice loop returns the specified draw, and fails exactly when k exceeds the list |
| WeightedDraw.IndexListDraw | sdk/verify.ts:1494-1504 | the index list names the same winners in the same order, no index twice |
| WeightedDraw.RemainingWeight | sdk/snapshot.ts:1427-1431 | the first pass sums the weights not yet selected |
| WeightedDraw.FindWinner | sdk/snapshot.ts:1436-1446 | the second pass finds the id whose cell holds the roll |
| WeightedDraw.SelectOne | sdk/snapshot.ts:1449 | remembering an id in the set is the same as splicing its entry out |
| WeightedDraw.StreamingDraw | sdk/snapshot.ts:1423-1453 | the j-th winner is the id whose cell, among the entries whose ids have not been drawn, holds roll j modulo their total weight; failure means more winners than distinct ids |
| WeightedDraw.StreamingAgrees | sdk/snapshot.ts:1423-1453 | for distinct ids the spliced draw is that same draw, and k may be anything up to the list |
| WeightedDraw.DrawnLaws | sdk/snapshot.ts:1423-1453 | repeated ids or not, winners are distinct ids of the file |
| WeightedDraw.DrawnUnique | sdk/snapshot.ts:1423-1453 | the rolls leave a draw no choice |
| WeightedDraw.PickInterval | sdk/verify.ts:1429-1433 | the residues that pick an entry are one interval of the length of its weight |
| WeightedDraw.ModuloBias | sdk/snapshot.ts:1435-1445 | the number of 64-bit rolls picking weight w lies between w*floor(2^64/W) and w*ceil(2^64/W) |
| Merkle.BuildNextLevel | sdk/snapshot.ts:431-439 | each node is the hash of its left child followed by its right one, the last of an odd level doubled |
| Merkle.ChildOrder | sdk/snapshot.ts:434-436 | the first 32 bytes of a hashed node string are the left child, the last 32 the right one |
| Merkle.BuildLevels | sdk/snapshot.ts:441-450 | a complete tower whose root is the one computed by halving the leaves; fails exactly on no leaves |
| Merkle.TowerRoot | sdk/snapshot.ts:441-450 | the level-by-level tower ends in the root of the recursive halving |
| Merkle.BuildProof | sdk/snapshot.ts:457-478 | the siblings along the path of a leaf, failing exactly out of bounds |
| Merkle.ComputeRoot | sdk/snapshot.ts:484-510 | the climb from the doubly hashed line, a left sibling hashed before the node and a right one after it, or an error on a malformed line or node |
| Merkle.FoldIsClimb | sdk/snapshot.ts:494-509 | folding the proof from its end is climbing it from its start |
| Merkle.VerifyProof | sdk/snapshot.ts:517-542 | true exactly when a well-formed proof folds to the root |
| Merkle.FoldClimbs | sdk/snapshot.ts:466-476 | folding t nodes of a leaf's proof reaches its ancestor t levels up |
| Merkle.Completeness | sdk/snapshot.ts:457-510 | every committed line is accepted with its proof, odd levels included |
| Merkle.ExplainJustified | sdk/snapshot.ts:494-509 | the walk down from the root ends at the line or at two colliding strings that were really hashed |
| Merkle.Soundness | sdk/snapshot.ts:517-542 | an accepted line of any proof length is committed, or a concrete collision exists |
| ChunkUpload.Submit | programs/outcome/src/instructions/submit_compiled_artifact.rs:38-78 | an artifact is opened exactly for 1 to 8192 bytes |
| ChunkUpload.ExecuteExtends | programs/outcome/src/instructions/write_compiled_artifact_chunk.rs:39-89 | whoever sends whatever instruction, chunks stay bound to the artifact and within their share, and written bytes stay |
| ChunkUpload.ExecuteKeepsCommitted | programs/outcome/src/instructions/finalize_compiled_artifact.rs:22-81 | a finalized artifact reads as a valid blob of the committed digest, and its chunks are frozen |
| ChunkUpload.ExecutesExactly | programs/outcome/src/instructions/write_compiled_artifact_chunk.rs:39-89 | which instruction of which signer goes through in which state, and the only account it changes |
| ChunkUpload.FinalizedForGood | programs/outcome/src/instructions/finalize_compiled_artifact.rs:22-81 | over any execution, once finalized both readers return one and the same blob for good, with the committed digest |
| ChunkUpload.ApprovedIsFinalized | programs/outcome/src/instructions/review_compiled_artifact.rs:55-67 | an approved artifact has been finalized, over any execution |
| ChunkUpload.Reconstruct | sdk/verify.ts:1561-1636 | the verifier's reader succeeds exactly on bound and full chunks and returns their concatenation |
| ChunkUpload.StoredReads | programs/outcome/src/state/approved_outcome_artifact_chunk.rs:5-15 | the account bytes of a chunk are read back at the offsets of the on-chain reader |
| ChunkUpload.LoadBlob | programs/outcome/src/instructions/compiled_artifact_chunks.rs:11-86 | on raw account data, the on-chain reader succeeds exactly on the right accounts, in order, and returns their concatenation |
| ChunkUpload.ReadersAgree | programs/outcome/src/instructions/compiled_artifact_chunks.rs:26-85 | whatever accounts the program accepts, it reads what the verifier reads, and it accepts the derived accounts whenever the verifier can read |
| ChunkUpload.ReadsAreExact | sdk/verify.ts:1115-1118 | while one blob is written, reads succeed exactly when all chunks are full, and then both readers return that blob |
| ChunkUpload.NextKeepsInv | sdk/operator.ts:460-517 | every step, stale reads, crashes, finalizations and reviews included, keeps each chunk a prefix of its slice |
| ChunkUpload.RunsKeepInv | sdk/operator.ts:460-568 | the invariant holds in every state of every run of concurrent uploaders |
| ChunkUpload.RunsExtend | sdk/operator.ts:498-514 | between any two states of a run chunks persist and the bytes already written stay as they are |
| ChunkUpload.FinishedMeansReadable | sdk/operator.ts:558-567 | once one pass has finished, the verifier's reader and the on-chain reader on the derived accounts return the original blob, in that and every later state |
| ChunkUpload.Chain.WriteArtifactChunks | sdk/operator.ts:460-517 | left alone, a pass from any partial state goes through exactly when the artifact is open to the signer or nothing is missing, and then every chunk is full |
| ChunkUpload.Chain.FinalizeArtifact | sdk/operator.ts:558-568 | with all chunks full the finalization succeeds exactly for the open artifact of a valid blob |
| ChunkUpload.Chain.SubmitApprovedArtifact | sdk/operator.ts:519-627 | submission and resumption: the exact states from which it succeeds, and then the approved artifact reads as the blob with both readers |
| SlotEvidence.SelectRow | sdk/operator.ts:1296-1307 | the inner scan finds the first row of the least slot after the previous one and at or after the target |
| SlotEvidence.GreedyStep | sdk/operator.ts:1295-1314 | extending a pointwise least prefix greedily keeps it pointwise least |
| SlotEvidence.ResolveSlotEvidence | sdk/operator.ts:1284-1316 | the result is the pointwise least strictly increasing sequence with its hashes, or the first target no such sequence reaches; failure happens exactly when there is none |
| SlotEvidence.OrderIrrelevant | sdk/operator.ts:1284-1316 | with distinct slots the outcome, evidence or failing target, does not depend on the order of the table |
| EventLog.TreeBalanced | sdk/verify.ts:703-725 | over a complete call tree the stack returns to where it was and every data line goes to its own frame |
| EventLog.StackIsCallChain | sdk/verify.ts:708-729 | at every line of a well-nested log the stack is the live call chain |
| EventLog.Pop | sdk/verify.ts:718-723 | the splice loop removes the topmost occurrence |
| EventLog.FindEvent | sdk/verify.ts:699-769 | on any log the verdict is that of the attributed data lines |
| EventLog.VerdictOnTrees | sdk/verify.ts:699-769 | on a complete well-nested log the verdict is the one read off the call tree |
| EventLog.VerdictOnCutLogs | sdk/verify.ts:708-769 | on a log cut short anywhere each data line belongs to the innermost frame open in the call tree |
| EventLog.FoundIff | sdk/verify.ts:736-768 | a mismatch is reported exactly when no frame of the expected program emits a decodable event |
| Conditions.MultiplyOdds | sdk/conditions.ts:210-216 | product and scale of the odds, or rejection exactly out of band |
| Conditions.RepresentableMeaning | sdk/conditions.ts:208-222 | in numbers, which odds have a coefficient: at most that many legs, each in band, and neither 128-bit check nor the 64-bit one failing |
| Conditions.RoundOrOverflow | sdk/conditions.ts:217-222 | rounds exactly when neither overflow check fails |
| Conditions.CoefficientFixed | sdk/conditions.ts:208-223 | a value exactly for representable odds, the product rounded half up |
| Conditions.RoundedAccurate | sdk/conditions.ts:218-220 | the fixed-point value is the exact product rounded half up |
| Conditions.DroppedFactors | sdk/conditions.ts:282-284 | dropping legs divides the product by at least what it divides the scale by |
| Conditions.GuardSuffices | sdk/conditions.ts:280-294 | if all legs together are representable, so is any subset, with a coefficient no larger |
| Conditions.AtLeastPar | sdk/conditions.ts:208-223 | in-band odds never score below 10000 |
| Conditions.EvalMeaning | sdk/conditions.ts:178-203 | when a leg is pending, void, hit or missed, in terms of the first value of each statistic |
| Conditions.OverUnder | sdk/conditions.ts:183-203 | over and under of one line never both hit, and exactly one does unless a statistic is missing or lies on the line |
| Conditions.TallyLegs | sdk/conditions.ts:226-235 | the accumulators after the loop, in terms of the results of all legs |
| Conditions.ScoreSlip | sdk/conditions.ts:225-241 | settled, all-hit, void count and score of a slip, the zero fallback included |
| Conditions.AllHitScore | sdk/conditions.ts:236-239 | for a validated slip the fallback is unreachable, the score at least par, at most the full coefficient and accurate |
| Conditions.ValidLegMeaning | sdk/conditions.ts:269-277 | which legs pass: one statistic alone, or the sum or difference of two, compared in one of three ways, odds in band |
| Conditions.LegOrderConsistent | sdk/conditions.ts:107-112 | the leg comparator is a consistent comparator |
| Conditions.LegOrderFaithful | sdk/conditions.ts:269-277 | among valid legs it ties only equal legs |
| Conditions.SortLegsMeaning | sdk/conditions.ts:107-112 | the sort orders legs by seven columns in turn |
| Conditions.EncodeLegInjective | sdk/conditions.ts:88-94 | different legs have different encodings |
| Conditions.PreimageLayout | sdk/conditions.ts:88-119 | where each column of each sorted leg lies in the preimage, byte by byte |
| Conditions.SlipCanonical | sdk/conditions.ts:115-119 | for validated legs equal preimages mean equal wallet, tier and multiset of legs, and conversely |
| Conditions.OrderIrrelevantExactly | sdk/conditions.ts:107-119 | validated or not, a list of legs has one preimage in all its orders exactly when no two legs differ in termKind alone |
| Conditions.TermKindNotSorted | sdk/conditions.ts:107-112 | there are two such legs |
| Conditions.EntrantOrderConsistent | sdk/conditions.ts:245-251 | the entrant comparator is a consistent comparator |
| Conditions.RankingKeepsSum | sdk/conditions.ts:299-301 | ranking does not change the pro-rata denominator |
| Conditions.RankingMeaning | sdk/conditions.ts:245-251 | winners first, scores falling, earlier entries first at equal scores, wallets in order after that, same entrants |
| CompositeRank.RangeForField | sdk/composite_rank_desc.ts:509-518 | the least and the greatest value of a field |
| CompositeRank.CompositeScore | sdk/composite_rank_desc.ts:541-548 | the accumulated score is the weighted sum of effective values |
| CompositeRank.EffectiveCounts | sdk/composite_rank_desc.ts:520-536 | the linear law of one normalised value, with nothing in a range of one value |
| CompositeRank.ScoreMeaning | sdk/composite_rank_desc.ts:526-547 | a score is the weighted sum of raw values, or of their positions in the range of their field in millionths, rounded down |
| CompositeRank.FieldDifference | sdk/composite_rank_desc.ts:526-547 | participants that differ by d in one field differ in score by its weight times d, or d in millionths of the range up to one unit of rounding |
| CompositeRank.ScoreRange | sdk/composite_rank_desc.ts:532-547 | min-max scores lie in 0 .. 10^12 |
| CompositeRank.Dominance | sdk/composite_rank_desc.ts:541-548 | at least as good in every field never scores lower, in either mode |
| CompositeRank.AffineEffective | sdk/composite_rank_desc.ts:532-535 | normalisation cancels a positive affine map exactly, rounding included |
| CompositeRank.AffineInvariance | sdk/composite_rank_desc.ts:538-572 | a positive affine map of one field for everyone changes no score and no rank |
| CompositeRank.AffineInvarianceExactly | sdk/composite_rank_desc.ts:526-572 | all rankings under given weights survive a positive affine map of one field exactly with normalisation, for a mere shift, or for a single field |
| CompositeRank.ReplayOrderIsRankDesc | sdk/composite_rank_desc.ts:566-572 | the replay's comparator sorts like rank_desc |
| CompositeRank.Replay | sdk/composite_rank_desc.ts:538-580 | all ids, and the winners, are those of the stable ranking: each outranks those after it and everybody outside, by score and then order |
| CompositeRank.RankedByScore | sdk/composite_rank_desc.ts:566-580 | the first k of the stable ranking are the k best by score, earlier orders first |
| CompositeRank.VerifierOutcomes | sdk/verify.ts:1130-1147 | looking scores up by id gives every participant its own score |
| CompositeRank.VerifierAgrees | sdk/verify.ts:1450-1459 | the verifier's comparator path picks the replay's winners in the same order |
| Xorshift.NextPermutes | sdk/slot.ts:254-258 | every 64-bit state has exactly one predecessor |
| Xorshift.OnlyZeroFixed | sdk/slot.ts:254-258 | zero is its only fixed state |
| Xorshift.ScrambleInverts | sdk/slot.ts:259 | the multiplication is one-to-one onto the 64-bit numbers |
| Xorshift.DrawnFrom | sdk/slot.ts:259-260 | a draw of r comes from exactly the states that unscramble the 64-bit numbers congruent to r |
| SlotFormat.CheckAll | sdk/slot.ts:136-138 | the range loop accepts exactly lists of values in range |
| SlotFormat.Encode | sdk/slot.ts:73-156 | succeeds exactly on specifications passing its checks that fit 8192 bytes, and writes their layout |
| SlotFormat.HeaderBytes | sdk/slot.ts:119-131 | where each header field lies in an encoding |
| SlotFormat.ReelBytesAt | sdk/slot.ts:133-140 | where each stop of each reel lies |
| SlotFormat.PaylineBytesAt | sdk/slot.ts:141-147 | where each row index of each payline lies |
| SlotFormat.PaytableBytesAt | sdk/slot.ts:148-151 | where each multiplier lies |
| SlotFormat.ParseReels | sdk/slot.ts:201-214 | reads the reels encoded after the header, failing only if none are |
| SlotFormat.ParseTail | sdk/slot.ts:216-229 | the table checks, each row index and the exact end included |
| SlotFormat.Parse | sdk/slot.ts:160-248 | an accepted blob has everything later steps rely on, a rejected one encodes no canonical specification |
| SlotFormat.PreambleByRules | sdk/slot.ts:160-200 | the header checks as rules on the bytes |
| SlotFormat.HeaderContent | sdk/slot.ts:166-198 | which bytes each header field of a parsed game is read from |
| SlotFormat.ParsedIsEncoding | sdk/slot.ts:160-248 | an accepted blob is byte for byte the encoding of the specification it stands for |
| SlotFormat.RoundTrip | sdk/slot.ts:73-248 | parsing an encoding gives back the specification |
| SlotFormat.EncodingStandsFor | sdk/slot.ts:95-117 | an encoding parses exactly when its index bytes are in range, and then it stands for the specification with its indices reduced to bytes |
| SlotFormat.RoundTripExactly | sdk/slot.ts:95 | for encodable specifications the round trip holds exactly when both indices are non-negative |
| SlotFormat.NegativeIndices | sdk/slot.ts:95 | the encoder accepts games whose negative index makes the encoding unparsable, and games whose encoding is that of another game |
| SlotReplay.ScanLine | sdk/slot.ts:307-325 | the scan finds the longest scatter-free run of wild or one symbol, and the symbol it pays for |
| SlotReplay.PayFromBlob | sdk/slot.ts:326-336 | the stake times the paytable entry is truncated to a ten-thousandth, and that times num / den is rounded half up; fewer than three symbols or a zero denominator pay nothing |
| SlotReplay.PaysIsPaidOut | sdk/slot.ts:326-336 | the direct meaning of a game pays by the same law |
| SlotReplay.PaidOutUnique | sdk/slot.ts:264-268 | that law leaves one win only |
| SlotReplay.FillGrid | sdk/slot.ts:288-299 | the window shows each reel from its stop on, as a ring |
| SlotReplay.SeedValue | sdk/slot.ts:288 | the generator starts from the first eight bytes of the randomness, least significant first |
| SlotReplay.CountScatters | sdk/slot.ts:339-345 | all scatters of the window are counted |
| SlotReplay.ReplaySpin | sdk/slot.ts:280-358 | interpreting the blob gives the stops and the win of the specification it stands for |
| SlotReplay.EncodeAndSpin | sdk/slot.ts:73-358 | encode, parse and replay in a row succeed exactly for acceptable specifications and 32 bytes of randomness, and give the specification's own stops and win |
| SlotReplay.MaxWinCap | sdk/slot.ts:271-274 | the exact quotient rounded half up |
| EntryTable.ReadOfEncode | sdk/artifact.ts:520-531 | a record that fits its fields is read back unchanged |
| EntryTable.EncodeOfRead | sdk/verify.ts:1313-1374 | any record bytes are the encoding of what is read from them |
| EntryTable.MarkSlice | sdk/verify.ts:1353-1362 | marks the effects of an outcome and fails exactly on an overlap in an exclusive format |
| EntryTable.MarkOrder | sdk/verify.ts:1339-1349 | takes a place of the order and fails exactly when it is out of range or taken |
| EntryTable.CheckEntry | sdk/verify.ts:1313-1362 | the checks of one record against all records before it |
| EntryTable.ReadEntries | sdk/verify.ts:1306-1380 | the loop succeeds exactly when the whole table is there and passes every check |
| EntryTable.TableByRules | sdk/verify.ts:1306-1380 | those checks as rules on the bytes at their offsets |
| OutcomeFormat.HeadRead | sdk/verify.ts:1265-1301 | the header fields of a written header, for each of the three layouts |
| OutcomeFormat.HeadRebuilt | sdk/artifact.ts:500-518 | an accepted header is the written form of its fields |
| OutcomeFormat.ParseEffects | sdk/verify.ts:1382-1398 | reads exactly the effect tables of plain transfers |
| OutcomeFormat.Parse | sdk/verify.ts:1120-1416 | accepts exactly the blobs meeting all checks and returns their content; versions 5 and 8 branch off |
| OutcomeFormat.AcceptedIsLayout | sdk/verify.ts:1258-1416 | an accepted blob is the layout of its parse, up to the four magic bytes |
| OutcomeFormat.LayoutParses | sdk/artifact.ts:482-543 | a well-formed artifact of at most 8192 bytes parses back to itself |
| OutcomeFormat.AcceptsExactly | sdk/verify.ts:1120-1416 | exactly the layouts of well-formed artifacts of at most 8192 bytes are accepted, the magic as decoded |
| OutcomeFormat.AcceptsByRules | sdk/verify.ts:1120-1416 | the accepted blobs by rules on their bytes, every offset and bound a number |
| OutcomeFormat.HeadContent | sdk/verify.ts:1265-1301 | which bytes each header field is read from, with the defaults of formats 1 and 2 |
| OutcomeFormat.ContentByRules | sdk/verify.ts:1265-1398 | which bytes of an accepted blob each parsed column is read from |
| OutcomeFormat.EqualParses | sdk/verify.ts:1124-1126 | blobs with equal parses are equal exactly when their magic bytes are |
| OutcomeFormat.MagicBends | sdk/verify.ts:1124-1126 | every accepted blob has a different twin with the same parse |
| OutcomeBuilder.RepeatsAreAdjacent | sdk/artifact.ts:263-270 | in id order an adjacent comparison finds every repeated id |
| OutcomeBuilder.BuildOutcomesAndEffects | sdk/artifact.ts:258-277 | fails exactly on a repeated id or too many effects, and gives each entry its own effect |
| OutcomeBuilder.WriteOutcome | sdk/artifact.ts:520-531 | writes a record exactly when every field fits |
| OutcomeBuilder.Serialize | sdk/artifact.ts:482-543 | succeeds exactly on the configurations it checks and writes their layout |
| OutcomeBuilder.SerializableByRules | sdk/artifact.ts:482-543 | those checks in numbers |
| OutcomeBuilder.BuiltIsWellFormed | sdk/artifact.ts:279-325 | everything the builders produce is serialized, and to a well-formed artifact |
| OutcomeBuilder.ParseAfterBuild | sdk/artifact.ts:279-325 | the written artifact is accepted exactly up to 8192 bytes, and then parses to the sorted entries |
| OutcomeBuilder.BuiltPays | sdk/artifact.ts:241-256 | each outcome carries its own entry's id, weight, score and order, and its one effect is that entry's payout |
| OutcomeBuilder.BuiltHeadSays | sdk/artifact.ts:279-325 | the header of what is built; only format 3 carries a formula and a target |
| EffectPayout.SliceBytes | sdk/verify.ts:1535-1538 | the bytes cut from the blob are the encoding of the outcome's amounts |
| EffectPayout.PaySelected | sdk/verify.ts:1512-1558 | total, effect count and digested bytes all describe the same list of transfers |
| EffectPayout.PayFlat | sdk/verify.ts:1522-1533 | the compact formats pay the same amount to every winner, as one effect each unless it is zero |
| EffectPayout.DigestDecodes | sdk/verify.ts:1550-1558 | the digested bytes decode to precisely the amounts that were summed |
| EffectPayout.SlicesDisjoint | sdk/verify.ts:1357-1362 | in formats 2 and 3 outcomes own disjoint effects |
| EffectPayout.PaidIsCovered | sdk/verify.ts:1539-1547 | distinct winners are paid exactly the effects their slices cover |
| EffectPayout.Conservation | sdk/verify.ts:1512-1558 | a draw pays at most the sum of all effects, and exactly that when everyone wins |
| EffectPayout.WinnersAndLosers | sdk/verify.ts:1512-1558 | what winners and losers are due adds up to the whole table |
| EffectPayout.SharedEffectsPayTwice | sdk/verify.ts:1358 | format 1 lets outcomes share an effect, so conservation rests on its single winner: two selections, which no draw of it can make, would exceed the table |
| OutcomeDraw.DrawConserves | sdk/verify.ts:1494-1558 | whatever the formula selects on a format 1, 2 or 3 artifact pays at most the table, and exactly the table when everyone wins in format 2 or 3 |
| OutcomeDraw.SelectOutcomes | sdk/verify.ts:1475-1558 | the whole draw: winners that lead everybody else by the rule of formula 1 to 5, a conserving payout, and digested bytes that decode to the summed amounts |
| SnapshotV5.HeadRead | sdk/snapshot.ts:993-1004 | the header fields of a written header |
| SnapshotV5.ParseSdk | sdk/snapshot.ts:1024-1110 | accepts exactly the blobs meeting all checks and returns their content |
| SnapshotV5.ParseVerifier | sdk/verify.ts:1164-1257 | the verifier's parser accepts the same blobs with the same content |
| SnapshotV5.AcceptsByRules | sdk/snapshot.ts:1024-1110 | the accepted blobs by rules on their bytes |
| SnapshotV5.HeadContent | sdk/snapshot.ts:1031-1052 | which bytes each header field is read from |
| SnapshotV5.ContentByRules | sdk/snapshot.ts:1044-1103 | which bytes of an accepted blob each parsed column is read from |
| SnapshotV5.OrdersFill | sdk/verify.ts:1238-1240 | distinct orders below the count are all of them, so the last check never fires |
| SnapshotV5.AcceptedIsLayout | sdk/snapshot.ts:1024-1110 | an accepted blob is the layout of its parse, up to the four magic bytes |
| SnapshotV5.EqualParses | sdk/snapshot.ts:1028-1030 | blobs with equal parses are equal exactly when their magic bytes are |
| SnapshotV5.MagicBends | sdk/snapshot.ts:1028-1030 | every accepted blob has a different twin with the same parse |
| SnapshotV5.CheckOrders | sdk/snapshot.ts:368-377 | accepts exactly distinct orders below the count |
| SnapshotBuilder.BuildArtifactV5 | sdk/snapshot.ts:312-380 | from the raw configuration: succeeds exactly on the inputs all its checks admit, defaults filled in, and writes the layout of the sorted entries |
| SnapshotBuilder.BuildableByRules | sdk/snapshot.ts:312-380 | those checks in terms of the configuration alone, formula by formula |
| SnapshotBuilder.ParseAfterBuildV5 | sdk/snapshot.ts:981-1110 | whatever it writes is accepted and parses to the configured entries sorted by id |
| SnapshotBuilder.BuiltContentV5 | sdk/snapshot.ts:312-380 | the parse says what the configuration says, defaults included: its header, and one record for each participant in strict id order |
| SnapshotV5.ParseAfterBuild | sdk/snapshot.ts:981-1110 | what the builder writes parses to the sorted entries |
| CompositeFormat.FieldReads | sdk/composite_rank_desc.ts:346-353 | a written field specification is read back |
| CompositeFormat.FieldRebuilt | sdk/composite_rank_desc.ts:427-451 | an accepted specification is the written form of its content, up to the high bits of its key |
| CompositeFormat.ParticipantReads | sdk/composite_rank_desc.ts:355-365 | a written participant is read back, all values included |
| CompositeFormat.ParticipantRebuilt | sdk/composite_rank_desc.ts:457-490 | an accepted participant is the written form of its content |
| CompositeFormat.ReadFields | sdk/composite_rank_desc.ts:424-454 | accepts exactly distinct, well-formed keys with positive weights summing to 10^6 |
| CompositeFormat.ReadParticipants | sdk/composite_rank_desc.ts:454-490 | accepts exactly strictly sorted participants with distinct orders |
| CompositeFormat.Parse | sdk/composite_rank_desc.ts:370-507 | accepts exactly the blobs meeting all checks and returns their content |
| CompositeFormat.AcceptsByRules | sdk/composite_rank_desc.ts:370-507 | the accepted blobs by rules on their bytes |
| CompositeFormat.HeadContent | sdk/composite_rank_desc.ts:378-420 | which bytes each header field is read from |
| CompositeFormat.FieldsContent | sdk/composite_rank_desc.ts:424-451 | which bytes each field is read from |
| CompositeFormat.ParticipantsContent | sdk/composite_rank_desc.ts:457-490 | which bytes each participant is read from |
| CompositeFormat.LayoutParses | sdk/composite_rank_desc.ts:370-507 | a well-formed artifact of at most 8192 bytes parses back to itself |
| CompositeBuilder.ValidateFieldSpecs | sdk/composite_rank_desc.ts:111-142 | accepts exactly 1 to 16 well-formed distinct keys with positive weights summing to 10^6 |
| CompositeBuilder.SortedRanked | sdk/composite_rank_desc.ts:191-196 | sorting distinct participants by id gives the strict order the parser demands |
| CompositeBuilder.NormalizeParticipants | sdk/composite_rank_desc.ts:148-198 | accepts exactly distinct, valid participants with all the scoring fields and no others, and returns them sorted |
| CompositeBuilder.Build | sdk/composite_rank_desc.ts:302-368 | succeeds exactly on the configurations all its checks admit, and writes the layout of the normalised artifact |
| CompositeBuilder.BuildableByRules | sdk/composite_rank_desc.ts:302-345 | those checks in terms of the configuration alone |
| CompositeBuilder.ParseAfterBuild | sdk/composite_rank_desc.ts:302-507 | whatever it writes is accepted and parses to the fields and the participants sorted by id |
| CompositeBuilder.BuiltContent | sdk/composite_rank_desc.ts:148-368 | the parse says what the configuration says: header with defaults, fields in order, and the configured participants, nobody else, in strict id order with their own values |
| CompositeFormat.AcceptedIsLayout | sdk/composite_rank_desc.ts:370-507 | an accepted blob is the layout of its parse, up to the high bits of its magic and keys |
| CompositeFormat.EqualParses | sdk/composite_rank_desc.ts:374-443 | blobs with equal parses are equal exactly when their magic and raw key bytes are |
| CompositeFormat.KeysBend | sdk/composite_rank_desc.ts:437-444 | every accepted blob has a twin with another raw key and the same parse |
| CompositeFormat.MagicBends | sdk/composite_rank_desc.ts:374-376 | every accepted blob has a twin with another magic byte and the same parse |
| CompositeFormat.ParsedIsRankable | sdk/composite_rank_desc.ts:538-541 | the parser establishes everything the ranking results assume, and mode, weights, ids, orders and values reach the ranking as parsed |
| CompositeFormat.ReplayBlob | sdk/composite_rank_desc.ts:538-580 | from the bytes on: succeeds exactly on accepted blobs, and ranks their participants by score |

## Left out

- RPC, Anchor, PDA derivation, wallets, transactions, file and JSON plumbing: input, output and foreign calls.
- SHA-256, base58, Groth16 and the circom circuits: abstract or unseen.
- `isPrime`, the random primality test of the prover: an arbitrary predicate, since the certificate makes it unnecessary.
- The quotients `quo` and the limb formatting of the circuit witness (keeper.js:38-40 and 78): formatting.
- Formats 4, 6, 7 (sdk/snapshot.ts:823-979) and the byte format of express slips (sdk/conditions.ts:122-171): codecs of the
  same kind as the ones modelled; the express parser also ignores trailing bytes, so only parse-after-build could hold.
- `canonicalSnapshotLine`: a snapshot line is an arbitrary string of bytes ending in a newline.
- The regular expressions that classify log lines and the five event decoders (sdk/verify.ts:281-289 and 427-686): a log is a
  list of classified lines.
- The randomness expansion of later rounds (sdk/snapshot.ts:1136-1147): an arbitrary function of the round.
- The Rust counterparts of the codecs, draws and scores (programs/outcome/src/math): the SDK versions are modelled.
- Threshold helpers of sdk/sortition.ts, the deck, widget and landing pages, admin handlers: small or user interface.
- Keeper.WesolowskiProof: bit operations are written as arithmetic, and so they are in all modules (`& 1` as `% 2`, `>> 1` as `/ 2`, `| 1` as rounding up to odd).
