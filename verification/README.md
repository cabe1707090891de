# A verified model of the ADIC-DAG node

ADIC-DAG is a ledger without blocks: messages form a DAG, each message points to `d + 1` parents, and p-adic feature
vectors decide how close and how diverse those parents are. This project states the node's central algorithms in Dafny
and proves what they promise: admission, F1 finality with its artifacts, refunds and checkpoints, the p-adic key
exchange, the token ledger with deposits and supply, and the resolution of conflicting governance proposals.

`dafny verify dfyconfig.toml` checks everything.

## How it is organised

| file | what it models |
|---|---|
| `Common.dfy`, `Arithmetic.dfy`, `Sums.dfy` | shared types, powers and remainders, sums over finite maps |
| `Digits.dfy`, `Ultrametric.dfy` | little-endian digit vectors, their value, valuation and balls |
| `PadicCrypto.dfy` | multiplication, exponentiation, key exchange, stream cipher, proximity encryption |
| `Dag.dfy` | the message store whose child lists mirror its parent lists |
| `KCore.dfy`, `Growth.dfy` | forward cone, k-core peeling, depth, metrics, and what survives growth of the DAG |
| `Merkle.dfy`, `Checkpoint.dfy` | Merkle roots, the hashed checkpoint stream, the chain of hashes |
| `Engine.dfy` | the finality engine over analyzer, deposits and checkpoints, and whole runs of it |
| `Admission.dfy` | score, diversity and reputation gates, and the two validation modes |
| `Ledger.dfy`, `Balance.dfy` | a plain ledger, and the cached balance manager that refines it |
| `Paging.dfy`, `PagedWalk.dfy` | the transaction history, its cursors, and walks along them |
| `Supply.dfy`, `Deposits.dfy` | genesis and emission mints, anti-spam deposits, and whole runs of both |
| `Conflicts.dfy` | the proposal comparator, conflict detection, and the resolver's two-way index |

Objects whose methods update fields are classes; each method is proved against a function of the old state, and what
the source promises is proved about that function. Every `async` method is one sequential step. Clocks, random numbers,
emission amounts, reputation tables and the outcome of the topological (F2) check are parameters.

SHA-256 and BLAKE3 are an arbitrary function `hash` into 32 bytes. Such a function always has collisions somewhere, so
binding results do not assume it injective: they require that it does not collide on the byte strings that were hashed
in the two computations compared (`CollisionFree(hash, inputs)`), a set each statement names.

Scores, margins and reputations are `real`. For the score gate this loses nothing: a failing axis costs at least one
half (`Admission.ScoreGate`), far more than any rounding of a sum of at most ten terms.

The concrete DAG of the examples has `k` = 2 and `d` = 1: two genesis messages, and messages with two parents each.
Whether the vectors they carry would be admitted is not looked at.

## What the proofs found out about the code

- `padic_exp` does not raise to the base-p value of the exponent. Each digit spends as many squarings as it has bits, a
  zero digit one; the result is the power to a mixed-width binary reading of the digits. The two readings agree on all
  exponents exactly when p = 2. Both parties still agree for every p.
- The Rust `vp_diff` pads the shorter vector with zeros, the Python simulator compares the common prefix. They agree
  exactly when the lengths are equal, the prefixes differ, or the longer vector goes on with a non-zero digit. With
  unequal lengths the strong triangle inequality fails exactly when the middle point is longer than both outer ones and
  all three read alike up to and including the first position past those.
- The score gate and the diversity gate exclude each other. A passing score puts every parent value of an axis into the
  message's ball, and then distinct balls can only come from different vector lengths. With `q >= 2`, as the parameter
  validation demands, no message whose parents' vectors reach the radius on some axis is admissible, in either mode.
- For fixed, non-negative reputations, F1 evidence other than depth never shrinks when the DAG grows. The tests stay
  passed exactly when every axis that newly joins the k-core shows enough balls; a newcomer that opens an axis alone
  loses them.
- Depth is cached by root only, and growth changes it. A verdict that rests on a remembered depth is right exactly when
  that depth and the true one lie on the same side of the minimum, or another test fails anyway. A root analysed
  before its k-core is deep enough is refused by that analyzer for good, however deep the k-core becomes.
- A refused refund ends `check_finality` after the finalised depth was raised and before the artifact is stored, and
  leaves the whole queue pending. A check succeeds exactly when no passing message has an already settled deposit, and
  finalises exactly the passing messages before the first such one. Repeated, with whatever reputations hold by then, it
  is refused again for as long as that message passes, and finalises nothing at or behind it. Messages queued ahead of
  it can still come through, since every refund changes a reputation. While nobody but the engine settles deposits, no
  F1 check is ever refused.
- `good_update`, logged as an increase, lowers every reputation above 1 + diversity / (1 + depth).
- The witness root depends on the iteration order of the artifact map. It is the same in every order exactly when all
  serialisable witnesses have the same bytes; otherwise two nodes with the same artifacts can hold checkpoints that count
  as diverging. The bytes themselves are not fixed either, since a witness holds a hash map.
- An F2 artifact fixes its depth at 3 and its reputation at zero, so with a positive reputation threshold it never
  satisfies `is_valid`; an F1 artifact always does when it is created.
- Different message lists can share a Merkle root: exactly those that fill up to the same full leaf list, a missing right
  half repeating the left one. Repeating the last of an odd number of leaves, three or more, is one way.
- `escrow` under the id of a live deposit overwrites it and loses the first lock's owner.
- A genesis allocation that fails a later check leaves the genesis supply minted.
- Proximity encryption succeeds at any distance; only decryption looks at the range. A comment says an inverted range is
  swapped, but nothing swaps it: with the minimum above the maximum no decryption succeeds.
- The governance comparator is not transitive: three proposals beat each other in a circle exactly when class and time
  are equal, two steps stay inside the band of 0.0001 and go by id, and the third crosses the band. The winner of a set is
  the same in every order exactly when one member beats all others, as in every set of two.

## Model

| member | source | states |
|---|---|---|
| Digits.FromU64 | crates/adic-types/src/features.rs:16-39 | the loop that stops early on zero and pads yields exactly the lowest `precision` base-p digits |
| Digits.CanonicalUnique | crates/adic-types/src/features.rs:16-39 | two canonical vectors of one length with one value are the same vector |
| Digits.DigitsOfValue | crates/adic-types/src/features.rs:16-39 | the digits of a number stand for its remainder modulo p^n |
| Digits.DigitsOfResidue | crates/adic-types/src/features.rs:16-39 | numbers congruent modulo p^n have the same digits |
| Ultrametric.ComputeVpDiff | crates/adic-math/src/padic.rs:39-54 | the loop returns the first index where the zero-padded digits differ, or the longer length |
| Ultrametric.VpDiffIsValuation | crates/adic-math/src/padic.rs:39-54 | p^v divides the difference of the two numbers; p^(v+1) divides it only when all digits agree |
| Ultrametric.StrongTriangleExactly | crates/adic-math/src/padic.rs:39-54 | v(x,z) >= min(v(x,y), v(y,z)) fails exactly for a middle point longer than both that reads like them through their end |
| Ultrametric.StrongTriangleNeedsLength | crates/adic-math/src/padic.rs:39-54 | a triple of that kind |
| Ultrametric.Symmetric | crates/adic-math/src/padic.rs:39-54 | the valuation of a difference is symmetric |
| Ultrametric.BallIffValuation | crates/adic-types/src/features.rs:41-43 | for equal lengths and radius within the precision, equal ball ids mean valuation at least the radius, and back |
| Ultrametric.BallExactly | crates/adic-types/src/features.rs:41-43 | for any lengths: one ball id exactly when the vectors are equally long within the radius and agree up to there |
| Ultrametric.CloseMeansSameBall | crates/adic-math/src/ball.rs:4-6 | vectors that both reach the radius and agree up to it have one ball id, whatever their lengths |
| Ultrametric.EveryPointIsACentre | crates/adic-crypto/src/ultrametric_security.rs:99-117 | every point of a ball is a centre of it, so balls of one radius partition the points |
| Ultrametric.BallsNestedOrDisjoint | crates/adic-crypto/src/ultrametric_security.rs:99-117 | balls of any two radii are nested or disjoint |
| Ultrametric.SimulatorAgrees | simulation/adic_simulator.py:34-66 | exactly when the simulator's valuation equals the node's |
| PadicCrypto.ReadBitsShifts | crates/adic-crypto/src/padic_crypto.rs:75-95 | the bit loop over one exponent digit reads the digit plus the rest shifted by its bit length |
| PadicCrypto.MixedExponentShifts | crates/adic-crypto/src/padic_crypto.rs:75-95 | E(d::ds) = d + 2^L(d) * E(ds): the exponent that is really used |
| PadicCrypto.MixedExponentIsValueExactly | crates/adic-crypto/src/padic_crypto.rs:75-95 | it is the base-p value of every canonical exponent exactly when p = 2 |
| PadicCrypto.PadicCrypto.Convolve | crates/adic-crypto/src/padic_crypto.rs:98-113 | the nested loops accumulate the product modulo p^n without leaving 64 bits |
| PadicCrypto.PadicCrypto.Normalise | crates/adic-crypto/src/padic_crypto.rs:113-126 | carrying keeps the value modulo p^n and makes every digit canonical |
| PadicCrypto.PadicCrypto.PadicMult | crates/adic-crypto/src/padic_crypto.rs:98-126 | the canonical digits of value(a) * value(b) modulo p^n |
| PadicCrypto.PadicCrypto.ExpDigit | crates/adic-crypto/src/padic_crypto.rs:78-93 | consuming one digit keeps result * power^rest modulo p^n |
| PadicCrypto.PadicCrypto.PadicExp | crates/adic-crypto/src/padic_crypto.rs:75-95 | the canonical digits of value(base)^E(exponent) modulo p^n |
| PadicCrypto.ExpOfExp | crates/adic-crypto/src/padic_crypto.rs:26-39 | exponentiating twice is exponentiating by the product of the mixed exponents |
| PadicCrypto.KeyAgreement | crates/adic-crypto/src/padic_crypto.rs:26-39 | both orders give the same digits, for all p, n, generators and keys |
| PadicCrypto.PadicKeyExchange.New | crates/adic-crypto/src/padic_crypto.rs:195-209 | generator 2 and a private key below a million, with the matching public key |
| PadicCrypto.PadicKeyExchange.ComputeSharedSecret | crates/adic-crypto/src/padic_crypto.rs:217-220 | the peer's key raised to the own private key |
| PadicCrypto.PadicCrypto.Encrypt | crates/adic-crypto/src/padic_crypto.rs:43-72 | each byte exclusive-or the key digit at its position; past the key, the low byte of the reduced big-endian word of the hash of a key prefix |
| PadicCrypto.XorBits | crates/adic-crypto/src/padic_crypto.rs:66-67 | every bit of the exclusive or is the sum of the two bits modulo 2 |
| PadicCrypto.WordsLEAt | crates/adic-crypto/src/padic_crypto.rs:129-132 | a digit is hashed as itself and seven zero bytes |
| PadicCrypto.KeysTellApart | crates/adic-crypto/src/padic_crypto.rs:43-72 | keys that differ at a position both reach never encrypt a message that long alike |
| PadicCrypto.CipherIsInvolution | crates/adic-crypto/src/padic_crypto.rs:43-72 | applying the cipher twice under one key gives the data back, for every length |
| PadicCrypto.PadicCrypto.DeriveSessionKey | crates/adic-crypto/src/padic_crypto.rs:153-182 | digit by digit: the first 32 are the bytes of the hash of secret and nonce modulo p, the rest zero |
| PadicCrypto.ExchangeMessage | crates/adic-crypto/src/padic_crypto.rs:456-507 | what one side encrypts under its session key the other decrypts, for every message and nonce |
| PadicCrypto.ProximityEncryption.EncryptWithProximity | crates/adic-crypto/src/padic_crypto.rs:365-425 | at any distance; the first bytes are combined with the bytes of the hash of both positions and their distance, modulo p |
| PadicCrypto.ProximityEncryption.DecryptWithProximity | crates/adic-crypto/src/padic_crypto.rs:384-405 | succeeds exactly when the valuation of the difference is in range |
| PadicCrypto.ProximityEncryption.ProximityRoundTrip | crates/adic-crypto/src/padic_crypto.rs:365-425 | the text comes back exactly when the distance is in range |
| Dag.AddEdgeConsistent | crates/adic-storage/src/memory.rs:112-126 | adding an edge to both lists keeps them inverse, multiplicities included |
| Dag.ConsistentMembership | crates/adic-storage/src/memory.rs:128-136 | in step, a child is listed below a parent exactly when the parent is listed above it |
| Dag.LinkAllKeeps | crates/adic-storage/src/store.rs:66-125 | linking a message below all its parents keeps the lists inverse and only appends |
| Dag.MessageStore.LinkParents | crates/adic-storage/src/store.rs:66-125 | links the message below each parent in order |
| Dag.MessageStore.StoreMessage | crates/adic-storage/src/memory.rs:53-74 | a known id is refused and nothing changes; a new message is stored and linked |
| KCore.MaximalCoreIsGreatest | crates/adic-finality/src/kcore.rs:146-199 | the peeled set is a k-core and contains every k-core of the start set |
| KCore.MaximalCoreUnique | crates/adic-finality/src/kcore.rs:146-199 | any k-core above the peeled set equals it, so the peeling order does not matter |
| KCore.DegreeCountsNeighbours | crates/adic-consensus/src/validation.rs:238-241 | with duplicate-free, acyclic parent lists the degree is the number of neighbours in the set |
| KCore.DegreeWithout | crates/adic-finality/src/kcore.rs:174-192 | removing a node lowers each degree by its occurrences among the node's parents and children |
| KCore.DecrementEach | crates/adic-finality/src/kcore.rs:174-192 | the saturating decrements never saturate |
| KCore.Detach | crates/adic-finality/src/kcore.rs:174-192 | after one removal every degree entry is again the exact neighbour count |
| KCore.KCoreAnalyzer.RemoveAll | crates/adic-finality/src/kcore.rs:174-195 | a batch of removals keeps the degree entries exact, and shrinks the set when it is not empty |
| KCore.KCoreAnalyzer.ComputeKCore | crates/adic-finality/src/kcore.rs:146-199 | terminates in the unique greatest k-core of its input |
| KCore.BuildForwardCone | crates/adic-finality/src/kcore.rs:122-143 | returns exactly the root and its descendants |
| KCore.ConeMembers | crates/adic-finality/src/kcore.rs:122-143 | a node is in the cone exactly when child edges lead to it from the root |
| KCore.LabelsBoundWalks | crates/adic-finality/src/kcore.rs:226-250 | breadth-first labels that are relaxed bound every walk |
| KCore.LabelsGiveDepth | crates/adic-finality/src/kcore.rs:226-250 | the largest label is the largest shortest-path distance |
| KCore.KCoreAnalyzer.Search | crates/adic-finality/src/kcore.rs:216-255 | the queue loop finds the largest shortest-path distance into the k-core, and remembers exactly the child lists of what it reached |
| KCore.KCoreAnalyzer.ComputeDepth | crates/adic-finality/src/kcore.rs:202-258 | a cached answer comes back as it is; otherwise the depth is the true one and is cached |
| KCore.DepthUnique | crates/adic-finality/src/kcore.rs:202-258 | there is only one depth |
| KCore.KCoreAnalyzer.FetchChildren | crates/adic-finality/src/kcore.rs:229-241 | cached child lists hide the stored ones, a missing one is cached as it is now, and no answer changes |
| KCore.KCoreAnalyzer.ClearCaches | crates/adic-finality/src/kcore.rs:65-70 | empty caches match every graph |
| KCore.AddBalls | crates/adic-finality/src/kcore.rs:270-284 | one message's vectors add exactly their axes and ball ids to the index |
| KCore.BallsExactly | crates/adic-finality/src/kcore.rs:270-284 | an axis shows at least q balls exactly when the nodes carry q vectors no two of which are close at the axis's radius, or at 2 past the configured axes |
| KCore.TotalWithout | crates/adic-finality/src/kcore.rs:261-293 | the reputation sum does not depend on the iteration order |
| KCore.TotalIsLinear | crates/adic-finality/src/kcore.rs:261-293 | the reputation sum is linear in the table of reputations |
| KCore.TotalCounts | crates/adic-finality/src/kcore.rs:261-293 | a table that is one for one proposer and zero elsewhere counts that proposer's stored messages |
| KCore.KCoreAnalyzer.ComputeMetrics | crates/adic-finality/src/kcore.rs:261-293 | the reputation sum and the number of distinct balls on each axis of the core |
| KCore.KCoreAnalyzer.Analyze | crates/adic-finality/src/kcore.rs:80-119 | final exactly when size, depth, diversity and reputation pass; the figures are those of the k-core; the depth is the remembered one or else the true one in the remembered lists, and is remembered; matching caches still match |
| Growth.StoreAllGrows | crates/adic-storage/src/store.rs:66-125 | storing any run of messages only appends to the lists |
| Growth.ConeGrows | crates/adic-finality/src/kcore.rs:122-143 | the forward cone of a root only gains messages |
| Growth.CoreGrows | crates/adic-finality/src/kcore.rs:146-199 | the k-core of a root only gains messages |
| Growth.EvidenceGrows | crates/adic-finality/src/kcore.rs:80-293 | core size, each axis's ball count and, for non-negative reputations, the sum never drop |
| Growth.DiversityExactly | crates/adic-finality/src/kcore.rs:97-107 | after growth the diversity test holds exactly when every axis that newly joined shows enough balls |
| Growth.EvidenceStaysExactly | crates/adic-finality/src/kcore.rs:80-119 | passed size, diversity and reputation tests stay passed exactly under that condition |
| Growth.CoreIsStored | crates/adic-finality/src/kcore.rs:80-119 | in a valid store a non-empty k-core holds a stored message |
| Growth.EvidenceStaysPassed | crates/adic-finality/src/kcore.rs:80-119 | when all messages carry the same axes, the tests stay passed |
| Growth.StoreRun | crates/adic-storage/src/store.rs:66-125 | any run of stores of messages with the shared axes holds exactly the old and the new ids and keeps every root's passed tests passed |
| Growth.NewAxisLosesEvidence | crates/adic-finality/src/kcore.rs:80-119 | without shared axes the tests can be lost: a valid store of four messages and a newcomer that opens an axis |
| Growth.CachedDepthDecides | crates/adic-finality/src/kcore.rs:208-214 | once a depth is cached, every later verdict on that root rests on it instead of the true depth, through any growth and any other analyses |
| Merkle.LeastHeightFits | crates/adic-finality/src/checkpoint.rs:250-276 | the number of levels is the least whose perfect tree holds the leaves |
| Merkle.NextLevelSplit | crates/adic-finality/src/checkpoint.rs:257-272 | pairing an even prefix and the rest separately pairs the whole |
| Merkle.TreeOfNextLevel | crates/adic-finality/src/checkpoint.rs:257-272 | folding the leaves once removes the lowest layer of the recursive tree |
| Merkle.RootOfNextLevel | crates/adic-finality/src/checkpoint.rs:257-272 | the next level has the same root |
| Merkle.MerkleTreeBuilder.FoldLevel | crates/adic-finality/src/checkpoint.rs:257-272 | one level: neighbours joined, an odd last node with itself |
| Merkle.MerkleTreeBuilder.ComputeRoot | crates/adic-finality/src/checkpoint.rs:250-276 | the level loop equals the recursive tree; zeros for no leaves |
| Merkle.TreeBinding | crates/adic-finality/src/checkpoint.rs:250-276 | equally many leaves and one tree value mean equal leaves, if the join is injective on the pairs joined |
| Merkle.RootBinding | crates/adic-finality/src/checkpoint.rs:250-276 | equally many leaves and equal roots mean the same leaves in order, if the hashed pairs do not collide |
| Merkle.MessageRootBinding | crates/adic-finality/src/checkpoint.rs:236-276 | the same down to the message ids |
| Merkle.TreeEqualExactly | crates/adic-finality/src/checkpoint.rs:250-276 | at one height two trees are equal exactly when their full leaf lists are |
| Merkle.HeightsDiffer | crates/adic-finality/src/checkpoint.rs:250-276 | trees of different heights differ when no leaf is the join of a pair |
| Merkle.RootEqualExactly | crates/adic-finality/src/checkpoint.rs:250-276 | two roots are equal exactly when the full leaf lists are, whatever the leaf counts |
| Merkle.MessageRootExactly | crates/adic-finality/src/checkpoint.rs:236-276 | the same for message ids, where leaves hash 32 bytes and nodes 64 |
| Merkle.EmptyRootApart | crates/adic-finality/src/checkpoint.rs:250-254 | the root of no messages is no other list's root, unless something hashes to zeros |
| Merkle.FewMessages | crates/adic-finality/src/checkpoint.rs:228-276 | the roots of one, two and three messages, hash by hash |
| Merkle.RootIgnoresRepeatedLast | crates/adic-finality/src/checkpoint.rs:257-272 | one family of equal roots: the last of an odd number of leaves, three or more, repeated |
| Checkpoint.ComputeHash | crates/adic-finality/src/checkpoint.rs:92-118 | hashes height, timestamp, roots, counts, both id lists and the previous hash, in that order |
| Checkpoint.StreamExactly | crates/adic-finality/src/checkpoint.rs:92-118 | the hashed stream field by field: eight little-endian bytes a number, the lists between their counts, the previous hash last |
| Checkpoint.IdBytesAt | crates/adic-finality/src/checkpoint.rs:92-118 | the i-th id takes bytes 32 i to 32 i + 31 of its list |
| Checkpoint.DecodeEncode | crates/adic-finality/src/checkpoint.rs:92-118 | with counts equal to list lengths the stream decodes to exactly the fields it was made from |
| Checkpoint.HashPinsFields | crates/adic-finality/src/checkpoint.rs:92-118 | equal hashes mean equal hashed fields, unless the two streams collide |
| Checkpoint.DivergesExactly | crates/adic-finality/src/checkpoint.rs:163-171 | two checkpoints diverge exactly when they share the height but not both roots; equal hashes rule it out |
| Checkpoint.ChainPrefix | crates/adic-finality/src/engine.rs:966-985 | a prefix of a chain is a chain |
| Checkpoint.TipPinsChain | crates/adic-finality/src/engine.rs:936-997 | equal tip hashes: equally long chains that agree on every hashed field back to height 0 |
| Engine.FinalityEngine.constructor | crates/adic-finality/src/engine.rs:131-185 | an empty engine whose analyzer has the config's parameters |
| Engine.FinalityEngine.UpdateParams | crates/adic-finality/src/engine.rs:209-247 | new k and depth reach the config and a fresh analyzer alike; nothing else changes |
| Engine.FinalityEngine.AddMessage | crates/adic-finality/src/engine.rs:250-279 | the newest window of ids stays pending |
| Engine.FinalityEngine.StoreArtifact | crates/adic-finality/src/engine.rs:295-298 | stores a foreign artifact as it is; nothing finalised is lost |
| Engine.FinalityEngine.UpdateFinalizedDepth | crates/adic-finality/src/engine.rs:781-802 | the depth becomes the maximum of old and new |
| Engine.FinalityEngine.CreateArtifact | crates/adic-finality/src/engine.rs:678-707 | an F1 artifact satisfies `is_valid` when created and reports the k-core's size, balls and reputation sum and the depth the engine worked with |
| Engine.ArtifactValidity | crates/adic-finality/src/artifact.rs:81-86 | an artifact that reports those figures is valid exactly when its message passes F1 |
| Engine.VerdictMeans | crates/adic-finality/src/kcore.rs:80-119 | an analysis is final exactly when the evidence tests pass and the depth it uses is deep enough |
| Engine.VerdictRightExactly | crates/adic-finality/src/kcore.rs:80-258 | a verdict equals the one on the true depth exactly when both depths are on one side of the threshold or another test fails |
| Engine.FreshJudges | crates/adic-finality/src/kcore.rs:80-258 | with caches that match the DAG every verdict is right |
| Engine.SameJudgement | crates/adic-finality/src/kcore.rs:202-258 | what one check remembers on the way changes none of its verdicts |
| Engine.StaleVerdict | crates/adic-finality/src/kcore.rs:202-258 | a wrong verdict: a stored DAG, its analyzer, and one more message after which a passing root is refused |
| Engine.FinalityEngine.Settle | crates/adic-finality/src/engine.rs:429-431 | refunds a known deposit and nothing else, and fails exactly when it is already settled |
| Engine.FinalityEngine.FinalizeF1 | crates/adic-finality/src/engine.rs:413-476 | depth raised first; then, unless the refund is refused, the truthful artifact, the refund, and one more entry of the F1 order and of the log |
| Engine.FinalityEngine.Consider | crates/adic-finality/src/engine.rs:386-482 | one pending message: finalised exactly when it passes with the depth the analyzer uses and its refund is not refused; that depth raises the finalised one in both cases |
| Engine.FinalityEngine.RunF1 | crates/adic-finality/src/engine.rs:386-482 | exactly the passing messages before the first refused refund, each once and in order; artifacts with the figures of the position where each first passed; exactly their deposits refunded; the finalised depth the maximum over the attempts |
| Engine.PicksAre | crates/adic-finality/src/engine.rs:386-482 | the picked messages are those that pass at some position and were not known, without duplicates |
| Engine.FinalityEngine.FinalizeF2 | crates/adic-finality/src/engine.rs:601-675 | the F2 artifact, the minimum depth, and one more entry of the F2 buffer |
| Engine.F2ArtifactValidity | crates/adic-finality/src/engine.rs:612-640 | an F2 artifact satisfies `is_valid` exactly when the minimum depth is at most 3 and the minimum reputation at most zero |
| Engine.F2ArtifactReports | crates/adic-finality/src/engine.rs:612-640 | the check's own figures, the thresholds of the config, depth 3, and nothing about a k-core |
| Engine.FinalityEngine.RunF2 | crates/adic-finality/src/engine.rs:329-347 | exactly the reports before the first whose deposit was settled before or by an earlier report; it succeeds exactly when there is none |
| Engine.FinalityEngine.CheckFinality | crates/adic-finality/src/engine.rs:302-488 | F2 or else F1, with the exact queue, artifacts, deposits, depth, checkpoints, remembered roots and success condition of each; on an error the queue stays whole |
| Engine.IntervalKept | crates/adic-finality/src/engine.rs:916-927 | through any such run of F1 ids every new checkpoint holds exactly the configured number, and the buffer stays shorter |
| Engine.StopsBefore | crates/adic-finality/src/engine.rs:386-482 | where a passing message cannot be refunded the run is refused, and picks only from what is queued before it |
| Engine.RefusedCheck | crates/adic-finality/src/engine.rs:302-488 | a check of an engine with such a message: refused, the queue whole, and that message still stuck |
| Engine.RetryCheck | crates/adic-finality/src/engine.rs:302-488 | repeated with the reputations of each moment, a refused check is refused, keeps the queue whole and finalises nothing at or behind the stuck message, as long as that one passes |
| Engine.JudgesMonotone | crates/adic-finality/src/kcore.rs:80-119 | a passing message keeps passing when no reputation drops |
| Engine.GoodUpdateExactly | crates/adic-consensus/src/reputation.rs:168-180 | up to the cap a good update leaves gamma times the distance to the score; it does not lower a reputation exactly when that is not above the score and the cap |
| Engine.PassesAfterRefund | crates/adic-finality/src/engine.rs:438-446 | so a stuck message keeps passing after the refund of a proposer not above its score |
| Engine.ReputationMoves | crates/adic-finality/src/engine.rs:386-482 | a message ahead that passes only after the first check is finalised by the second, still refused one; a stuck one that no longer passes lets the check succeed |
| Engine.StuckExample | crates/adic-finality/src/engine.rs:302-488 | a running engine with one message that passes F1 under any non-negative reputations, whose deposit was refunded before, and any number of checks |
| Engine.FinalityEngine.MessagesRoot | crates/adic-finality/src/engine.rs:946-950 | the Merkle root of the buffered ids in order |
| Engine.FinalityEngine.WitnessesRoot | crates/adic-finality/src/engine.rs:953-959 | the Merkle root of what the witnesses were written as, in some order of the artifacts |
| Engine.WitnessRootExactly | crates/adic-finality/src/engine.rs:953-959 | every order gives one root exactly when all serialisable witnesses have the same bytes |
| Engine.TwoArtifactsTwoRoots | crates/adic-finality/src/engine.rs:953-959 | two artifacts whose witnesses were written differently: both roots and their difference |
| Engine.WitnessOrderMatters | crates/adic-finality/src/checkpoint.rs:163-171 | then a checkpoint over the same artifacts exists that counts as diverging |
| Engine.FinalityEngine.MaxKCore | crates/adic-finality/src/engine.rs:962-966 | the largest k among the artifacts, zero when there are none |
| Engine.FinalityEngine.CreateCheckpoint | crates/adic-finality/src/engine.rs:936-1006 | the next height, the hash of the last checkpoint, the buffers as lists with their root, and empty buffers after |
| Engine.FinalityEngine.TrackF1 | crates/adic-finality/src/engine.rs:916-927 | buffers the id; at the interval a checkpoint over both buffers, the artifacts of the moment and their largest k closes |
| Engine.FinalityEngine.GetCheckpoint | crates/adic-finality/src/engine.rs:1015-1018 | the search by height finds the checkpoint at that position, and nothing beyond the end |
| Engine.TipPinsOrder | crates/adic-finality/src/engine.rs:936-997 | two engines with equal latest checkpoint hashes finalised the same messages in the same order up to there |
| Engine.HandleCheck | crates/adic-finality/src/engine.rs:302-488 | where only final messages have settled deposits a check keeps that so, and its F1 branch is not refused |
| Engine.RunEngine | crates/adic-finality/src/engine.rs:209-488 | in every run, deposits made, slashed and paid for in between, the finalised set, depth and chain only grow, heights count up, and checkpoint lists plus buffer spell the F1 order, each message once; where only the engine settles deposits no F1 check is refused |
| Admission.AxisValuesAre | crates/adic-consensus/src/admissibility.rs:206-210 | the collected values are the parents' values on the axis; all parents have it exactly when none is missing |
| Admission.MinTermIsLeast | crates/adic-crypto/src/ultrametric_security.rs:217-229 | the running minimum is attained and below every parent's term |
| Admission.LeastTerm | crates/adic-consensus/src/admissibility.rs:297-337 | the inner loop computes that minimum, with no term for no parent |
| Admission.ComputeSecurityScore | crates/adic-crypto/src/ultrametric_security.rs:205-238 | the validator's loops compute the common score |
| Admission.ComputeAdmissibilityScore | crates/adic-consensus/src/admissibility.rs:263-363 | the fallback's loops compute the same score |
| Admission.TermFalls | crates/adic-consensus/src/admissibility.rs:263-300 | a parent within the radius counts one; each digit short of it divides that by p |
| Admission.ContributionExactly | crates/adic-consensus/src/admissibility.rs:263-300 | an axis the message and some parent have adds the term of the farthest parent, any other nothing |
| Admission.ContributionExtremes | crates/adic-consensus/src/admissibility.rs:263-363 | an axis adds one exactly when every parent value is in the message's ball, otherwise at most one half |
| Admission.ScoreGate | crates/adic-consensus/src/admissibility.rs:116-148 | score >= d exactly when on every axis the message and some parent have a value and all parent values are close |
| Admission.VerifyC1 | crates/adic-crypto/src/ultrametric_security.rs:24-66 | true exactly when every diagonal parent is close; otherwise the first bad axis decides the error |
| Admission.ScoreGateImpliesC1 | crates/adic-crypto/src/ultrametric_security.rs:24-66 | behind the score gate C1 holds wherever the diagonal parent exists |
| Admission.CountDistinctBalls | crates/adic-math/src/ball.rs:23-32 | the number of different ball ids |
| Admission.VerifyC2 | crates/adic-crypto/src/ultrametric_security.rs:68-96 | passes exactly when every axis is complete and has q balls; the counts up to the deciding axis, or the first missing axis |
| Admission.CheckC2 | crates/adic-consensus/src/admissibility.rs:204-229 | passes exactly when the validator's check does |
| Admission.C3Means | crates/adic-consensus/src/admissibility.rs:231-261 | no reputations count as one zero; otherwise each must reach the minimum, and the sum its own |
| Admission.CheckMessage | crates/adic-consensus/src/admissibility.rs:96-202 | one verdict for both modes; wrong parent counts are refused; admissible exactly when every axis is close and diverse, every reputation reaches the minimum and their sum its own |
| Admission.BallsCountLengths | crates/adic-math/src/ball.rs:23-32 | close values fall into as many balls as they have lengths within the radius |
| Admission.DiversityBehindScoreGate | crates/adic-consensus/src/admissibility.rs:116-148 | behind the score gate C2 holds exactly when every axis shows q different vector lengths |
| Admission.GatesExclude | crates/adic-crypto/src/security_params.rs:89-104 | with q >= 2 and vectors that reach the radius, no message is admissible |
| Admission.UnequalLengthsPassBoth | crates/adic-consensus/src/admissibility.rs:116-148 | vectors of unequal length can pass both gates: a concrete message |
| Ledger.CreditExactly | crates/adic-economics/src/balance.rs:124-178 | when a credit succeeds, its error, and every account after it |
| Ledger.DebitExactly | crates/adic-economics/src/balance.rs:180-223 | the same for a debit |
| Ledger.TransferExactly | crates/adic-economics/src/balance.rs:225-411 | the same for a transfer |
| Ledger.LockExactly | crates/adic-economics/src/balance.rs:413-452 | the same for a lock, capped at the maximal supply |
| Ledger.UnlockExactly | crates/adic-economics/src/balance.rs:454-487 | the same for an unlock of a known account |
| Ledger.MessageTransferExactly | crates/adic-economics/src/balance.rs:607-762 | a message transfer succeeds exactly under its six conditions; the first that fails names the error; both accounts after it |
| Ledger.StepAccounts | crates/adic-economics/src/balance.rs:124-223 | one attempt changes the total by what it credits or debits, and by nothing when it fails |
| Ledger.MoveConserves | crates/adic-economics/src/balance.rs:311-411 | a move between two accounts conserves the total |
| Ledger.MoveReads | crates/adic-economics/src/balance.rs:311-411 | a move changes exactly two balances by the amount |
| Ledger.RunConserves | crates/adic-economics/src/balance.rs:124-411 | over any run the total moves by what was credited and debited |
| Ledger.NoncesCountUp | crates/adic-economics/src/balance.rs:555-762 | the accepted nonces of an account count up by one without gap or repetition |
| Balance.MemoryStorage.SetBalance | crates/adic-economics/src/storage.rs:97-117 | zero balances are removed, others stored |
| Balance.MemoryStorage.SetLockedBalance | crates/adic-economics/src/storage.rs:124-147 | zero locks are removed, others stored |
| Balance.MemoryStorage.SetNonce | crates/adic-economics/src/storage.rs:154-174 | zero nonces are removed, others stored |
| Balance.MemoryStorage.RollbackTransaction | crates/adic-economics/src/storage.rs:220-244 | restores the snapshot if there is one |
| Balance.BalanceManager.ClearCache | crates/adic-economics/src/balance.rs:524-528 | the emptied cache still stands for the store exactly when nothing is stored |
| Balance.BalanceManager.GetBalance | crates/adic-economics/src/balance.rs:96-122 | returns the stored balance and leaves the cache coherent |
| Balance.BalanceManager.GetUnlockedBalance | crates/adic-economics/src/balance.rs:489-502 | stored balance minus stored lock, not below zero |
| Balance.BalanceManager.GetNonce | crates/adic-economics/src/balance.rs:555-575 | the stored nonce |
| Balance.BalanceManager.Credit | crates/adic-economics/src/balance.rs:124-178 | refines the ledger's credit, errors included |
| Balance.BalanceManager.Debit | crates/adic-economics/src/balance.rs:180-223 | refines the ledger's debit, errors included |
| Balance.BalanceManager.TransferInternal | crates/adic-economics/src/balance.rs:311-411 | all checks precede the first write |
| Balance.BalanceManager.Transfer | crates/adic-economics/src/balance.rs:225-309 | refines the ledger's transfer; a failed one changes nothing; a successful one is recorded once |
| Balance.BalanceManager.Lock | crates/adic-economics/src/balance.rs:413-452 | refines the ledger's lock, errors included |
| Balance.BalanceManager.Unlock | crates/adic-economics/src/balance.rs:454-487 | refines the ledger's unlock; an account the cache never saw is refused even for zero |
| Balance.BalanceManager.IncrementNonce | crates/adic-economics/src/balance.rs:577-605 | store and cache count the nonce up together |
| Balance.BalanceManager.ValidateTransfer | crates/adic-economics/src/balance.rs:607-658 | succeeds exactly on two different 32-byte ids, a positive covered amount and the next nonce; the first failing check decides; nothing stored changes |
| Balance.BalanceManager.ProcessMessageTransfer | crates/adic-economics/src/balance.rs:660-762 | refines the ledger's message transfer: success, error and both accounts in the fields of the store; move and nonce together or not at all |
| Balance.Replay | crates/adic-economics/src/balance.rs:96-762 | any run of operations ends where the plain ledger's run ends, cache coherent throughout |
| Paging.SortIsStable | crates/adic-economics/src/storage.rs:305-316 | newest first, a permutation, and equal timestamps keep their order |
| Paging.ListingExactly | crates/adic-economics/src/storage.rs:298-316 | an account is shown every record it sent or received, as often as recorded, and no other |
| Paging.CursorRoundTrip | crates/adic-economics/src/storage.rs:318-345 | a cursor reads back to its millisecond and hash, when the hash has no colon |
| Paging.MillisFloor | crates/adic-economics/src/storage.rs:318-345 | the millisecond is the one the timestamp falls into |
| Paging.CursorReads | crates/adic-economics/src/storage.rs:318-345 | a text that does not split in two is ignored, an unreadable time reads as zero |
| Paging.ParseShowInt | crates/adic-economics/src/storage.rs:318-345 | a printed 64-bit integer parses back to itself |
| Paging.SplitAtColon | crates/adic-economics/src/storage.rs:318-345 | two colon-free parts joined by a colon split back into themselves |
| Paging.GetPage | crates/adic-economics/src/storage.rs:298-398 | the page behind the cursor's record, at most `limit` long, with a cursor exactly when it is full |
| Balance.MemoryStorage.GetTransactionHistoryPaginated | crates/adic-economics/src/storage.rs:298-398 | the same over the stored history |
| PagedWalk.CursorFinds | crates/adic-economics/src/storage.rs:318-345 | a cursor made from a listed record leads right behind it |
| PagedWalk.GrowthKeepsPosition | crates/adic-economics/src/storage.rs:246-264 | appended records move a position but not what lies before it of the old records |
| PagedWalk.CallAdvances | crates/adic-economics/src/storage.rs:298-398 | one call emits the old records up to its new position, once and in order |
| PagedWalk.WalkIsComplete | crates/adic-economics/src/storage.rs:298-398 | following cursors while records are appended skips and repeats no old record; at the end all have come |
| PagedWalk.QuietWalk | crates/adic-economics/src/storage.rs:298-398 | over an unchanging history the pages concatenate to the whole listing |
| PagedWalk.HistoryGrows | crates/adic-economics/src/storage.rs:298-304 | an account's history grows by its own new records |
| Supply.TokenSupply.MintGenesis | crates/adic-economics/src/supply.rs:56-81 | only once, only the exact amount |
| Supply.TokenSupply.MintEmission | crates/adic-economics/src/supply.rs:83-117 | succeeds exactly within the cap; total = genesis if minted + emission issued |
| Supply.TokenSupply.CanMint | crates/adic-economics/src/supply.rs:269-276 | true exactly when the mint would succeed |
| Supply.TokenSupply.RemainingMintable | crates/adic-economics/src/supply.rs:278-281 | what is left to the cap |
| Supply.RoomMeansCredit | crates/adic-economics/src/emission.rs:110-147 | a credit the supply has room for cannot fail |
| Supply.OthersKeepTotal | crates/adic-economics/src/balance.rs:180-487 | no operation but a credit raises the total |
| Supply.EmissionController.MintAndDistribute | crates/adic-economics/src/emission.rs:110-147 | mint and credit both succeed and keep balances within the supply |
| Supply.EmissionController.ProcessEmission | crates/adic-economics/src/emission.rs:65-108 | clipped to what is left; refused only within a minute or when nothing is left; a success sets the emission time, a refusal changes nothing |
| Supply.GenesisAllocator.Allot | crates/adic-economics/src/genesis.rs:150-215 | a genesis credit within the minted supply succeeds |
| Supply.GenesisAllocator.AllocateGenesis | crates/adic-economics/src/genesis.rs:79-270 | when it succeeds and with which error not; every balance afterwards, also when it fails half-way |
| Supply.RunEconomy | crates/adic-economics/src/genesis.rs:79-219 | in every run balances <= total supply <= the cap, and accepted emissions are at least a minute apart |
| Deposits.LockNeverCapped | crates/adic-economics/src/balance.rs:413-452 | with covered locks the saturating addition is exact |
| Deposits.TransferKeepsCover | crates/adic-economics/src/balance.rs:311-411 | a transfer keeps locks covered exactly when it stays within the unlocked balance |
| Deposits.EscrowAccounts | crates/adic-consensus/src/deposit.rs:120-191 | recording a lock keeps the books exactly when it overwrites no live deposit |
| Deposits.ReleaseAccounts | crates/adic-consensus/src/deposit.rs:193-254 | releasing a deposit's lock with the deposit keeps the books |
| Deposits.DepositManager.Escrow | crates/adic-consensus/src/deposit.rs:120-191 | succeeds exactly when the lock does; the books stay balanced exactly when no live deposit is overwritten |
| Deposits.DepositManager.Refund | crates/adic-consensus/src/deposit.rs:193-254 | succeeds exactly on a live deposit and releases exactly its lock; a failure changes nothing |
| Deposits.NoKeyNoDeposit | crates/adic-economics/src/types.rs:64-99 | the treasury owns a deposit only through a public key that hashes to 32 bytes of 0xFF |
| Deposits.DepositManager.Slash | crates/adic-consensus/src/deposit.rs:256-327 | moves exactly the deposit to the treasury; exactly when it fails, and when failing would cost a lock: for a positive deposit under such a key only |
| Deposits.DepositManager.CleanupOldDeposits | crates/adic-consensus/src/deposit.rs:421-444 | forgets exactly the old settled deposits; the books stay balanced |
| Deposits.SumByProposer | crates/adic-consensus/src/deposit.rs:347-354 | grouping escrowed amounts by proposer keeps their sum |
| Deposits.DepositManager.GetTotalEscrowed | crates/adic-consensus/src/deposit.rs:347-354 | the capped sum over all deposits is exactly the sum of all locks |
| Deposits.PaymentKeeps | crates/adic-economics/src/balance.rs:225-309 | a payment within the unlocked balance keeps every lock and the total |
| Deposits.RunDeposits | crates/adic-consensus/src/deposit.rs:115-444 | every run ends where its events lead the plain ledger and deposits; each lock is the sum of the account's escrowed deposits, the total is constant, and no settled deposit changes, if no key hashes to the treasury |
| Conflicts.PriorityRules | crates/adic-governance/src/conflict_resolution.rs:244-259 | constitutional beats operational, then the older, then the clearly better vote; a vote share lies between 0 and 1 |
| Conflicts.WinnerExactly | crates/adic-governance/src/conflict_resolution.rs:232-285 | which of two proposals wins, told from classes, times, tallies and ids |
| Conflicts.BytesLexicographic | crates/adic-governance/src/conflict_resolution.rs:94-95 | ids compare by their first different byte |
| Conflicts.CompareAntisymmetric | crates/adic-governance/src/conflict_resolution.rs:66-95 | the comparison is total and antisymmetric, and ties only on equal ids |
| Conflicts.CircleExactly | crates/adic-governance/src/conflict_resolution.rs:66-95 | three scores beat each other in a circle exactly when two steps go by id inside the band and the third crosses it |
| Conflicts.TransitiveExactly | crates/adic-governance/src/conflict_resolution.rs:66-95 | winning is transitive between different ids exactly outside such circles |
| Conflicts.CompareTransitive | crates/adic-governance/src/conflict_resolution.rs:66-95 | in particular where margins are equal or more than 0.0001 apart |
| Conflicts.BandMakesCycle | crates/adic-governance/src/conflict_resolution.rs:83-92 | three scores of that kind |
| Conflicts.BeatingAllWins | crates/adic-governance/src/conflict_resolution.rs:263-268 | a member that beats every other wins, whatever the margins and the order |
| Conflicts.OrderIrrelevantExactly | crates/adic-governance/src/conflict_resolution.rs:263-268 | the winner is the same in every order exactly when one member beats all others |
| Conflicts.WinnerLosesToNone | crates/adic-governance/src/conflict_resolution.rs:263-268 | among separated margins the sorted first loses to nobody |
| Conflicts.WinnerIgnoresOrder | crates/adic-governance/src/conflict_resolution.rs:263-268 | separated scores in any order have one winner |
| Conflicts.PairWinnerIgnoresOrder | crates/adic-governance/src/conflict_resolution.rs:263-268 | the winner of two never depends on their order |
| Conflicts.PairConflictSymmetric | crates/adic-governance/src/conflict_resolution.rs:195-223 | the conflict test does not depend on the order of the pair |
| Conflicts.PairConflictExactly | crates/adic-governance/src/conflict_resolution.rs:195-223 | a shared parameter, else one axis, else enactments less than 100 epochs apart |
| Conflicts.PairKeyPinsMembers | crates/adic-governance/src/conflict_resolution.rs:406-416 | the bytes hashed into a conflict id determine the unordered pair |
| Conflicts.ActiveStep | crates/adic-governance/src/conflict_resolution.rs:129-142 | exactly the succeeded and the enacting proposals take part, in the order they came |
| Conflicts.RowsMembers | crates/adic-governance/src/conflict_resolution.rs:143-186 | detection yields exactly the conflicting pairs of active proposals |
| Conflicts.RegisterKeeps | crates/adic-governance/src/conflict_resolution.rs:149-174 | registering a pair, even again, keeps conflicts and index inverse when its id is not taken by another pair |
| Conflicts.ConflictResolver.DetectConflicts | crates/adic-governance/src/conflict_resolution.rs:129-192 | registers those pairs as pending over what was known; the index stays inverse |
| Conflicts.ConflictResolver.ResolveConflictSet | crates/adic-governance/src/conflict_resolution.rs:232-285 | the better member wins; unknown set, or a missing proposal that leaves the set resolving |
| Conflicts.ConflictResolver.RemoveConflict | crates/adic-governance/src/conflict_resolution.rs:394-404 | the set and every index entry for it go, and nothing else |

## Left out

- Engine.RunEngine: stops at an event for which the 64-bit counters have no room, because the code would overflow there; its deposits are made once per message, and no key that is used hashes to the treasury's address.
- Conflicts.WinnerLosesToNone: speaks of a stable insertion sort; on lists of three or more with a circle the library sort of the source may order differently or panic. Detection only makes sets of two.
- Conflicts.WinnerExactly: assumes tallies that are not negative, as weighted votes are.
- Engine.RetryCheck: the checks follow one another directly; nothing arrives, is stored or is deposited in between, only the reputations differ.
- Growth.EvidenceStaysPassed: speaks of size, diversity and reputation; nothing is claimed about the depth test under growth.
- PadicCrypto.ExchangeMessage: assumes a prime between 2 and 256 and at least one digit, because digits are bytes and the key must not be empty.
- Deposits.RunDeposits: each message id is escrowed at most once, and no key hashes to the treasury's address, because otherwise the books can break as Escrow and Slash state.
- Balance.Replay: does not include clear_cache, because the invariant survives it only over an empty store, as Balance.BalanceManager.ClearCache states.
- Balance.BalanceManager.ProcessMessageTransfer: a nonce of 2^64 - 1 has no successor here, because the code's addition overflows there.
- Supply.RunEconomy: burning and the genesis vesting releases are not among its events.
- PadicCrypto.PadicHash: for prime 256 and precision 8 the code's modulus leaves 64 bits; the model takes the exact power.
- Locks and scheduling: every method is one step. In the source `track_f1_finalized` holds the write guard of the buffer that `create_checkpoint` asks for.
- Persistent homology: the F2 verdict is an input; only its artifacts and buffer are modelled.
- Signatures, attestations, threshold keys, ball keys and membership proofs: only hashes are modelled, as an arbitrary function.
- Mixed primes: comparing vectors over different primes panics in the source; here vectors of one deployment share the prime.
- Network, disk and RocksDB storage, metrics, logs, event callbacks, timing statistics.
- Deposit managers without a balance manager, statistics and listings of deposits.
- Emission rates, reputation penalties and decay, and energy drift: floating-point or clock-driven; amounts and reputation tables are inputs. Of the updates only `good_update` is modelled, over the reals and for one value.
- Genesis percentages: the three shares are inputs, the checks on their sum are modelled.
- Convergence metrics of conflict sets, vote tallying, treasury multisig and challenge windows.
