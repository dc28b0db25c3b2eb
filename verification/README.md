# InSo validator: a verified model

This project models the core of the InSo validator node in Dafny and proves what its components
guarantee, alone and together. `dafny verify dfyconfig.toml` checks everything.

The node receives L2 blocks from a sequencer over two routes (P2P announcements and an RPC
catch-up loop), stores them in sequence, verifies each against a hash chain of state roots, attests
to the accepted ones, and counts attestations weighted by stake and reputation to decide finality.
Beside that pipeline it keeps a staking ledger and a reputation (XP) ledger, and it talks to its
peers in length-prefixed frames.

| file | component |
|---|---|
| `Types.dfy`, `BigEndian.dfy`, `Preimages.dfy` | integers, bytes, blocks; big-endian encodings; what each hash preimage determines |
| `Verification.dfy` | `VerifyBlock`, the state-root chain, compute receipts |
| `Sync.dfy` | `processBlock`, the RPC catch-up loop |
| `Reputation.dfy`, `Staking.dfy`, `FloorDrop.dfy` | the two ledgers, and the recurrence behind decay and slashing |
| `Consensus.dfy`, `WeightSum.dfy` | registration, attestation, finality; sums over sets |
| `Pipeline.dfy`, `Schedules.dfy`, `Histories.dfy` | the node that `main.go` wires together, over all interleavings |
| `EndToEnd.dfy` | that node's objects run over whole schedules and asked for finality |
| `Framing.dfy` | the frame codec over a byte stream |

Components whose methods update fields are classes; every method is tied to a function of the old
state, and the theorems are about those functions and about all runs built from them.

## Conventions

- `float64` and `big.Float` are exact reals. Nothing is claimed about IEEE rounding.
- 64-bit counters wrap; amounts of stake (`big.Int`) are unbounded.
- SHA-256, Keccak, signing, key recovery and hex decoding are function parameters. No hash is assumed
  injective: where collisions matter, a hypothesis speaks only of the preimages hashed in the runs
  that are compared.
- Storing a block (under the sync engine's lock), running the callback, and answering a verification
  query are atomic steps. Each goroutine has at most one callback pending.
- Go maps are walked in an arbitrary order: the loops pick any remaining key.

## Findings

Four things that one might expect of the node are false of the code. Each is proved with a concrete
run or value, together with the exact condition under which the expectation does hold.

1. A block 0 that arrives after block 1 resets `latestBlock`, and from then on the node stores nothing
   ever again (`Sync.StuckIff`, `Sync.StuckForever`). The RPC client can produce such a block itself: a
   JSON `null` result decodes to a block with number 0, and one such answer to the first fetch of a
   catch-up tick leaves the engine stuck for good (`Sync.NullAnswerSticks`). A tick reaches the remote
   height exactly when there is nothing to reach, or the first block 0 did not come after a block 1 and
   every fetch yields the block asked for (`Sync.TickReachesRemoteIff`).
2. If the two goroutines store blocks 1 and 2 and the second callback runs first, block 2 of an honest
   chain is rejected, and it is never attested afterwards (`Schedules.RaceLosesAttestation`). A
   verification query between the storing of a block and its callback does the same
   (`Schedules.QueryLosesAttestation`). In general an honest block k is attested exactly when its
   callback runs while the verification calls so far, those of queries included, have counted up to
   k - 1 (`Histories.AttestedIffInTurn`).
3. `IsFinalized` counts an attestor as often as it is listed: a validator with half of the power
   finalizes alone by attesting twice (`Consensus.DoubleAttestationFinalizes`). The listed power is the
   power of the set of attestors exactly when nobody with power is listed twice
   (`Consensus.ListedPowerIsSetPowerIff`). The answer is that of the set, whatever the powers of the
   active validators, exactly when none of them is listed twice or all of them are listed
   (`Consensus.AnswersForSetIff`). The pipeline guarantees the former for the node's own attestations;
   `AttestBlock` by itself does not.
4. The state-root preimage does not mark the boundary between timestamp and gas
   (`Preimages.RootPreimageClash`). Chains are bound by their final root when byte widths agree.

## Model

| member | source | states |
|---|---|---|
| Pipeline.EveryInterleaving | cmd/validator/main.go:127-151 | In every interleaving of the two sync goroutines and any verification queries: the stored blocks are the disjoint union of delivered and pending ones, no height is delivered twice, each height carries at most one attestation, made by this node for the hash of the block stored there, the attested heights are exactly those whose callback was accepted by VerifyBlock, and the local BlocksAttested equals their number without wrapping |
| Pipeline.Start | cmd/validator/main.go:76-114 | Start-up exits exactly when the minimum stake is negative as a signed 64-bit integer; otherwise it wires one reputation manager into consensus, stakes and registers the local validator alone, with the score of a fresh record, and leaves the node in its start state |
| Pipeline.StartupWeights | cmd/validator/main.go:101-114 | The active power is then the local validator's alone, positive exactly if the minimum stake is; on a record of age 0 it is 1.19 times the minimum stake |
| Pipeline.Validator.Store | internal/sync/engine.go:204-227 | The locked half of processBlock is the store step of the goroutine |
| Pipeline.Validator.Callback | cmd/validator/main.go:127-151 | The callback is the second step: a rejected block leaves consensus and reputation alone, an accepted one is attested under its decoded hash |
| Pipeline.Validator.Query | internal/rpc/server.go:158-169 | inso_verifyBlock answers what VerifyBlock answers for the stored block on the state root of that moment, valid exactly if it is accepted there, and may move the state root; it touches nothing else |
| Schedules.SequentialDeliversInOrder | internal/sync/engine.go:204-248 | Without interleaving and without a block 0 the callback sees exactly 1, 2, ..., latestBlock |
| Schedules.AcceptedIffPredecessorsWere | internal/verification/engine.go:51-86 | Over all interleavings of honest deliveries: a delivered block is accepted exactly when its number is one more than the number of blocks accepted before it, and the state root is the chain's root at that count |
| Schedules.AllAcceptedIffInSequence | cmd/validator/main.go:127-151 | So every delivered block is attested exactly when callbacks ran in the order 1, 2, 3, ... |
| Schedules.AcceptedIffOnPredecessorRoot | internal/rpc/server.go:158-169 | With queries in between, a delivered honest block is accepted exactly when its callback ran on its predecessor's root |
| Schedules.SequentialAttestsAll | cmd/validator/main.go:127-151 | Uninterleaved honest deliveries and any queries leave every stored height accepted and attested exactly once, and the state root at the root of the chain |
| Schedules.RaceLosesAttestation | internal/sync/engine.go:225-247 | After the store/callback race, block 2 of an honest chain stays stored and is never attested, whatever follows |
| Schedules.QueryLosesAttestation | internal/rpc/server.go:158-169 | After a query between the storing of block 1 and its callback, block 1 is never attested, whatever follows |
| Schedules.FinalIffAttestedWithQuorum | internal/consensus/engine.go:192-226 | In every reachable state, for all non-negative powers of the active validators, a height is final exactly when this node attested it and alone holds more than two thirds of the active power |
| Histories.RootIsChainOfHistory | internal/verification/engine.go:51-86 | In every interleaving, with blocks from anyone, the state root is the hash chain over the blocks that callbacks and queries accepted, in that order |
| Histories.SameRootIffSameHistory | internal/verification/engine.go:88-99 | Two nodes on any two schedules that have accepted equally many blocks have the same state root exactly when those blocks agree in number, timestamp and gas at every position, given equal byte widths and no collision between the preimages at one position |
| Histories.RootHeight | internal/rpc/server.go:158-169 | In every interleaving of honest deliveries and any queries the state root is the chain's root at the height counted greedily over the calls of callbacks and queries together |
| Histories.AttestedIffInTurn | cmd/validator/main.go:127-151 | A height of an honest chain is attested exactly when its callback ran while that count was one less |
| Histories.QueryValidIffNext | internal/rpc/server.go:158-169 | After any honest schedule a query for a stored block k answers valid exactly when the calls so far have counted up to k - 1, and then returns the chain's root at k |
| Histories.XPCountsAttestations | internal/consensus/engine.go:152-176 | In every interleaving the local XP is the number of attestations on record times the grant, capped |
| EndToEnd.Drive | cmd/validator/main.go:127-151 | The node's objects, taking any schedule of store, callback and query steps, end in the state that the schedule determines |
| EndToEnd.FinalAfterSteps | cmd/validator/main.go:90-151 | A started node, after any schedule, reports final exactly the heights it attested, provided that the minimum stake is positive; it does not start when the minimum is negative as a signed integer |
| EndToEnd.QueryAfterSteps | internal/rpc/server.go:158-169 | A started node, after any honest schedule, answers a verification query with nothing for a block that it does not hold, and otherwise with valid exactly when the block is next |
| EndToEnd.SequentialNodeFinalizes | cmd/validator/main.go:90-151 | End to end: a started node, run without interleaving on an honest chain with any queries, reports final exactly the heights 1 to latestBlock |
| EndToEnd.RacedNodeNeverFinalizes | cmd/validator/main.go:127-151 | A started node that went through the race holds block 2 and does not report it final, whatever follows |
| Sync.Engine.StoreBlock | internal/sync/engine.go:204-227 | A block is stored exactly if its number is new and is 0, 1 or the wrapping successor of latestBlock; otherwise nothing changes |
| Sync.Engine.SyncFromRPC | internal/sync/engine.go:179-200 | One tick of the catch-up loop, with failing fetches and blocks stored by the other goroutine between its steps, terminates and has processed exactly the blocks handed in before the first failed fetch |
| Sync.TickStopsAtFirstFailure | internal/sync/engine.go:192-199 | With m the first number whose fetch fails (or the one past the remote height), a tick processes exactly the interference and the fetched block of each number before m, and the interference at m: nothing later matters |
| Sync.ReachableShape | internal/sync/engine.go:204-227 | Over any sequence of processBlock calls the stored numbers other than 0 are exactly 1..h, each block sits under its own number, and latestBlock is h, or 0 once a block 0 is stored |
| Sync.StoredForever | internal/sync/engine.go:207-211 | No later call replaces or drops a stored block |
| Sync.StuckIff | internal/sync/engine.go:213-226 | latestBlock has been reset below stored blocks exactly when the first block 0 handed in comes after a block 1 |
| Sync.StuckForever | internal/sync/engine.go:213-226 | In that state no block whatever is stored any more |
| Sync.LatestIsHeight | internal/sync/engine.go:204-227 | Otherwise latestBlock is the height of the store and never decreases |
| Sync.CatchUp | internal/sync/engine.go:179-248 | From a store that holds a prefix of the chain and nothing else, with honest interference and possibly failing fetches, a tick leaves such a store, no shorter, that reaches every height up to which all fetches succeeded |
| Sync.TickReachesRemoteIff | internal/sync/engine.go:179-200 | From any reachable store, whatever the fetches yield, an undisturbed tick reaches the remote height exactly when it is not above latestBlock, or no first block 0 came after a block 1 and every fetch yields the block asked for; the remote height is below 2^64 - 1 |
| Sync.NullAnswerSticks | internal/sync/engine.go:193-226 | If the first answer of a tick is a block 0 and blocks are stored, the engine is stuck from then on: no later block and no later tick changes it |
| Sync.RunsForeverIff | internal/sync/engine.go:192-199 | The loop never ends exactly when the remote height is 2^64 - 1 and no fetch fails |
| Verification.Engine.constructor | internal/verification/engine.go:31-43 | The genesis root is the hash of the 16 ASCII bytes of the genesis tag followed by 0xA4 0x55, the minimal bytes of 42069 |
| Verification.Engine.VerifyBlock | internal/verification/engine.go:51-86 | Block 0 and mismatching claims are rejected with their errors and leave the root; an absent or matching claim advances it to the hash of the bytes laid out as number, previous root, timestamp, gas |
| Verification.Engine.ComputeExpectedStateRoot | internal/verification/engine.go:90-99 | The digest is that of the byte string that holds, position by position, the minimal number, the 32 bytes of the previous root, the minimal timestamp and the minimal gas |
| Verification.RunIsChainOfAccepted | internal/verification/engine.go:51-86 | After any sequence of VerifyBlock calls the root is the hash chain over exactly the accepted blocks |
| Verification.ChainBinding | internal/verification/engine.go:88-99 | Two chains of equal length with equal number and timestamp widths end in the same root exactly when they start in the same root and agree in number, timestamp and gas at every height, unless preimages at one height collide |
| Verification.ClaimedRootBindsHistory | internal/verification/engine.go:51-86 | For arbitrary calls on two verifiers: equal root claims on the last accepted blocks force equal starting roots and equal executions throughout |
| Verification.ComputeReceiptHash | internal/verification/features.go:177-191 | The receipt digest is that of the 244-byte preimage |
| Verification.VerifyComputeReceipt | internal/verification/features.go:136-174 | A receipt is valid exactly if it was fetched, its hash string matches the recomputed one and the sequencer marks it verified; each failure has its own error |
| Verification.ReceiptHashBindsFields | internal/verification/features.go:152-173 | Two receipts that verify under one hash string agree in every decoded field, unless their preimages collide |
| Preimages.AttestationPreimageBijective | internal/consensus/engine.go:256-262 | The parser recovers number, hash and validator from an attestation preimage, and accepts nothing but preimages |
| Preimages.AttestationPreimageInjective | internal/consensus/engine.go:256-262 | Equal attestation preimages come from equal number, hash and validator |
| Preimages.AttestationLayout | internal/consensus/engine.go:256-262 | The attestation preimage is the one byte string of the minimal number, 32 bytes of hash and 20 bytes of address |
| Preimages.RootPreimageUnambiguous | internal/verification/engine.go:90-99 | Equal state-root preimages come from equal fields exactly when number widths and timestamp widths agree |
| Preimages.RootLayout | internal/verification/engine.go:90-99 | The preimage is the one byte string with those fields at those positions |
| Preimages.RootPreimageClash | internal/verification/engine.go:90-99 | Two different (timestamp, gas) pairs with one preimage |
| Preimages.ReceiptPreimageBijective | internal/verification/features.go:177-191 | Receipt fields, negative transaction indexes included, and 244-byte strings correspond one to one |
| Preimages.ReceiptLayout | internal/verification/features.go:177-191 | The receipt preimage is the one 244-byte string that holds the eleven fields at their offsets, integers big-endian and the index in two's complement |
| Preimages.HexSpelled | internal/verification/engine.go:66-72 | The hex string that roots are compared in: "0x" and then the high and the low digit of every byte in lower case |
| BigEndian.MinimalIsCanonical | internal/verification/features.go:301-306 | A byte string is the minimal encoding of its value exactly when it has no leading zero |
| BigEndian.ValueOfJoined | internal/verification/features.go:301-306 | Big-endian: appending k bytes multiplies the value of what stands before them by 256^k |
| BigEndian.Uint64ToBytes | internal/verification/features.go:301-306 | Copying the minimal bytes into the tail of a zeroed buffer gives the 8-byte big-endian form, whose value is the argument |
| Consensus.Engine.RegisterValidator | internal/consensus/engine.go:108-149 | Two times 10^18 times the power is stake times (2 + score), the score being what the reputation record earns now, or 0 without a record; the entry is replaced, no other changes, and score and tier go on the record |
| Consensus.Engine.AttestBlock | internal/consensus/engine.go:152-189 | Appends this node's signed attestation, whatever the log holds at that height, and credits the local reputation record |
| Consensus.Engine.IsFinalized | internal/consensus/engine.go:192-226 | The two accumulation loops, in any order of the map, decide whether the listed power exceeds two thirds of the active power, false without attestations or power |
| Consensus.Engine.VerifyAttestation | internal/consensus/engine.go:277-304 | For any attestation: verified exactly if a 65-byte signature recovers, from the hash of the bytes laid out as number, hash and validator, to its validator, and that one is registered; unknown if only the last fails; invalid otherwise |
| Consensus.LocalAttestationSigns | internal/consensus/engine.go:152-165 | The attestation names block, hash and this node and signs the hash of exactly those bytes in that order |
| Consensus.SignedAttestationVerifies | internal/consensus/engine.go:265-304 | If recovery undoes the signing of a node, what that node signs verifies here as soon as it is registered, and is from an unknown validator before |
| Consensus.SignatureBindsVote | internal/consensus/engine.go:256-304 | This node's signature, put under an attestation in its name, is accepted exactly with the number and hash it was made for, provided it recovers to this node from one digest alone and the two preimages do not collide |
| Consensus.ListedPowerIsSetPowerIff | internal/consensus/engine.go:211-215 | The listed power is at least the power of the set of attestors, and equal exactly when nobody with power is listed twice |
| Consensus.FinalizedIsQuorum | internal/consensus/engine.go:196-221 | Without double listing, finality is total > 0 and 3 times the attestors' power > 2 times the total |
| Consensus.InactiveDoNotCount | internal/consensus/engine.go:204-215 | Inactive validators and their attestations can be left out without changing the answer |
| Consensus.AnswersForSetIff | internal/consensus/engine.go:196-221 | For a set of active validators and a list: the answer is that of the set of attestors for all non-negative powers exactly when no active validator is listed twice or all of them are listed |
| Consensus.DoubleAttestationFinalizes | internal/consensus/engine.go:152-221 | On an engine with two registered validators of equal power, one attestation of this node is not final and a second one of the same block is, although the set of attestors holds half of the power |
| Consensus.AttestedPowerPermutes | internal/consensus/engine.go:211-221 | Finality is the same for every permutation of the attestation list |
| Consensus.FinalityIsMonotone | internal/consensus/engine.go:196-221 | With non-negative weights, appending attestations never undoes finality |
| Consensus.QuorumIntersection | internal/consensus/engine.go:192-221 | Two finalizing lists under the same weights share attestors with more than a third of the total power |
| Consensus.ConflictIsAccountable | internal/consensus/engine.go:192-221 | Two engines with equal active weights that finalize different hashes have validators with more than a third of the power that attested to both |
| Consensus.RegistrationsWellWeighted | internal/consensus/engine.go:112-139 | After any registrations with non-negative stake, taste and age, with reputation records of any history of fewer than 2^64 attested and missed blocks, every score lies in [0, 1] and two times 10^18 times every power is stake times (2 + score) |
| Consensus.RegisterMatchesEngine | internal/consensus/engine.go:112-139 | Registration on values, which those runs are made of, is what the engine does with a record that has the XP and the uptime of the history |
| Consensus.RawStakeBounds | internal/consensus/engine.go:112-221 | Whatever the scores, finalizing attestors hold more than 4/7 of the active raw stake, and attestors with more than 3/4 of it finalize |
| Consensus.TwoValidatorThreshold | internal/consensus/engine.go:128-221 | For two validators with any stakes x, y and scores s, t: the first finalizes alone exactly when x (2 + s) > 2 y (2 + t) |
| Consensus.RawStakeBoundsTight | internal/consensus/engine.go:112-221 | Both constants are exact for two validators with scores 1 and 0, and 0 and 1 |
| Reputation.Manager.RecordAttestation | internal/reputation/manager.go:88-100 | One more attested block, and the whole grant or what the cap leaves room for; nothing else changes, and an unknown address changes nothing |
| Reputation.Manager.RecordMissedBlock | internal/reputation/manager.go:103-114 | One more missed block and a refreshed uptime |
| Reputation.Manager.RecordSlash | internal/reputation/manager.go:117-128 | One more slash, and XP less the whole penalty, or 0 if there is less |
| Reputation.Manager.RecordUptimeCheck | internal/reputation/manager.go:131-142 | The whole bonus or what the cap leaves room for, and nothing else |
| Reputation.Manager.ApplyDecay | internal/reputation/manager.go:221-233 | Every record decays exactly once, for any walk over the map, by the whole part of its share, or to 0 at a rate above 1; nothing else changes |
| Reputation.Manager.ComputeSovereignty | internal/reputation/manager.go:147-193 | Returns and records the score and the tier, whose thresholds are 0.15, 0.40, 0.65 and 0.85; an unknown address gets (0, 0) and changes nothing |
| Reputation.ScoreInUnitInterval | internal/reputation/manager.go:156-176 | With non-negative taste and age the score lies in [0, 1] |
| Reputation.ScoreOrder | internal/reputation/manager.go:156-176 | With no factor lower, score and tier are no lower, and the score is the same exactly when every factor that differs was at its cap |
| Reputation.ScoreIsLinear | internal/reputation/manager.go:156-176 | Between any two points below the caps the score differs by 0.4, 0.3, 0.2 and 0.1 times the differences of XP, uptime, age and taste in units of their ranges |
| Reputation.ScoreLandmarks | internal/reputation/manager.go:144-193 | The score is 1 exactly with every factor at its cap; at the other landmarks each factor alone is worth its weight, and the start-up score of 0.38 is tier 1 |
| Reputation.GrantCapsIffItFits | internal/reputation/manager.go:237-241 | A grant caps instead of wrapping, for every XP up to the cap, exactly when cap plus grant is below 2^64 |
| Reputation.XPBounded | internal/reputation/manager.go:88-142 | Over all histories XP stays at or below the cap, and, if no grant wraps, at or below the sum of the grants |
| Reputation.XPOfGrants | internal/reputation/manager.go:88-142 | A history of attestations, misses and uptime checks ends with exactly the sum of its grants, capped |
| Reputation.XPAtLeast | internal/reputation/manager.go:88-142 | In histories with slashes and without decay, XP is at least the capped sum of the grants less the sum of the penalties |
| Reputation.XPIsLevel | internal/reputation/manager.go:237-262 | A history without decay that meets neither the cap nor 0 ends with exactly its grants less its penalties |
| Reputation.HistoriesKeepOrder | internal/reputation/manager.go:221-262 | Two records that live through the same operations keep their XP order and their gap never grows |
| Reputation.DecayLimit | internal/reputation/manager.go:221-233 | Repeated decay is strict above the largest XP whose share is below one, reaches it within xp - limit steps and stays |
| Reputation.ReciprocalDecayLimit | internal/reputation/manager.go:221-233 | At rate 1/d that limit is d - 1 |
| Reputation.DefaultDecayLimit | internal/reputation/manager.go:23-31 | With the default rate decay stops at exactly 199 XP |
| Reputation.UptimeNeverOverstates | internal/reputation/manager.go:88-114 | While the counters fit, the reported uptime fits 0..10000, never exceeds floor(10000 attested / (attested + missed)), and equals it right after a miss |
| Reputation.UptimeInRange | internal/reputation/manager.go:264-271 | Over all histories of fewer than 2^64 attested and missed blocks the reported uptime fits 0..10000, even where the scaled counter wraps |
| Staking.Manager.constructor | internal/staking/manager.go:41-53 | The minimum stake is 10^18 units per INSO and the ledger is empty |
| Staking.Manager.Register | internal/staking/manager.go:56-81 | Below the minimum or already registered: an error and no change; else a new active stake |
| Staking.Manager.Delegate | internal/staking/manager.go:84-109 | To an unknown or inactive validator: an error and no change; else the delegation is recorded and added to the stake |
| Staking.Manager.Slash | internal/staking/manager.go:112-144 | Takes the share truncated toward zero, for any sign, counts the slash, deactivates below the minimum and never reactivates |
| Staking.Manager.TotalStaked | internal/staking/manager.go:154-165 | The total equals the sum over any listing of the active validators, whatever the order of the walk |
| Staking.Manager.ActiveValidators | internal/staking/manager.go:168-179 | Returns each active stake exactly once and nothing else |
| Staking.StakeConserved | internal/staking/manager.go:55-144 | In every reachable ledger a validator's amount is what it registered plus the delegations on record minus everything slashed |
| Staking.TotalIsSumOfBalances | internal/staking/manager.go:154-179 | So the total staked is the sum of those balances over the active validators |
| Staking.RegisteredIff | internal/staking/manager.go:56-81 | Over all runs an address has a stake exactly if some operation registered it with at least the minimum |
| Staking.DelegationsOnRecord | internal/staking/manager.go:84-109 | Over all runs the delegations on record are exactly those made while the validator was active, with their delegators and amounts, in order |
| Staking.ActiveAreFunded | internal/staking/manager.go:154-179 | In admissible runs the active validators are exactly those that hold at least the minimum |
| Staking.ActivationInvariant | internal/staking/manager.go:55-144 | Over all runs with non-negative delegations and percentages in [0, 100]: active exactly while the amount reaches the minimum, and amounts are never negative |
| Staking.DelegateKeepsSoundIff | internal/staking/manager.go:84-101 | An accepted delegation of any sign keeps that invariant exactly when it leaves the stake at or above the minimum |
| Staking.NegativeDelegationBreaksSound | internal/staking/manager.go:84-101 | A delegation of -1 leaves an active validator below the minimum |
| Staking.DeactivationIsPermanent | internal/staking/manager.go:64-66 | Whatever operations follow, a deactivated validator stays registered, inactive and without new delegations |
| Staking.SlashIsDrop | internal/staking/manager.go:121-128 | For percentages in [0, 100] a slash takes between nothing and everything |
| Staking.SlashedStakeIsGeometric | internal/staking/manager.go:121-134 | After k slashes at fraction q the stake lies in [A(1-q)^k, A(1-q)^k + 1/q), for active and deactivated validators alike |
| Staking.EventuallyDeactivatedIff | internal/staking/manager.go:121-134 | Repeating one slash deactivates a validator sooner or later exactly when that share of the minimum stake is at least one unit |
| Framing.Writer.WriteFrame | internal/p2p/network.go:423-435 | Sends the 32-bit length of the payload and the payload, as far as the link carries them, and reports whether it carried them whole |
| Framing.Reader.ReadFrame | internal/p2p/network.go:438-458 | The payload that the four big-endian length bytes announce, at most 10485760 bytes of it, or the error: end of stream, cut frame, or too large |
| Framing.Reader.ReadLoop | internal/p2p/network.go:350-365 | Hands on every frame up to the first error, and that error |
| Framing.RoundTrip | internal/p2p/network.go:420-458 | Reading back any list of payloads of at most 10 MiB returns exactly that list and then the end of the stream |
| Framing.FrameOnWire | internal/p2p/network.go:423-435 | A frame is four length bytes, most significant first and wrapped at 2^32, then the payload |
| Framing.FrameReadBackIff | internal/p2p/network.go:423-458 | A payload is read back exactly when it is at most 10485760 bytes; above that it is refused, and from 2^32 bytes on its length wraps |
| Framing.OversizeStops | internal/p2p/network.go:447-450 | An oversize frame stops the reader after exactly the frames before it |
| Framing.CutStream | internal/p2p/network.go:438-458 | A stream cut after n bytes yields exactly the payloads whose frames had arrived whole |
| Framing.CutStreamError | internal/p2p/network.go:438-458 | The error is the end of the stream if the cut is between frames or between a length and its payload, and an unexpected end otherwise |
| Framing.ReadingIsPrinting | internal/p2p/network.go:438-458 | Whatever bytes arrive, the frames read are valid payloads whose encoding is a prefix of those bytes |
| Framing.SendAndReceive | internal/p2p/network.go:339-458 | Over a link that fails anywhere, the reader gets exactly the payloads that the sender was told it had sent |

## Left out

- Sync.Engine.SyncFromRPC: requires remoteLatest below 2^64 - 1, because with the maximum the 64-bit loop condition never fails and the source loops forever unless a fetch fails (Sync.RunsForeverIff).
- Framing.Writer.Write: a link that fails stays failed. A write deadline that expires in the middle of a frame on a connection that then recovers is not modelled.
- Reputation.Manager.ApplyDecay: requires a non-negative rate, since converting a negative or huge float to uint64 is implementation-defined in Go.
- Reputation.Manager.ComputeSovereignty: takes the days since joining as a parameter and requires a positive XP cap, without which the source divides by zero.
- Consensus.Engine.AttestBlock: neither the broadcast of the signature nor the timestamp is modelled; a signing error is an empty signature.
- Pipeline.Start: takes the age of the fresh reputation record as a parameter, and leaves out keys, the P2P network and the RPC server.
- Pipeline.Validator.Callback: the adaptive-bounds check is left out; its verdict is only logged.
- Pipeline.Validator.Query: the unlocked race on the state root between a query and a callback is not modelled; each is one step.
- Stake and reputation records are values in the managers' maps; changes through the pointers that GetStake and Validators return are not modelled.
- The P2P message channel, which drops when full and is drained by sync and consensus alike: announcements are arbitrary deliveries here, and progress rests on the RPC loop alone.
- The consensus handlers for received attestations, blocks and slash reports only log; received attestations never enter the log, so quorum statements take the attestation lists as arbitrary.
- Decoding of hex strings into hashes and addresses, JSON, HTTP, dialing, deadlines, liveness checks, metrics, configuration loading.
- VerifyAdaptiveBlock, VerifyLaneAllocation, tier names: settled by reading one branch.
- No link from staking slashes to consensus weights is claimed: the code never propagates them.
