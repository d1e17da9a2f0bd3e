# A verified model of the TARON node and pool

TARON is a proof-of-work chain with an account ledger. A node validates blocks, retargets the
difficulty every ten blocks, stores blocks and difficulty snapshots in a key/value database, undoes
tips when a longer chain appears, and downloads history in chunks. A pool splits block rewards over
the shares of its miners. This project models those parts in Dafny and proves what they promise.

The central idea is `History`: what a list of blocks means by itself. From the list alone it defines
the difficulty in force, the balance and sequence of every account in unbounded arithmetic, and which
block may follow. Everything a node computes step by step (cached difficulty, snapshots, ledger,
undo, recovery) is proved to agree with that one reference, over whole runs.

| files | content |
|---|---|
| `Primitives`, `Bits`, `Types` | machine integers with their overflow, bitwise arithmetic, blocks, transactions, constants |
| `Difficulty`, `Sequal`, `Encoding`, `Network` | target test, SEQUAL-256, byte encodings, and the test network as an instance, up to who can spend |
| `KnownAnswers` | hashes and encodings at literal words and bytes |
| `History` | the reference meaning of a list of blocks |
| `LedgerModel`, `LedgerLaws`, `Ledger` | ledger operations as values, their laws, and the ledger object |
| `ChainModel`, `ChainLaws`, `LiveRules`, `Blockchain` | chain store and operations as values, invariants, what strict apply accepts, and the blockchain object |
| `Runs`, `Rebuild`, `Crash` | whole runs, the other ways to rebuild a ledger, stopping between database writes |
| `ForkPoint`, `Sync`, `Residue`, `TipRace`, `Node` | fork search, batches and reorganisation, what a late refusal leads to, replacing the tip, the message handlers |
| `Pool`, `Dedup`, `Finality` | payouts, duplicate detection, acknowledgement quorums |
| `Counterexamples` | concrete inputs, with 32-byte keys and hashes, where chain, synchronisation and pool fall short of their documentation |

Code that updates state in place is modelled by classes and loops (`Ledger`, `Blockchain`, `Syncer`,
`MiningThread`, `Round`, `TachyonGuard`, `FinalityTracker`). Each method is proved against a function
on values, and the laws are proved about those functions.

## Reading the statements

- Hashes and signatures are arbitrary functions, collected in `Env` with the premine key, the genesis
  hash and the checkpoint table; results hold for all of them. `Network.TestnetEnv` is the real
  instance, up to SHA3-256 (section 6.1 of FIPS 202), Ed25519 (section 5.1 of RFC 8032) and the
  literal checkpoint hashes. The clock is a parameter. Keys, hashes and signatures are byte strings;
  where encodings are undone they have the source's widths (`SizedHeader`, `SizedTx`).
- Arithmetic is that of a release build: `u64` wraps where the code uses `+`, saturates where it
  says so. `MAX_HEIGHT` (over 10^12 blocks) is where premine plus rewards reaches 2^64 - 1; below it
  no balance can overflow, and that is proved, not assumed.
- `Consistent` is the invariant of a chain, `Synced` adds that the ledger is the one its own blocks
  produce, `SyncedWithCounts` adds sequence numbers.
- A *late rejection* is a block refused at a transaction, after its reward was already credited. The
  code does not undo that credit, so ledger results exclude it. `LiveDecides`, `LiveAcceptsExactly`
  and `IbdAcceptsValid` decide from the ledger and the block alone which blocks are rejected late,
  `LateRejectionSupply` says exactly what they leave behind and when that is harmless. Chain results
  include late rejections.

## Where the code differs from its documentation

- "Validate all transactions before applying any (atomic)" (`blockchain.rs:290`) covers signatures
  only. `RejectedBlockPays` is a rejected block whose miner keeps the reward; `LiveAcceptsExactly` and
  `IbdAcceptsValid` say exactly which blocks it happens to, `RejectionResidue` what stays.
- Nor does a rejection during download end the matter: the handler takes our own tip for a fork point
  and applies the refused batch again, now with the refused reward in the ledger. It can so adopt an
  invalid block: `RefusedBlockIsAdopted`. `ForwardBatch` decides the second pass, `ForwardSingle` and
  `ForwardRefusedLate` say exactly what it adopts, `ForwardHeaderBroken` when it does no harm.
- Undo after a late rejection can take more from an account than it holds, and then creates coins:
  `UndoAfterLateRejection` says exactly when, `SaturationCreates` how many.
- `rebuild_from_chain` is described as replaying the chain, but replays rewards only: `RebuildGap`,
  with a payment and a fee it forgets in `RebuildForgetsPayments`.
- A node that reverts blocks keeps empty account entries. They are visible to exactly one rule: a
  transaction that costs nothing. `LiveDependsOnView`, `DetourIsVisible` and `StrictReplayCanFail` show
  it; download has no such rule, so replay by download reproduces every run.
- The backward walk in `find_fork_point` is described as finding ancestors before the batch. It never
  finds one that the first scan missed: `FindForkPoint`.
- Nor does `find_fork_point` return the last common ancestor when a batch repeats blocks we have. It
  does exactly if the first block of the batch is new to us: `LastCommonAncestor`. The depth of a
  reorganisation counts from its answer, so in `FirstParentIsNotLast` a node refuses a fork one
  block deep, and above height 10 it refuses every answer to the request it sends to resolve a fork:
  `ForkAnswerIsRefused`.
- The duplicate detector promises 180 seconds; 120,000 ms are guaranteed and 120,001 are not:
  `RecentKeysAreRefused`, `WindowIsNotLonger`. Nor is there an upper end, since a call rotates once at
  most: after a silence of any length the next call still refuses (`SilenceForgetsNothing`). Its keys
  separate the shares of one worker, not of two: `KeysSeparateShares`, and any two workers share one in
  `WorkersShareKey`.
- A reorganisation does not restore the old chain when the competing batch turns out invalid half-way:
  `ReorgKeepsOnlyValidPart`, and a node that ends lower than before in `ReorgCanEndLower`.
- The undo of a downloaded transaction can decrement a counter that is already zero, which saturates:
  `CounterCanSaturate`. `CountersSurviveUndo` says exactly when; balances never saturate.
- The snapshot written at a boundary is meant to make its revert exact. After a crash between the
  writes it can be missing or left over from an abandoned fork, and the revert is then wrong:
  `SnapshotDecidesRevert`, `CrashThenRevert`, `LostSnapshotSpoilsRevert`, `StaleSnapshotSpoilsRevert`.
- A passed checkpoint binds the guarded revert only. A run never goes below one exactly if its bare
  reverts start above it: `CheckpointsHoldExactly`, `CheckpointTipIsReverted`. The handler of competing
  blocks uses the bare revert, so a checkpointed tip can fall there: `CheckpointTipCanFall`,
  `CheckpointTipFalls`.
- After a failed tip replacement the original tip is applied again under live rules, which gives it
  back only while it is recent: `FailedReplacement`, `RecentTipComesBack`.
- The pool numbers payouts from a sequence it fetched earlier, or from zero if that failed. With any
  value but the current one the whole block is rejected late: `PoolBlockPaysItsMiners`,
  `StalePayoutLosesBlock`.
- An f+1 quorum always contains a peer that is not faulty, but two quorums need not meet:
  `QuorumsCanBeDisjoint`.
- The README of the repository describes a maximum supply and halving; the code pays a constant reward.

## Model

| member | source | states |
|---|---|---|
| Runs.RunEqualsReplay | crates/taron-core/src/blockchain.rs:160-224 | After any run of applies, rejections and reverts without late rejections, every balance, the supply and the difficulty are those of a new node that downloads the blocks now stored; so is every sequence if downloaded blocks were consecutive and no counter wrapped |
| Runs.RunStaysConsistent | crates/taron-core/src/blockchain.rs:160-381 | Over every run, late rejections included, the store holds exactly one linked history with its own difficulty, stored difficulty and snapshots |
| Runs.StoredBlocksSound | crates/taron-core/src/block.rs:106-135 | In a consistent chain exactly the blocks 0..height are stored, from the genesis block on; each links to its predecessor, carries its own header hash, the canonical reward and only well-signed transactions, and meets the difficulty in force for its own prefix |
| LiveRules.BlockRules | crates/taron-core/src/block.rs:106-135 | Before the ledger is touched a block is accepted in download exactly if it has the next index, our tip as parent, a reward of 15,850,000, its own header hash, the difficulty of the stored blocks, good signatures and the first listed hash if its height is listed; live exactly if it is also within 120,000 ms of the clock |
| Runs.RunStaysSynced | crates/taron-core/src/ledger.rs:149-276 | Over every run without late rejections the ledger holds exactly the net balances of the stored blocks |
| Runs.RunKeepsCounts | crates/taron-core/src/ledger.rs:241-254 | Over such runs every sequence is the number of transactions the account has sent in the stored blocks |
| Runs.ReplayAcceptsValid | crates/taron-core/src/blockchain.rs:329-381 | A new node downloading a list of blocks ends on exactly that list if and only if the list is a valid history |
| Runs.LiveBuildEqualsReplay | crates/taron-core/src/blockchain.rs:272-381 | A chain built without reverts, live or by download, is reproduced by download in every field of chain, snapshots and ledger |
| Runs.RunConservesSupply | crates/taron-core/src/ledger.rs:283-286 | Total supply is premine plus reward times height minus all fees of the stored blocks, and stays below 2^64 - 1 |
| Runs.LateRejectionSupply | crates/taron-core/src/blockchain.rs:299-308 | A block rejected at a transaction leaves reward and earlier transactions in the ledger; the node stays synced if and only if these cancel out for every account |
| Runs.CheckpointsAreFinal | crates/taron-core/src/blockchain.rs:200-224 | Once the height has reached a checkpoint, no run of applies, guarded reverts, and bare reverts that start above the last passed checkpoint changes a block at or below it |
| Runs.CheckpointsHoldExactly | crates/taron-core/src/blockchain.rs:160-224 | Over any run, no step ends below the checkpoint passed where it started if and only if each bare revert starts at genesis or strictly above that checkpoint |
| Runs.CheckpointHashesHold | crates/taron-core/src/blockchain.rs:273-278 | Every listed height the chain has reached holds a block with the hash listed first for it |
| Runs.BareRevertIgnoresCheckpoints | crates/taron-core/src/blockchain.rs:160-195 | `revert_tip` stays at or above the last passed checkpoint if and only if the tip lies above it or is genesis; at a checkpoint tip the guarded revert refuses and changes nothing |
| Counterexamples.CheckpointTipIsReverted | crates/taron-core/src/blockchain.rs:160-215 | With the first block as checkpoint and tip, the guarded revert to genesis changes nothing and the bare one ends on genesis |
| ChainLaws.IbdAcceptsValid | crates/taron-core/src/blockchain.rs:329-381 | A synced node accepts in download exactly the valid continuations of its history, and is synced with the block appended; it rejects late exactly the blocks with a right header whose transactions are not all funded |
| LiveRules.LiveDecides | crates/taron-core/src/blockchain.rs:272-325 | On any ledger, synced or not, strict apply accepts exactly the blocks with a right header, on time, whose transactions are covered and in order on that ledger; with right header and clock it is otherwise rejected late, at the first transaction that breaks a rule |
| LiveRules.LiveAcceptsExactly | crates/taron-core/src/blockchain.rs:272-325 | For every block, strict apply on a synced node accepts exactly the valid continuations that are on time and whose transactions count on from their senders' sequences modulo 2^64 and are paid for or come from an existing entry; it rejects late exactly if header and clock are right but a transaction rule fails, and stops at the first that does |
| LiveRules.LiveAcceptsOrdinary | crates/taron-core/src/ledger.rs:149-198 | On a node that kept its counts, a block whose transactions cost something and are not numbered 0 is accepted live exactly if it is a valid, timely continuation with consecutive sequences |
| ChainLaws.LiveRefinesIbd | crates/taron-core/src/blockchain.rs:272-325 | Whatever strict apply accepts, download apply accepts on the same state with the identical chain and ledger |
| ChainLaws.RejectionResidue | crates/taron-core/src/blockchain.rs:285-308 | A rejection never changes the chain; early it changes nothing, late it leaves exactly reward and the transactions before the failing one |
| ChainLaws.RevertTipSynced | crates/taron-core/src/blockchain.rs:160-195 | Reverting the tip of a synced node gives the synced node of the history without its last block, difficulty and snapshots included |
| ChainLaws.TruncateConsistent | crates/taron-core/src/blockchain.rs:182-192 | Reverting a boundary restores the difficulty of the shorter history from its snapshot; the branch without snapshot is never taken |
| ChainLaws.AppendDifficulty | crates/taron-core/src/blockchain.rs:316-322 | Retargeting incrementally at a boundary equals retargeting the whole history |
| ChainLaws.RevertToHeightCuts | crates/taron-core/src/blockchain.rs:200-224 | A deep revert refuses unchanged below the last checkpoint, else ends exactly at a target up to the tip with that prefix of the history |
| LedgerLaws.TransferEffect | crates/taron-core/src/ledger.rs:149-198 | An accepted transaction moves amount and cost, burns the fee, touches one sequence, and leaves its hash with both parties and nobody else; no sum saturates or wraps |
| LedgerLaws.TxDecides | crates/taron-core/src/ledger.rs:149-239 | Which transactions fail and with which error. Live: balance and cost if the sender has no entry or too little, else the expected and the given sequence if they differ. In download: balance and cost if it has too little, nothing else. All others apply, and the sender continues at their sequence |
| LedgerLaws.CoinbaseEffect | crates/taron-core/src/ledger.rs:266-276 | A reward changes one balance, no sequence, the supply by its amount, and marks the miner with the reward hash and nobody else |
| LedgerLaws.RevertInvertsApply | crates/taron-core/src/ledger.rs:241-254 | Undo after apply restores every balance and the supply; the sequences are restored exactly when the transaction's sequence, decremented, is the sender's old one, and the hash of the undone transaction stays with both parties |
| Runs.RunUndoIsSafe | crates/taron-core/src/blockchain.rs:160-175 | At every point of every run without late rejections, and after any number of undo steps of the tip, the recipient of the transaction undone next still holds the amount and its refund does not wrap, at the end the miner still holds the reward, and the sender's sequence is above zero if the run kept its sequences |
| ChainLaws.UndoIsSafe | crates/taron-core/src/ledger.rs:243-260 | In the undo of any synced node's tip no balance saturates or wraps at any step, transactions and reward, self-transfers included |
| LedgerLaws.CountersSurviveUndo | crates/taron-core/src/ledger.rs:251-253 | No decrement of a sequence in the undo of a block meets zero if and only if every sender's sequence is at least the number of its transactions in the block |
| LedgerLaws.RevertTxsTrack | crates/taron-core/src/blockchain.rs:166-172 | Undoing a block's transactions in reverse walks back through exactly the states they were applied in |
| LedgerLaws.IbdTxsTrack | crates/taron-core/src/blockchain.rs:357-371 | Applying a block's transactions stops exactly where the history no longer funds them |
| LedgerLaws.TxsCount | crates/taron-core/src/ledger.rs:170-177 | Live validation accepts only consecutive sequences unless a counter wraps to zero, and consecutive ones keep the counts |
| History.AvailableNonNegative | crates/taron-core/src/ledger.rs:162-168 | In a funded history no account is overdrawn at any point of any block |
| History.DifficultyMoves | crates/taron-core/src/blockchain.rs:483-530 | Difficulty changes only at boundaries, by at most two bits |
| History.AdjustStepExactly | crates/taron-core/src/blockchain.rs:512-530 | For every difficulty from 1 to 30 and every window the step is that of the table in milliseconds; it rises exactly below 300,000 ms unless at 30 and falls exactly above unless at 1 |
| History.BoundaryRetargets | crates/taron-core/src/blockchain.rs:483-510 | The difficulty of a history is 14 up to the first boundary, and at each boundary follows that table from the timestamps at the two ends of the window; between boundaries it stays |
| ChainLaws.AppliedDifficulty | crates/taron-core/src/blockchain.rs:316-322 | What applying a block leaves as difficulty, in memory and in the database: that of the table for the two timestamps at a boundary, the old one elsewhere |
| History.NothingSpent | crates/taron-core/src/ledger.rs:149-198 | An account that sends nothing after some block never falls below what it had there |
| History.SlowerIsNotHarder | crates/taron-core/src/blockchain.rs:512-530 | A longer non-empty window never yields a higher difficulty |
| Rebuild.RebuildGap | crates/taron-core/src/ledger.rs:104-114 | The rebuilt ledger is the live one plus spent minus received per account; balances agree everywhere if and only if all stored payments cancel out, never once a fee was burned |
| Rebuild.LiveDependsOnView | crates/taron-core/src/ledger.rs:153-177 | On ledgers with equal balance and sequence of the sender, live validation agrees exactly unless the transaction is free, next in sequence, and only one ledger has an entry |
| Rebuild.DetourIsVisible | crates/taron-core/src/ledger.rs:137-160 | A mined and reverted block changes no balance, sequence or block, yet makes a free transfer acceptable live that the untouched node rejects late |
| Counterexamples.StrictReplayCanFail | crates/taron-core/src/ledger.rs:153-160 | Concrete blocks for which a fresh node behaves so |
| Counterexamples.RejectedBlockPays | crates/taron-core/src/blockchain.rs:290-308 | A fresh node rejects a block for an uncovered payment, keeps its chain, and still credits the miner with the reward |
| Counterexamples.RebuildForgetsPayments | crates/taron-core/src/ledger.rs:104-114 | After one stored payment of 5 with fee 1 the rebuilt ledger still shows the whole premine and one unit more supply than the live one |
| Counterexamples.CounterCanSaturate | crates/taron-core/src/ledger.rs:251-253 | A new node downloads a payment numbered 0, is synced, and its undo decrements a sequence that is zero |
| Crash.CrashDuringApply | crates/taron-core/src/blockchain.rs:310-322 | Stopped after any number of the writes of applying a block and reopened, the node is at the old or new height with that linked history and its canonical difficulty, whatever difficulty was stored |
| Crash.CrashesKeepBlocks | crates/taron-core/src/blockchain.rs:401-431 | Over any run of applies and crashes, with any ledger before each step, the chain stays sound and keeps every block it had |
| Crash.LifeStaysLinked | crates/taron-core/src/blockchain.rs:160-195 | Over any mix of applies, crashes, reverts and restarts the blocks stay one linked history if no block is applied while the difficulty is off, and the chain is sound if and only if it is not off: since the last boundary reverted to a wrong difficulty a restart came, or the revert of another boundary that restored the right one |
| Crash.RestartRepairs | crates/taron-core/src/blockchain.rs:399-429 | Reopening a chain whose blocks are linked makes it sound whatever its difficulty was, and keeps every block |
| Crash.GenesisRevertRepairs | crates/taron-core/src/blockchain.rs:217-221 | A deep revert to genesis leaves a sound chain with difficulty 14 in memory and in the database, whatever difficulty and snapshots it started from |
| Crash.RecomputeIsCanonical | crates/taron-core/src/blockchain.rs:532-552 | Recomputing from boundary timestamps gives the difficulty of the stored history |
| Crash.RecomputeStopsAtGap | crates/taron-core/src/blockchain.rs:540-548 | If a boundary block is missing, the recomputation ends with the difficulty of the blocks below it |
| Crash.IncrementalEqualsRecomputed | crates/taron-core/src/blockchain.rs:409-424 | In every consistent chain the kept difficulty equals the recomputed one, and reopening changes nothing |
| Crash.WritesAreApply | crates/taron-core/src/blockchain.rs:310-322 | The ordered list of writes produces exactly the database of the applied block |
| Crash.SnapshotDecidesRevert | crates/taron-core/src/blockchain.rs:182-192 | Reverting the tip of any sound chain gives a sound chain if and only if the tip is no boundary, or its stored snapshot is the difficulty before it, or it has none and is the first boundary or the window shifted by one block undoes the last step |
| Crash.CrashThenRevert | crates/taron-core/src/blockchain.rs:310-322 | After a crash at any point of applying a block the reopened node is sound and its next revert is sound too, except between height and snapshot: there exactly if the entry found beforehand, missing or stale, satisfies that condition |
| Counterexamples.LostSnapshotSpoilsRevert | crates/taron-core/src/blockchain.rs:187-190 | A node at height 19 that has no snapshot for 20 crashes there, reopens sound, and reverts to a wrong difficulty |
| Counterexamples.StaleSnapshotSpoilsRevert | crates/taron-core/src/blockchain.rs:184-186 | A node that reached 20 on one fork and 19 on a slower one crashes at 20, reopens sound, and its revert restores 15 bits of the abandoned fork where 12 are right |
| ForkPoint.FindForkPoint | crates/taron-core/src/blockchain.rs:226-268 | The search returns the parent height of the first attaching block; the backward walk adds nothing |
| ForkPoint.ForkPointFirst | crates/taron-core/src/blockchain.rs:233-242 | The result is the parent height of an attaching block with only non-attaching blocks before it |
| ForkPoint.ForkPointHooks | crates/taron-core/src/blockchain.rs:228-242 | The answer is 0 for a genesis block or the stored parent of a block of the batch, the first for which there is either; there is no answer exactly if there is none |
| ForkPoint.ForkPointIsFirstParent | crates/taron-core/src/blockchain.rs:228-268 | On a linked batch above genesis without hash collisions, if any block attaches the answer is the parent of the first block |
| ForkPoint.LastCommonAncestor | crates/taron-core/src/blockchain.rs:226-242 | On such a batch the last common ancestor lies above the answer by the number of repeated blocks at its head; the answer is the last common ancestor if and only if the first block is not stored |
| Counterexamples.FirstParentIsNotLast | crates/taron-core/src/blockchain.rs:226-242 | A node at 12 that shares eleven blocks with a peer at 13 gets 0 for the fork point of the peer's blocks and refuses them, while it adopts the last two sent alone |
| Sync.CompetingBatch | crates/taron-node/src/node.rs:1387-1428 | A batch that competes from below our tip is handled by cutting there and applying it if it is longer, above the checkpoint and within the depth limit counted from its first parent, and changes nothing otherwise |
| Sync.ValidBatchDecided | crates/taron-node/src/node.rs:1387-1428 | A valid competing batch is adopted whole if it is higher than our tip, starts at or above the passed checkpoint, and reaches more than five blocks above us or forks at most ten below; otherwise it changes nothing |
| Sync.StrangerBatch | crates/taron-node/src/node.rs:1433-1474 | A batch from at or below our tip that attaches nowhere is ignored unless it reaches more than ten blocks above us; then a node below height 200 goes back to genesis, a higher one to its checkpoint below the tip if the peer is more than 300 ahead, never below a passed checkpoint |
| Sync.MaxIndexIs | crates/taron-node/src/node.rs:1346 | The height a batch reaches is its greatest index |
| Sync.AboveForkCuts | crates/taron-node/src/node.rs:1403-1420 | Of a numbered batch exactly the blocks above the fork point are applied again, in order |
| Sync.RequestsAre | crates/taron-node/src/node.rs:1499-1507 | There is a next request exactly if the peer is ahead; it starts after our tip, holds at most 25 blocks and ends at the announced height |
| Sync.ForkAnswerIsRefused | crates/taron-node/src/node.rs:1141-1149 | Above height 10 any linked answer to the request that follows a block of the next height on another parent leaves the node unchanged, however shallow or deep the fork is, hash collisions apart |
| Sync.ForkAnswerIsAdopted | crates/taron-node/src/node.rs:1141-1149 | Up to height 10 a valid answer is adopted whole unless a checkpoint was passed, in which case nothing changes |
| Sync.ReorgAdoptsBatch | crates/taron-node/src/node.rs:1343-1428 | A longer valid competing batch above the passed checkpoint that reaches more than five blocks above our tip, from any depth, or forks at most ten below it, is adopted exactly: prefix plus batch, higher than before, with balances and difficulty of a node that never saw the old fork |
| Sync.ReorgKeepsOnlyValidPart | crates/taron-node/src/node.rs:1400-1428 | If the competing batch is valid only up to some block, the node ends on the prefix and that part, even if lower than before; its ledger is synced if the next block breaks a header rule, and otherwise also holds that block's reward and the transactions before its first unfunded one |
| Counterexamples.ReorgCanEndLower | crates/taron-node/src/node.rs:1400-1428 | A node at height 2 that receives three blocks from genesis on, the second overdrawn, ends at height 1 with two rewards credited to the miner of the one block it kept |
| Sync.OrdinaryReorgIsShallow | crates/taron-node/src/node.rs:1387-1394 | A batch that reaches at most five blocks above our tip never changes a block ten or more below it, whatever it holds |
| Sync.DepthIsExact | crates/taron-node/src/node.rs:1388 | On a consistent chain the fork point is never above the tip, so the unsigned depth subtraction never wraps |
| Sync.AnyBatchIsSafe | crates/taron-node/src/node.rs:1287-1482 | Any batch leaves the chain consistent and every block up to the last passed checkpoint unchanged, through download, reorganisation and both recovery rollbacks |
| Sync.BatchAdoptsValid | crates/taron-node/src/node.rs:1320-1342 | The first loop of the handler takes a whole batch on a synced node if and only if the batch continues its history validly, and leaves the node synced on it; what the handler does after a refusal is in the next rows |
| Sync.ForwardBatch | crates/taron-node/src/node.rs:1343-1428 | A batch that continues our tip and is refused at some block is undone down to our old tip, as far as depth and checkpoint allow, and applied again from the start, rolled back to a checkpoint if none of more than fifty blocks applied, or left where it was refused |
| Sync.ForwardHeaderBroken | crates/taron-node/src/node.rs:1343-1428 | If the first bad block of such a batch breaks a header rule the node ends synced, on the good part or on the checkpoint it rolls back to |
| Residue.ForwardRefusedLate | crates/taron-node/src/node.rs:1343-1428 | If the first bad block is refused late and the way back is exact, the second pass ends on the longest part of the batch that the history funds together with the refused reward and payments, so an invalid batch is adopted whole if and only if they fund all of it; the ledger keeps the residue |
| Residue.ForwardSingle | crates/taron-node/src/node.rs:1343-1428 | A single block that continues our tip is adopted by the handler if and only if its header is right and its transactions are funded by the history, or by the history together with its own refused reward and payments |
| Counterexamples.RefusedBlockIsAdopted | crates/taron-node/src/node.rs:1400-1414 | A fresh node refuses a block whose miner spends 20,000,000 and then adopts it on two rewards, although its history is not valid |
| Residue.IbdDecides | crates/taron-core/src/blockchain.rs:329-381 | On any ledger, synced or not, download accepts exactly the blocks with a right header whose transactions that ledger covers, and refuses late, at the first uncovered transaction, exactly those with a right header that it does not cover |
| Residue.RevertDownOver | crates/taron-core/src/blockchain.rs:160-224 | Over a ledger with a residue, no subtraction saturates on the way down to a height if and only if history and residue together leave every recipient its amount and every miner its reward at each step; the same residue then remains |
| Residue.UndoAfterLateRejection | crates/taron-core/src/blockchain.rs:160-175 | After a late rejection the undo of the tip is exact if and only if that holds for the tip |
| Residue.SaturationCreates | crates/taron-core/src/ledger.rs:243-254 | A subtraction of the undo that saturates raises the supply by exactly what the recipient lacked |
| Residue.GenerousResidue | crates/taron-core/src/blockchain.rs:160-175 | A residue that takes from no account, such as a bare reward, never disturbs the undo of a funded history |
| Sync.ChunkAdvances | crates/taron-node/src/node.rs:1499-1507 | One request and answer moves a node exactly one chunk along a valid peer chain |
| TipRace.ReplacementWins | crates/taron-node/src/node.rs:1150-1170 | A block that beats the tip is accepted on the parent if and only if it is a valid continuation there, on time and in order; the node is then synced on it |
| TipRace.OnlyBetterBlocksRace | crates/taron-node/src/node.rs:1150-1170 | The node is unchanged unless the rival has our height above genesis, a numerically lower hash, its own header hash under the difficulty in force, our parent block, the right reward and a time within 120,000 ms |
| TipRace.BetterBlocksRace | crates/taron-node/src/node.rs:1150-1170 | Among blocks that satisfy all the other conditions, exactly those with a numerically lower hash are tried |
| TipRace.LessIsNumeric | crates/taron-node/src/node.rs:1153 | For hashes of one width the byte-wise order is that of the numbers they spell |
| TipRace.FailedReplacement | crates/taron-node/src/node.rs:1207-1211 | After a failed replacement the old tip is back if and only if it is within the tolerance of the clock and its transactions are covered and in order on the ledger the attempt left; else the node is one block lower; after an early refusal the node is fully restored |
| TipRace.RecentTipComesBack | crates/taron-node/src/node.rs:1207-1211 | For a node that kept its counts and a tip of ordinary transactions, an attempt refused early costs the tip exactly if the tip is older than the tolerance |
| TipRace.CheckpointTipCanFall | crates/taron-node/src/node.rs:1159-1211 | A checkpointed tip is given up for any block that beats it although that block is always refused, and comes back if and only if it is recent and in order |
| Counterexamples.CheckpointTipFalls | crates/taron-node/src/node.rs:1159-1211 | A rival block that arrives 200 seconds after a checkpointed tip leaves the node on genesis |
| NodeObject.Syncer.OnCompetingBlock | crates/taron-node/src/node.rs:1150-1213 | The checks, the revert and the two applications in place compute the replacement |
| NodeObject.Syncer.OnBlocks | crates/taron-node/src/node.rs:1287-1524 | The handler does what the batch function says and asks for the next range exactly after progress while the peer is ahead |
| NodeObject.Syncer.Download | crates/taron-node/src/node.rs:1239-1285 | Alternating requests and answers terminate after exactly the rounded-up number of 25-block chunks, with our blocks equal to the peer's up to the announced height |
| BlockchainObject.Blockchain.ApplyBlock | crates/taron-core/src/blockchain.rs:272-325 | The loops and database writes of strict apply compute the applied node, and write nothing on rejection |
| BlockchainObject.Blockchain.ApplyBlockIbd | crates/taron-core/src/blockchain.rs:329-381 | The same for download apply |
| BlockchainObject.Blockchain.RevertTip | crates/taron-core/src/blockchain.rs:160-195 | The reverse undo loop and the writes compute the reverted node and return the old tip |
| BlockchainObject.Blockchain.RevertToHeight | crates/taron-core/src/blockchain.rs:200-224 | The loop returns the reverted blocks newest first and ends on the cut node, or refuses |
| BlockchainObject.Blockchain.ComputeNextDifficulty | crates/taron-core/src/blockchain.rs:483-510 | The branching in place computes the retargeting step: 14 before the first boundary, then two up below 75,000 ms per window, one up below 300,000, one down above that, two down above 1,200,000, within 1 to 30 |
| BlockchainObject.Blockchain.RecomputeDifficultyFromChain | crates/taron-core/src/blockchain.rs:534-552 | The boundary loop computes the recomputed difficulty, which on a readable chain is the difficulty of its stored blocks |
| BlockchainObject.Blockchain.constructor | crates/taron-core/src/blockchain.rs:394-480 | Opening an existing database is `Reopen`; otherwise genesis is written |
| BlockchainObject.Blockchain.BlocksRange | crates/taron-core/src/blockchain.rs:129-132 | The stored blocks of the range, cut at the tip |
| LedgerObject.Ledger.ApplyTx | crates/taron-core/src/ledger.rs:149-198 | Debit and credit in place compute the transfer, or return the exact error and change nothing |
| LedgerObject.Ledger.ApplyTxIbd | crates/taron-core/src/ledger.rs:207-239 | The same without sequence check, with the sequence overwritten |
| LedgerObject.Ledger.RevertTx | crates/taron-core/src/ledger.rs:243-254 | The undo in place |
| LedgerObject.Ledger.RebuildFrom | crates/taron-core/src/ledger.rs:106-114 | The replay loop computes the rewards-only ledger |
| Difficulty.TargetExact | crates/taron-core/src/hash.rs:230-250 | A 32-byte hash meets a target up to 256 bits exactly when its big-endian value is below 2^(256-bits); for 257 to 263 only the zero hash passes, beyond that nothing |
| Difficulty.TargetReadings | crates/taron-pool/src/scoring.rs:92-104 | Meeting a target, being below the numeric bound, and having that many leading zero bits are the same |
| Difficulty.LowerTargetIsWeaker | crates/taron-pool/src/main.rs:747-763 | A hash that meets the block difficulty meets any lower share floor |
| Difficulty.MeetsDifficultyLoop | crates/taron-core/src/hash.rs:230-250 | The early-exit loop decides the target test |
| Difficulty.LeadingZeros256 | crates/taron-pool/src/scoring.rs:94-104 | The loop with break counts the leading zero bits |
| Sequal.ExpandScratchpad | crates/taron-core/src/hash.rs:123-144 | Whatever the buffer held, every cell 4k+j ends as word j of the k-th chained digest |
| Sequal.HashWithScratchpad | crates/taron-core/src/hash.rs:168-209 | Hashing in place on arbitrary leftover contents equals the pure function of seed, steps and length |
| Sequal.HashFollowsTrace | crates/taron-core/src/hash.rs:168-209 | From any list of machines that starts with the words and the expansion of the seed and goes on round by round, the hash is that of the last words, in order, and the seed |
| Bits.RotateLeftBit | crates/taron-core/src/hash.rs:82-99 | Bit k of a word rotated left by n is bit k - n of the word, around the end |
| Bits.RotateRightBit | crates/taron-core/src/hash.rs:84-88 | Bit k of a word rotated right by n is bit k + n of the word, around the end |
| Bits.XorBit | crates/taron-core/src/hash.rs:82-108 | Exclusive or works bit by bit |
| KnownAnswers.MixAnswer | crates/taron-core/src/hash.rs:181-188 | The mixing of four given words, each operation of which changes something |
| KnownAnswers.FoldingRound | crates/taron-core/src/hash.rs:180-203 | Round 79 on those words over three cells: the addressed cell is read and rewritten and the words are folded |
| KnownAnswers.PlainRound | crates/taron-core/src/hash.rs:180-197 | Round 78 on the same words reaches another cell and does not fold |
| Sequal.MiningThread.HashFast | crates/taron-core/src/hash.rs:155-165 | Every hash of a thread that reuses one scratchpad equals the pure function over 32,768 words |
| Sequal.Hash | crates/taron-core/src/hash.rs:62-118 | The transaction hash is the same function over 524,288 words |
| Sequal.ExpansionSpellsChain | crates/taron-core/src/hash.rs:123-144 | A buffer is the expansion of a seed if and only if its words, four per digest, are those of a list of digests that starts with the seed's and in which each digest hashes its predecessor followed by the number of cells before it |
| Encoding.HeaderRoundTrip | crates/taron-core/src/block.rs:51-60 | The header encoding has 96 bytes and is undone by a decoder |
| Encoding.HeaderLayout | crates/taron-core/src/block.rs:51-60 | Where each field lies in the 96 bytes |
| Encoding.HashRoundTrip | crates/taron-core/src/transaction.rs:97-101 | The hashed encoding is undone by a decoder, for every memo length |
| Encoding.TxLayout | crates/taron-core/src/transaction.rs:73-101 | Where each field lies in the hashed bytes, for every memo length; the proof and signing encodings are prefixes |
| KnownAnswers.ByteOrder | crates/taron-core/src/transaction.rs:78-81 | Numbers are written least significant byte first; the word in a reward hash is its ASCII bytes |
| Encoding.TxBytesInjective | crates/taron-core/src/transaction.rs:73-101 | All three transaction encodings are injective on what they cover, although the length byte of a 256-byte memo reads 0 |
| Encoding.ToBytesForPosc | crates/taron-core/src/transaction.rs:73-86 | Appending field by field builds the encoding |
| Network.HashesSeparateUnlessColliding | crates/taron-core/src/block.rs:51-60 | On the test network two headers share a hash only if SEQUAL-256 collides on two 96-byte inputs, two transactions only if SHA3-256 does |
| Network.HashHeader | crates/taron-core/src/block.rs:51-60 | What a mining thread computes in its dirty scratchpad is the header hash the chain checks: SEQUAL-256 of the 96 bytes in 1,000 rounds over 32,768 words |
| Network.HashTransaction | crates/taron-core/src/transaction.rs:67-70 | Hashing the appended fields gives the transaction hash that the ledger records |
| Network.VerifySignature | crates/taron-core/src/transaction.rs:103-107 | On the test network a signature is good exactly if it verifies under the sender's key over the signing bytes |
| Network.SignedBySender | crates/taron-core/src/transaction.rs:89-107 | If nothing verifies under a key but what its owner signed, a transaction with a good signature is one its sender signed, unchanged in every other field |
| Network.StoredTxsWereSigned | crates/taron-core/src/blockchain.rs:290-297 | Whatever run of applies, rejections and reverts, every stored transaction was signed by its sender as it stands |
| Network.OnlyOwnersSpend | crates/taron-core/src/blockchain.rs:290-297 | After any run without late rejections, an account under whose key nothing verifies holds at least what any shorter part of the stored chain gave it |
| Pool.PayoutsSplitTheReward | crates/taron-pool/src/main.rs:256-312 | For miners in any order the payouts sum to at most 99% of the reward, and miss it by less than one unit per miner if all have keys |
| Pool.PayoutsReachMiners | crates/taron-pool/src/main.rs:269-312 | Every key is paid the sum, over the miners of the round with that key, of 15,691,500 times shares over total, rounded down; a key of no miner is paid nothing |
| Pool.PayoutsArePlain | crates/taron-pool/src/main.rs:285-305 | Every payout is a transfer of the pool with fee 1, no memo, a positive amount and 2,000 proof steps, stamped for its own sequence |
| Pool.PayoutsAreCovered | crates/taron-pool/src/main.rs:269-312 | Up to 158,500 payouts all apply after the block's own reward, whatever the pool held before, if the fetched sequence is the pool's; with any other fetched value none does |
| Pool.PoolBlockPaysItsMiners | crates/taron-pool/src/main.rs:338-350 | With payouts placed before mempool transactions, a pool block is stopped by a payout if and only if it has one and the fetched sequence is not the pool's, then at the first and with a late rejection |
| Pool.AcceptedBlockPaysMiners | crates/taron-pool/src/main.rs:338-350 | Once a pool block is accepted every account has grown by exactly what the round owed its key, next to what the mempool moved; the pool keeps the reward less all payouts and their fees |
| Counterexamples.StalePayoutLosesBlock | crates/taron-pool/src/main.rs:264-269 | A pool that has sent payment 1 and falls back to sequence 0 builds a block whose payout repeats number 1, and the block is rejected late |
| Pool.NumberedTxsApply | crates/taron-core/src/ledger.rs:149-198 | A list of one sender's next transactions is accepted live if the sender covers it up front |
| Pool.Round.BuildPayoutTxs | crates/taron-pool/src/main.rs:269-312 | The payout loop over the share map, in whatever order, builds the payout list for an enumeration of the round: every miner once, with its own share count and key |
| Pool.Round.AddShare | crates/taron-pool/src/main.rs:764-768 | One count and the total grow by one; the total stays the sum of the counts modulo 2^64 |
| Dedup.TachyonGuard.IsDuplicate | crates/taron-pool/src/dedup.rs:46-61 | True exactly for keys accepted in this rotation epoch or the two before it; the three buckets refine the log |
| Dedup.RecentKeysAreRefused | crates/taron-pool/src/dedup.rs:46-73 | With a clock that never runs backwards, a key accepted at most 120,000 ms ago is refused, for any submissions in between |
| Dedup.WindowIsNotLonger | crates/taron-pool/src/dedup.rs:3-5 | A run in which the same key is no longer remembered 120,001 ms later |
| Dedup.SilenceForgetsNothing | crates/taron-pool/src/dedup.rs:64-72 | A key of the current or previous epoch is refused by the next call however late it comes |
| Dedup.BucketsAreDisjoint | crates/taron-pool/src/dedup.rs:24-30 | The three buckets are pairwise disjoint |
| Dedup.RunLogOk | crates/taron-pool/src/dedup.rs:64-72 | Over any submissions rotations are at least 60,000 ms apart and a key is accepted again only three epochs later |
| Dedup.KeysSeparateShares | crates/taron-pool/src/dedup.rs:82-86 | Keys coincide exactly if the blocks and the mixed nonces do; for one worker never for different shares |
| KnownAnswers.FnvAnswers | crates/taron-pool/src/dedup.rs:90-99 | The worker hash has the published FNV-1a values for no byte, for a and for ab |
| Dedup.WorkersShareKey | crates/taron-pool/src/dedup.rs:82-86 | Any two workers who submit the hash of their own name as the nonce have the same key for every block |
| Dedup.OtherWorkerIsRefused | crates/taron-pool/src/dedup.rs:46-61 | Of those two shares the first is accepted and the other then refused |
| Finality.RunKeepsOk | crates/taron-core/src/finality.rs:208-334 | Over any events pending and finalized are disjoint, pending entries lack their quorum and hold valid distinct acknowledgements, a confirmation has exactly the registered quorum, the callback fires at most once per hash |
| Finality.FinalStatusStands | crates/taron-core/src/finality.rs:247-250 | No run without an explicit rejection of the hash changes a final status |
| Finality.StatusTable | crates/taron-core/src/finality.rs:208-334 | The status of every hash after every event from its status before: registration, counted and ignored acknowledgements, confirmation with its elapsed time, rejection, time-out strictly after the limit |
| Finality.SilentTxTimesOut | crates/taron-core/src/finality.rs:318-334 | Over any events, a registered transaction that nobody acknowledges or rejects is rejected for its time-out exactly if some cleanup came later than the limit after its registration, and is pending with no acknowledgement otherwise |
| Finality.CountAckKeepsOk | crates/taron-core/src/finality.rs:264-291 | A new acknowledgement finalizes exactly when it completes the quorum |
| Finality.QuorumHasHonestPeer | crates/taron-core/src/finality.rs:351-361 | Above three peers any quorum contains a non-faulty peer, and one signer fewer would not do |
| Finality.FewPeersAllSign | crates/taron-core/src/finality.rs:353-355 | Up to three peers a quorum is all of them, and without peers it is one |
| Finality.QuorumsCanBeDisjoint | crates/taron-core/src/finality.rs:351-361 | Two quorums need not share a peer |
| Finality.FinalityTracker.RecordAck | crates/taron-core/src/finality.rs:239-292 | The method computes the event's step and returns the status a query then gives |
| Finality.FinalityTracker.CleanupTimeouts | crates/taron-core/src/finality.rs:318-334 | The loop rejects exactly the timed-out hashes |

## Left out

- Checkpoint hash literals: the table is a parameter, and every result holds for any table.
- Cryptography: SHA3-256 and Ed25519 are parameters; Dilithium and Noise are not modelled.
- Storage engine: each put is atomic and ordered; serialisation, JSON migration and the ledger file are not modelled, so crash results are about the chain only.
- Network plumbing: one connection at a time; the slot that lets one peer drive a download, timeouts, relaying and cached counters are not modelled.
- New-block message: only the competing block of our own height and the request sent for a fork are modelled; skipping blocks while another is processed is not.
- Gossiped transactions: the branch that applies one straight to the shared ledger is outside every ledger result.
- Fees and timestamps of transactions: `validate_structure` is not called when blocks are applied, so it does not appear.
- Debug builds: they panic where a release build wraps.
- Runs.RunEqualsReplay: not stated for runs with late rejections, because the code then leaves the reward in the ledger; `LateRejectionSupply` says exactly what remains.
- Runs.RunKeepsCounts: sequences only while no live counter wraps to zero and downloaded blocks are consecutive, because download overwrites the sequence and undo subtracts one.
- Residue.ForwardRefusedLate: not stated where the way back over the applied part of the batch saturates; `RevertDownOver` says exactly when that is, `AnyBatchIsSafe` what holds of the chain then.
- Crash.CrashDuringApply: stopping inside `revert_tip` is not claimed.
- Variable share difficulty, hash-rate estimates, weighted scoring: floating point.
- Mempool, peer reputation, address formats, RPC, command line: easy members.
