/**
 * Concrete inputs where chain, synchronisation and pool fall short of their documentation, on a small
 * network with 32-byte keys and hashes. A header's hash is 23 zero bits and some of its fields.
 */
module Counterexamples {
  import opened Primitives
  import opened Bits
  import opened Encoding
  import opened Types
  import opened Difficulty
  import opened History
  import opened LedgerModel
  import opened LedgerLaws
  import opened ChainModel
  import opened ChainLaws
  import opened Runs
  import opened Rebuild
  import opened Crash
  import opened Sync
  import opened LiveRules
  import opened TipRace
  import opened Residue
  import FP = ForkPoint
  import Pool

  function Key(n: byte): (key: Bytes)
    ensures |key| == 32 && key[0] == n
  {
    seq(32, _ => n)
  }

  const PREMINER: Bytes := Key(7)
  const MINER: Bytes := Key(9)
  const RIVAL: Bytes := Key(8)
  const START: u64 := GENESIS_TIMESTAMP

  function Hash(h: Header): (hash: Bytes)
    ensures |hash| == 32
  {
    [0, 0, 1] + seq(5, i requires 0 <= i < 5 => if i < |h.miner| then h.miner[i] else 0)
      + LittleEndian(h.index, 8) + LittleEndian(h.timestamp, 8) + LittleEndian(h.nonce, 8)
  }

  function SmallEnv(table: seq<(u64, Bytes)>): Env {
    Env(Hash, _ => true, _ => ZERO_HASH, (_, _) => ZERO_HASH, Key(1), PREMINER, table)
  }

  /** The widths that the node can hold. */
  predicate Storable(b: Block) {
    && SizedHeader(b.header) && |b.hash| == 32
    && forall i :: 0 <= i < |b.transactions| ==> SizedTx(b.transactions[i])
  }

  const NET: Env := SmallEnv([])
  const GENESIS: Block := Genesis(NET)

  /** The next block after `bs` with a header in order. */
  function Follow(bs: seq<Block>, miner: Bytes, time: u64, txs: seq<Transaction>): Block
    requires 0 < |bs| < U64_MAX
  {
    var h := Header(|bs|, Last(bs).hash, time, miner, 0, TESTNET_REWARD);
    Block(h, Hash(h), txs)
  }

  /** Genesis and one empty block for each time. */
  function Blocks(times: seq<u64>): (bs: seq<Block>)
    requires |times| < 100
    ensures |bs| == |times| + 1 && bs[0] == GENESIS
    ensures forall i :: 0 <= i < |bs| ==> Storable(bs[i])
  {
    if times == [] then [GENESIS]
    else
      var bs := Blocks(Init(times));
      bs + [Follow(bs, MINER, Last(times), [])]
  }

  function Pay(sender: Bytes, recipient: Bytes, amount: u64, fee: u64, sequence: u64): Transaction {
    Transaction(1, sender, recipient, amount, fee, sequence, START, ZERO_HASH, [], ZERO_HASH, POSC_STEPS,
      ZERO_HASH + ZERO_HASH)
  }

  // ---- The small network works ----

  lemma EasyHash(h: Header, bits: nat)
    requires bits <= 23
    ensures MeetsDifficulty(Hash(h), bits)
  {
    hide And, LittleEndian, Pow2;
    var r := bits % 8;
    if bits / 8 < 2 {
      AndZero(HighMask(8 - r));
    } else if r > 0 {
      Pow2Bounds(8);
      Pow2Monotone(1, 8 - r);
      TwoIs();
      AndHigh(1, 8, 8 - r);
    }
  }

  lemma AndZero(b: nat)
    ensures And(0, b) == 0
  {
  }

  lemma {:induction false} DiffAtMost(bs: seq<Block>)
    requires bs != []
    ensures Diff(bs) <= 14 + 2 * ((|bs| - 1) / DAA_WINDOW)
  {
    hide AdjustStep, WindowMs;
    if |bs| > DAA_WINDOW { DiffAtMost(Init(bs)); }
  }

  lemma FollowIsOk(table: seq<(u64, Bytes)>, bs: seq<Block>, miner: Bytes, time: u64, txs: seq<Transaction>)
    requires 0 < |bs| < 40 && CheckpointOk(SmallEnv(table), Follow(bs, miner, time, txs))
    ensures HeaderOk(SmallEnv(table), bs, Follow(bs, miner, time, txs))
  {
    hide Diff, MeetsDifficulty, CheckpointOk, Hash;
    DiffAtMost(bs);
    EasyHash(Follow(bs, miner, time, txs).header, Diff(bs));
  }

  lemma FollowExtends(bs: seq<Block>, miner: Bytes, time: u64, txs: seq<Transaction>)
    requires ValidHistory(NET, bs) && |bs| < 40 && FundedTxs(NET, bs, miner, txs)
    ensures HeaderOk(NET, bs, Follow(bs, miner, time, txs))
    ensures ValidHistory(NET, bs + [Follow(bs, miner, time, txs)])
  {
    hide HeaderOk, FundedTxs;
    var b := Follow(bs, miner, time, txs);
    FollowIsOk([], bs, miner, time, txs);
    assert Init(bs + [b]) == bs && Last(bs + [b]) == b;
  }

  lemma {:induction false} BlocksValid(times: seq<u64>)
    requires |times| < 40
    ensures ValidHistory(NET, Blocks(times))
  {
    hide HeaderOk, Diff, Follow;
    if times != [] {
      BlocksValid(Init(times));
      assert FundedTxs(NET, Blocks(Init(times)), MINER, []);
      FollowExtends(Blocks(Init(times)), MINER, Last(times), []);
    }
  }

  lemma {:induction false} BlocksPrefix(times: seq<u64>, n: nat)
    requires |times| < 100 && n <= |times|
    ensures Blocks(times)[..n + 1] == Blocks(times[..n])
    ensures n > 0 ==> Blocks(times)[n].header.timestamp == times[n - 1]
    decreases |times|
  {
    if n < |times| {
      BlocksPrefix(Init(times), n);
      assert Init(times)[..n] == times[..n];
    } else {
      assert times[..n] == times;
    }
  }

  /** A new node that has downloaded `bs`. */
  lemma Downloaded(bs: seq<Block>)
    requires 0 < |bs| < 50 && bs[0] == GENESIS && ValidHistory(NET, bs)
    ensures Synced(NET, Replay(NET, bs)) && Replay(NET, bs).chain.Stored() == bs
    ensures Replay(NET, bs).chain.height == |bs| - 1
  {
    hide ValidHistory, Synced, Replay;
    ReplayAcceptsValid(NET, bs);
    assert |Replay(NET, bs).chain.Stored()| == Replay(NET, bs).chain.height + 1;
  }

  // ---- A rejected block is not undone ----

  /** A block whose only payment is not covered is rejected, yet its miner keeps the reward. */
  lemma RejectedBlockPays()
    ensures var s, b := FreshNode(NET), Follow([GENESIS], MINER, START, [Pay(Key(5), Key(6), 1, 0, 1)]);
      && Storable(b) && RejectsLate(NET, Live(START), s, b)
      && Apply(NET, Live(START), s, b).chain == s.chain
      && Bal(s.accounts, MINER) == 0
      && Bal(Apply(NET, Live(START), s, b).accounts, MINER) == TESTNET_REWARD
  {
    hide MeetsDifficulty, Hash;
    var s, tx := FreshNode(NET), Pay(Key(5), Key(6), 1, 0, 1);
    var b := Follow([GENESIS], MINER, START, [tx]);
    FreshNodeSynced(NET);
    EasyHash(b.header, 14);
    SingleTx(NET, Live(START), ApplyCoinbase(NET, s.accounts, MINER, TESTNET_REWARD), tx);
    RejectionResidue(NET, Live(START), s, b);
    assert b.transactions[..0] == [];
  }

  // ---- A reorganisation can end lower ----

  const OVERDRAFT: Transaction := Pay(Key(5), Key(6), 1, 0, 1)

  /** A block with those transactions is the next one in its header after `bs`. */
  ghost predicate Follows(b: Block, bs: seq<Block>, miner: Bytes, txs: seq<Transaction>) {
    && 0 < |bs| < U64_MAX && b == Follow(bs, miner, START, txs)
    && b.header.index == |bs| && b.header.prevHash == Last(bs).hash && b.header.timestamp == START
    && b.header.miner == miner && b.header.reward == TESTNET_REWARD && b.transactions == txs
    && Storable(b)
  }

  lemma NextBlock(bs: seq<Block>, miner: Bytes, txs: seq<Transaction>) returns (b: Block)
    requires 0 < |bs| < U64_MAX && |Last(bs).hash| == |miner| == 32
    requires forall i :: 0 <= i < |txs| ==> SizedTx(txs[i])
    ensures Follows(b, bs, miner, txs)
  {
    b := Follow(bs, miner, START, txs);
  }

  lemma RivalIsOverdrawn(b1: Block)
    requires Follows(b1, [GENESIS], RIVAL, [])
    ensures NetBalance(NET, [GENESIS, b1], RIVAL) == TESTNET_REWARD
    ensures !FundedTxs(NET, [GENESIS, b1], RIVAL, [OVERDRAFT])
    ensures FundedCount(NET, [GENESIS, b1], RIVAL, [OVERDRAFT]) == 0
  {
    hide Follow, FundedCount, CheckpointHash;
    AfterEmptyBlock(b1, RIVAL);
    AfterEmptyBlock(b1, Key(5));
    assert Init([OVERDRAFT]) == [] && Last([OVERDRAFT]) == OVERDRAFT;
    assert Available(NET, [GENESIS, b1], RIVAL, [], Key(5)) == 0 < OVERDRAFT.amount;
    CountOne(OVERDRAFT, b1);
  }

  lemma AfterEmptyBlock(b1: Block, k: Bytes)
    requires Follows(b1, [GENESIS], RIVAL, []) && k != PREMINER
    ensures NetBalance(NET, [GENESIS, b1], k) == Mint(RIVAL, k)
    ensures Available(NET, [GENESIS, b1], RIVAL, [], k) == 2 * Mint(RIVAL, k)
  {
    hide Follow;
    var bs := [GENESIS, b1];
    assert Init(bs) == [GENESIS] && Last(bs) == b1;
    assert NetBalance(NET, bs, k) == Available(NET, [GENESIS], RIVAL, [], k);
    assert TxsDelta([], k) == 0;
  }

  lemma CountOne(tx: Transaction, b1: Block)
    requires !FundedTxs(NET, [GENESIS, b1], RIVAL, [tx])
    ensures FundedCount(NET, [GENESIS, b1], RIVAL, [tx]) == 0
  {
    hide Available;
    assert Init([tx]) == [];
  }

  /** The limits of the general results are far above the few blocks here. */
  lemma Room()
    ensures MAX_HEIGHT > 1000
  {
  }

  lemma RivalBatchIsHalfValid(b1: Block, b2: Block)
    requires Follows(b1, [GENESIS], RIVAL, []) && Follows(b2, [GENESIS, b1], RIVAL, [OVERDRAFT])
    ensures ValidHistory(NET, [GENESIS, b1])
    ensures HeaderOk(NET, [GENESIS, b1], b2)
    ensures !ValidHistory(NET, [GENESIS, b1, b2])
  {
    hide HeaderOk, Follow, ValidHistory;
    BlocksValid([]);
    assert FundedTxs(NET, [GENESIS], RIVAL, []);
    FollowExtends([GENESIS], RIVAL, START, []);
    assert [GENESIS] + [b1] == [GENESIS, b1];
    FollowIsOk([], [GENESIS, b1], RIVAL, START, [OVERDRAFT]);
    NotNext(NET, [GENESIS, b1], b2);
    assert [GENESIS, b1] + [b2] == [GENESIS, b1, b2];
    RivalIsOverdrawn(b1);
  }

  /**
   * A node at height 2 receives three blocks of a rival from genesis on, of which the second spends what
   * nobody has. It gives up both its blocks, ends at height 1, and credits the rival with two rewards
   * for the one block it kept.
   */
  lemma ReorgCanEndLower() returns (b1: Block, b2: Block, b3: Block)
    ensures Follows(b1, [GENESIS], RIVAL, []) && Follows(b2, [GENESIS, b1], RIVAL, [OVERDRAFT])
    ensures Follows(b3, [GENESIS, b1, b2], RIVAL, [])
    ensures var s := Replay(NET, Blocks([START, START]));
      var o := HandleBlocks(NET, s, [b1, b2, b3], None);
      && s.chain.height == 2
      && o.node.chain.height == 1
      && o.node.chain.Stored() == [GENESIS, b1]
      && Bal(o.node.accounts, RIVAL) == 2 * TESTNET_REWARD
  {
    hide *;
    b1, b2, b3 := RivalBlocks();
    RivalReorg(b1, b2, b3);
  }

  lemma RivalBlocks() returns (b1: Block, b2: Block, b3: Block)
    ensures Follows(b1, [GENESIS], RIVAL, []) && Follows(b2, [GENESIS, b1], RIVAL, [OVERDRAFT])
    ensures Follows(b3, [GENESIS, b1, b2], RIVAL, [])
  {
    b1 := NextBlock([GENESIS], RIVAL, []);
    b2 := NextBlock([GENESIS, b1], RIVAL, [OVERDRAFT]);
    b3 := NextBlock([GENESIS, b1, b2], RIVAL, []);
  }

  lemma RivalReorg(b1: Block, b2: Block, b3: Block)
    requires Follows(b1, [GENESIS], RIVAL, []) && Follows(b2, [GENESIS, b1], RIVAL, [OVERDRAFT])
    requires Follows(b3, [GENESIS, b1, b2], RIVAL, [])
    ensures var s := Replay(NET, Blocks([START, START]));
      var o := HandleBlocks(NET, s, [b1, b2, b3], None);
      && s.chain.height == 2
      && o.node.chain.height == 1
      && o.node.chain.Stored() == [GENESIS, b1]
      && Bal(o.node.accounts, RIVAL) == 2 * TESTNET_REWARD
  {
    hide *;
    Room();
    var ours, batch := Blocks([START, START]), [b1, b2, b3];
    var s := Replay(NET, ours);
    BlocksValid([START, START]);
    Downloaded(ours);
    RivalBatchIsHalfValid(b1, b2);
    assert ours[..1] + batch[..1] == [GENESIS, b1];
    assert ours[..1] + batch[..2] == [GENESIS, b1, b2];
    RivalCompetes(s, b1, b2, b3);
    ReorgKeepsOnlyValidPart(NET, s, batch, 0, None, 1);
    RivalResidue(HandleBlocks(NET, s, batch, None).node, b1, b2);
  }

  lemma RivalCompetes(s: Node, b1: Block, b2: Block, b3: Block)
    requires Follows(b1, [GENESIS], RIVAL, []) && Follows(b2, [GENESIS, b1], RIVAL, [OVERDRAFT])
    requires Follows(b3, [GENESIS, b1, b2], RIVAL, [])
    requires s.chain.Readable() && s.chain.height == 2 && s.chain.Stored()[0] == GENESIS
    ensures CompetesFrom(s, [b1, b2, b3], 0) && WithinLimits(NET, s, [b1, b2, b3], 0)
  {
    hide Follow;
    assert s.chain.disk.blocks[0] == GENESIS;
  }

  lemma RivalResidue(s: Node, b1: Block, b2: Block)
    requires Follows(b1, [GENESIS], RIVAL, []) && Follows(b2, [GENESIS, b1], RIVAL, [OVERDRAFT])
    requires var n := FundedCount(NET, [GENESIS, b1], b2.header.miner, b2.transactions);
      n < |b2.transactions| && TracksInside(NET, s.accounts, [GENESIS, b1], b2.header.miner, b2.transactions[..n])
    ensures Bal(s.accounts, RIVAL) == 2 * TESTNET_REWARD
  {
    hide Follow, FundedCount;
    RivalIsOverdrawn(b1);
    assert b2.transactions[..0] == [];
    AfterEmptyBlock(b1, RIVAL);
    assert Bal(s.accounts, RIVAL) == Available(NET, [GENESIS, b1], RIVAL, [], RIVAL);
  }

  // ---- Rebuilding loses fees and payments ----

  const PAYMENT: Transaction := Pay(PREMINER, Key(3), 5, 1, 1)

  /** After one stored payment the rebuilt ledger has neither the payment nor the burned fee. */
  lemma RebuildForgetsPayments() returns (b: Block)
    ensures Follows(b, [GENESIS], MINER, [PAYMENT])
    ensures var bs := [GENESIS, b];
      var s := Replay(NET, bs);
      && Synced(NET, s) && s.chain.Stored() == bs
      && Bal(s.accounts, PREMINER) == PREMINE_BALANCE - 6
      && Bal(RebuildFromChain(NET, bs), PREMINER) == PREMINE_BALANCE
      && Supply(RebuildFromChain(NET, bs)) == Supply(s.accounts) + 1
  {
    b := NextBlock([GENESIS], MINER, [PAYMENT]);
    hide *;
    Room();
    PaymentIs();
    PaymentHistory(b, PAYMENT);
    Downloaded([GENESIS, b]);
    RebuildGap(NET, Replay(NET, [GENESIS, b]));
    PaymentEffect(b);
    BalanceIs(NET, Replay(NET, [GENESIS, b]), PREMINER);
  }

  lemma PaymentIs()
    ensures FundedTxs(NET, [GENESIS], MINER, [PAYMENT])
  {
    PaymentIsFunded(PAYMENT);
  }

  lemma BalanceIs(env: Env, s: Node, k: Bytes)
    requires Synced(env, s)
    ensures Bal(s.accounts, k) == NetBalance(env, s.chain.Stored(), k)
  {
  }

  lemma PaymentHistory(b: Block, payment: Transaction)
    requires Follows(b, [GENESIS], MINER, [payment]) && FundedTxs(NET, [GENESIS], MINER, [payment])
    ensures ValidHistory(NET, [GENESIS, b])
  {
    hide ValidHistory, Follow, FundedTxs;
    BlocksValid([]);
    FollowExtends([GENESIS], MINER, START, [payment]);
    assert [GENESIS] + [b] == [GENESIS, b];
  }

  lemma PaymentIsFunded(payment: Transaction)
    requires payment.sender == PREMINER && payment.recipient != PREMINER && payment.amount == 5 && payment.fee == 1
    ensures FundedTxs(NET, [GENESIS], MINER, [payment])
    ensures TxsDelta([payment], PREMINER) == -6 && Fees([payment]) == 1 && SentIn([payment], PREMINER) == 1
  {
    assert Init([payment]) == [] && Last([payment]) == payment;
    assert TxsDelta([], PREMINER) == 0 && Fees([]) == 0 && SentIn([], PREMINER) == 0;
    assert FundedTxs(NET, [GENESIS], MINER, []);
  }

  lemma PaymentEffect(b: Block)
    requires Follows(b, [GENESIS], MINER, [PAYMENT])
    ensures var bs := [GENESIS, b];
      NetReceived(bs, PREMINER) == -6 && TotalFees(bs) == 1 && NetBalance(NET, bs, PREMINER) == PREMINE_BALANCE - 6
  {
    hide TxsDelta, Fees, Follow;
    var bs := [GENESIS, b];
    assert Init(bs) == [GENESIS] && Last(bs) == b;
    PaymentIsFunded(PAYMENT);
    assert NetBalance(NET, bs, PREMINER) == Available(NET, [GENESIS], MINER, [PAYMENT], PREMINER);
  }

  // ---- Undoing a downloaded transaction can meet a counter at zero ----

  const UNNUMBERED: Transaction := PAYMENT.(sequence := 0)

  /**
   * Download accepts a transaction numbered 0 and records that; undoing it decrements a counter that is
   * already zero.
   */
  lemma CounterCanSaturate() returns (b: Block)
    ensures Follows(b, [GENESIS], MINER, [UNNUMBERED])
    ensures var s := Replay(NET, [GENESIS, b]);
      && Synced(NET, s) && s.chain.Tip() == b
      && Seq(RevertTxs(s.accounts, b.transactions[1..]), PREMINER) == 0
      && SentIn(b.transactions, PREMINER) == 1
  {
    hide HeaderOk, ValidHistory, Synced, Replay, Follow, FundedTxs, SentIn;
    b := NextBlock([GENESIS], MINER, [UNNUMBERED]);
    PaymentIsFunded(UNNUMBERED);
    PaymentHistory(b, UNNUMBERED);
    Downloaded([GENESIS, b]);
    var s := Replay(NET, [GENESIS, b]);
    assert s.chain.Tip() == s.chain.Stored()[1];
    UnnumberedIsRecorded(b);
    assert b.transactions[1..] == [];
    assert RevertTxs(s.accounts, []) == s.accounts;
  }

  lemma UnnumberedIsRecorded(b: Block)
    requires Follows(b, [GENESIS], MINER, [UNNUMBERED])
    requires |Replay(NET, [GENESIS, b]).chain.Stored()| == 2
    ensures Seq(Replay(NET, [GENESIS, b]).accounts, PREMINER) == 0
  {
    hide Precheck, Append, Follow;
    var bs := [GENESIS, b];
    assert Init(bs) == [GENESIS] && Last(bs) == b;
    var s := FreshNode(NET);
    var start := ApplyCoinbase(NET, s.accounts, MINER, TESTNET_REWARD);
    assert Replay(NET, bs) == Apply(NET, Ibd, s, b);
    SingleTx(NET, Ibd, start, UNNUMBERED);
    assert Precheck(NET, Ibd, s.chain, b) by { assert s.chain.height == 0; }
    assert b.header.reward == TESTNET_REWARD && b.header.miner == MINER && b.transactions == [UNNUMBERED];
    assert ApplyLedger(NET, Ibd, s.accounts, b) == ApplyTxs(NET, Ibd, start, [UNNUMBERED]);
    assert Init([UNNUMBERED]) == [] && ApplyTxs(NET, Ibd, start, []) == TxsOutcome(0, start);
  }

  // ---- Losing and keeping the wrong snapshot ----

  /** Stopping between height and snapshot while applying `b` to `c` leaves a node whose next revert is unsound. */
  ghost predicate CrashSpoilsRevert(c: Chain, b: Block) {
    && Consistent(NET, c) && HeaderOk(NET, c.Stored(), b) && c.height < U64_MAX - 1
    && |ApplyWrites(c, b)| > 2
    && var d := PerformAll(c.disk, ApplyWrites(c, b)[..2]);
    && d.height.Some?
    && var reopened := Reopen(d, TESTNET_DIFFICULTY);
    && Sound(NET, reopened) && reopened.height > 0
    && !Sound(NET, Truncate(reopened))
  }

  lemma SpoilsRevert(s: Node, bs: seq<Block>, b: Block)
    requires Synced(NET, s) && s.chain.Stored() == bs && |bs| == 20 && Follows(b, bs, MINER, [])
    requires !RevertsCleanly(s.chain.disk.prevDiff, bs + [b])
    ensures CrashSpoilsRevert(s.chain, b)
  {
    hide Consistent, HeaderOk, Reopen, Truncate, RevertsCleanly, Sound, Follow, Tracks;
    var c := s.chain;
    assert c.height == 19 by { assert |c.Stored()| == c.height + 1; }
    FollowIsOk([], bs, MINER, START, []);
    IndexOf(c, b);
    assert |ApplyWrites(c, b)| > 2;
    CrashThenRevert(NET, c, b, 2, TESTNET_DIFFICULTY);
    WritesSoFar(c, b, 2);
    ReopenKeepsSnapshots(PerformAll(c.disk, ApplyWrites(c, b)[..2]), TESTNET_DIFFICULTY);
  }

  lemma IndexOf(c: Chain, b: Block)
    requires Consistent(NET, c) && HeaderOk(NET, c.Stored(), b)
    ensures b.header.index == c.height + 1 && c.disk.height == Some(c.height)
  {
  }

  /** The difficulty of the second and third window. */
  lemma {:induction false} WindowDifficulty(bs: seq<Block>)
    requires 11 <= |bs| <= 21
    ensures |bs| <= 20 ==> Diff(bs) == AdjustStep(14, SatSub(bs[10].header.timestamp, bs[0].header.timestamp))
    ensures |bs| == 21 ==>
      Diff(bs) == AdjustStep(Diff(Init(bs)), SatSub(bs[20].header.timestamp, bs[10].header.timestamp))
    decreases |bs|
  {
    hide AdjustStep;
    if 11 < |bs| <= 20 { WindowDifficulty(Init(bs)); }
  }

  function Steady(n: nat): (times: seq<u64>)
    ensures |times| == n
  {
    seq(n, _ => START)
  }

  lemma SteadyBlocks(n: nat, i: nat)
    requires i <= n < 40
    ensures Blocks(Steady(n))[i].header.timestamp == START
    ensures Blocks(Steady(n))[..i + 1] == Blocks(Steady(i))
  {
    hide Blocks;
    BlocksPrefix(Steady(n), i);
    assert Steady(n)[..i] == Steady(i);
  }

  /** Twenty-one blocks at one moment: 15 bits, then 16, and one step further from a window without its last block. */
  lemma SteadyWindows(bs: seq<Block>, b: Block, snapshots: map<u64, u32>)
    requires |bs| == 20 && b.header.timestamp == START && 20 !in snapshots
    requires bs[0].header.timestamp == bs[9].header.timestamp == START
    requires bs[10].header.timestamp == bs[19].header.timestamp == START
    ensures !RevertsCleanly(snapshots, bs + [b])
  {
    hide Diff;
    WindowDifficulty(bs);
    WindowDifficulty(bs + [b]);
    assert Init(bs + [b]) == bs && Diff(bs) == 15 && Diff(bs + [b]) == 16 && WindowMs(bs) == 0;
  }

  /** After twenty blocks at one moment, a boundary without snapshot is reverted to 17 instead of 15. */
  lemma LostSnapshotSpoilsRevert() returns (b: Block)
    ensures Follows(b, Blocks(Steady(19)), MINER, [])
    ensures 20 !in Replay(NET, Blocks(Steady(19))).chain.disk.prevDiff
    ensures CrashSpoilsRevert(Replay(NET, Blocks(Steady(19))).chain, b)
  {
    hide Replay, Synced, Consistent, HeaderOk, CrashSpoilsRevert, ValidHistory, Blocks, Follow, RevertsCleanly, Steady;
    var bs := Blocks(Steady(19));
    b := NextBlock(bs, MINER, []);
    BlocksValid(Steady(19));
    Downloaded(bs);
    NoSnapshotAhead(bs, 20);
    SteadyBlocks(19, 0);
    SteadyBlocks(19, 9);
    SteadyBlocks(19, 10);
    SteadyBlocks(19, 19);
    SteadyWindows(bs, b, Replay(NET, bs).chain.disk.prevDiff);
    SpoilsRevert(Replay(NET, bs), bs, b);
  }

  lemma {:induction false} NoSnapshotAhead(bs: seq<Block>, n: u64)
    requires bs != [] && |bs| <= n
    ensures n !in Replay(NET, bs).chain.disk.prevDiff && Replay(NET, bs).chain.height < |bs|
    decreases |bs|
  {
    hide NextDifficulty, ApplyLedger, MeetsDifficulty;
    if |bs| > 1 { NoSnapshotAhead(Init(bs), n); }
  }

  // ---- A snapshot left behind by an abandoned fork ----

  const LATE: u64 := START + 2_000_000

  /** Twenty blocks at one moment, and nineteen that share the first nine but take much longer from there. */
  ghost predicate Forks(long: seq<Block>, slow: seq<Block>) {
    && |long| == 21 && |slow| == 20 && long[..10] == slow[..10] && long[0] == slow[0] == GENESIS
    && ValidHistory(NET, long) && ValidHistory(NET, slow)
    && long[10].header.timestamp == START && slow[10].header.timestamp == LATE
    && (forall i :: 0 <= i < |long| ==> Storable(long[i])) && (forall i :: 0 <= i < |slow| ==> Storable(slow[i]))
  }

  lemma ForksExist() returns (long: seq<Block>, slow: seq<Block>)
    ensures Forks(long, slow)
  {
    hide Blocks, ValidHistory;
    var times := Steady(9) + seq(10, _ => LATE);
    long, slow := Blocks(Steady(20)), Blocks(times);
    BlocksValid(Steady(20));
    BlocksValid(times);
    SteadyBlocks(20, 9);
    SteadyBlocks(20, 10);
    BlocksPrefix(times, 9);
    BlocksPrefix(times, 10);
    assert times[..9] == Steady(9);
  }

  lemma {:induction false} RevertKeepsSnapshots(env: Env, s: Node, target: u64)
    requires s.chain.Readable()
    ensures RevertDown(s, target).chain.disk.prevDiff == s.chain.disk.prevDiff
    decreases s.chain.height
  {
    hide NextDifficulty, RevertLedger;
    if s.chain.height > target { RevertKeepsSnapshots(env, RevertTip(s), target); }
  }

  /** Blocks that stay below a boundary leave its snapshot as it is. */
  lemma {:induction false} BatchKeepsSnapshot(env: Env, s: Node, blocks: seq<Block>, n: u64)
    requires s.chain.Readable() && s.chain.height + |blocks| < n
    ensures var c, c' := s.chain, ApplyBatch(env, s, blocks).node.chain;
      && c'.height <= c.height + |blocks|
      && (n in c.disk.prevDiff ==> n in c'.disk.prevDiff && c'.disk.prevDiff[n] == c.disk.prevDiff[n])
  {
    hide NextDifficulty, ApplyLedger, MeetsDifficulty, CheckpointOk;
    if blocks != [] { BatchKeepsSnapshot(env, s, Init(blocks), n); }
  }

  lemma BoundarySnapshot(s: Node, n: u64)
    requires Synced(NET, s) && 0 < n <= s.chain.height && n % DAA_WINDOW == 0
    ensures n in s.chain.disk.prevDiff && s.chain.disk.prevDiff[n] == Diff(s.chain.Stored()[..n])
  {
    hide Sound, Tracks, FundedHistory;
  }

  lemma RevertedTo(s: Node, target: u64)
    requires Synced(NET, s) && target < s.chain.height < 50
    ensures var r := RevertToHeight(NET, s, target);
      && Synced(NET, r) && r.chain.Stored() == s.chain.Stored()[..target + 1]
      && r.chain.disk.prevDiff == s.chain.disk.prevDiff
  {
    hide Synced, Consistent, RevertDown;
    SyncedIsConsistent(NET, s);
    assert MayRevertTo(NET, s, target);
    RevertToHeightCuts(NET, s, target);
    RevertToHeightSynced(NET, s, target);
    RevertKeepsSnapshots(NET, s, target);
  }

  /** The node that built the long fork, gave up its last eleven blocks and took the slow one instead. */
  function Turned(long: seq<Block>, slow: seq<Block>): (s: Node)
    requires |slow| == 20
    ensures s.chain.Readable()
  {
    ApplyBatch(NET, RevertToHeight(NET, Replay(NET, long), 9), slow[10..]).node
  }

  lemma TurnedIs(long: seq<Block>, slow: seq<Block>)
    requires Forks(long, slow)
    ensures var s := Turned(long, slow);
      && Synced(NET, s) && s.chain.Stored() == slow
      && 20 in s.chain.disk.prevDiff && s.chain.disk.prevDiff[20] == Diff(long[..20])
  {
    hide Synced, Replay, RevertToHeight, ApplyBatch, ValidHistory, Diff, Consistent;
    var s, r := Replay(NET, long), RevertToHeight(NET, Replay(NET, long), 9);
    Downloaded(long);
    BoundarySnapshot(s, 20);
    RevertedTo(s, 9);
    assert r.chain.height == 9 by { assert |r.chain.Stored()| == r.chain.height + 1; }
    assert slow[..10] + slow[10..] == slow;
    BatchAdoptsValid(NET, r, slow[10..]);
    BatchKeepsSnapshot(NET, r, slow[10..], 20);
  }

  lemma ForkDifficulties(long: seq<Block>, slow: seq<Block>)
    requires Forks(long, slow)
    ensures Diff(long[..20]) == 15 && Diff(slow) == 12
  {
    hide Diff, ValidHistory;
    WindowDifficulty(long[..20]);
    WindowDifficulty(slow);
  }

  /** The abandoned fork left 15 for a boundary before which the difficulty is now 12. */
  lemma StaleSnapshotSpoilsRevert() returns (long: seq<Block>, slow: seq<Block>, b: Block)
    ensures Forks(long, slow) && Follows(b, slow, MINER, [])
    ensures var c := Turned(long, slow).chain;
      && 20 in c.disk.prevDiff && c.disk.prevDiff[20] == 15 && Diff(c.Stored()) == 12
      && CrashSpoilsRevert(c, b)
  {
    hide Synced, Follow, Turned, Diff, CrashSpoilsRevert, ValidHistory;
    long, slow := ForksExist();
    b := NextBlock(slow, MINER, []);
    TurnedIs(long, slow);
    ForkDifficulties(long, slow);
    assert Init(slow + [b]) == slow;
    assert !RevertsCleanly(Turned(long, slow).chain.disk.prevDiff, slow + [b]);
    SpoilsRevert(Turned(long, slow), slow, b);
  }

  // ---- Checkpoints bind only the guarded revert ----

  /** The first block is a checkpoint and the tip: the guarded revert refuses to undo it, the bare one does. */
  lemma CheckpointTipIsReverted() returns (b: Block)
    ensures Follows(b, [GENESIS], MINER, [])
    ensures var env := SmallEnv([(1, b.hash)]);
      var s := Replay(env, [GENESIS, b]);
      && s.chain.Stored() == [GENESIS, b]
      && RevertToHeight(env, s, 0) == s
      && RevertTip(s).chain.Stored() == [GENESIS]
  {
    hide Follow, HeaderOk, Replay, Synced, Consistent, Apply, RevertToHeight, RevertTip;
    b := NextBlock([GENESIS], MINER, []);
    var env := SmallEnv([(1, b.hash)]);
    var s := Replay(env, [GENESIS, b]);
    ListedHistory(b);
    ReplayAcceptsValid(env, [GENESIS, b]);
    assert |s.chain.Stored()| == s.chain.height + 1;
    RevertToHeightCuts(env, s, 0);
    RevertTipSynced(env, s);
    assert Init([GENESIS, b]) == [GENESIS];
  }

  lemma ListedHistory(b: Block)
    requires Follows(b, [GENESIS], MINER, [])
    ensures ValidHistory(SmallEnv([(1, b.hash)]), [GENESIS, b])
    ensures Anchor([(1, b.hash)], 1) == 1
  {
    hide Follow, HeaderOk;
    var env, bs := SmallEnv([(1, b.hash)]), [GENESIS, b];
    assert Init(bs) == [GENESIS] && Last(bs) == b && Genesis(env) == GENESIS;
    FollowIsOk([(1, b.hash)], [GENESIS], MINER, START, []);
    assert FundedTxs(env, [GENESIS], MINER, []);
    assert LinkedHistory(env, [GENESIS]) && FundedHistory(env, [GENESIS]);
    assert b.hash == CheckpointHash(env.checkpoints, 1).value;
    assert HeaderOk(env, Init(bs), Last(bs));
    assert Init([(1, b.hash)]) == [];
  }

  // ---- Free transfers from leftover entries ----

  const FREE: Transaction := Pay(Key(2), Key(3), 0, 0, 1)

  /**
   * A fresh node that mined and reverted a block of the free sender takes a transfer that it refuses
   * without that detour.
   */
  lemma StrictReplayCanFail() returns (a: Block, b: Block)
    ensures Follows(a, [GENESIS], Key(2), []) && Follows(b, [GENESIS], Key(4), [FREE])
    ensures var mode, s := Live(START), FreshNode(NET);
      && Accepts(NET, mode, s, a)
      && ApplyLedger(NET, mode, RevertTip(Apply(NET, mode, s, a)).accounts, b).applied == 1
      && RejectsLate(NET, mode, s, b)
  {
    hide MeetsDifficulty, Hash;
    a := NextBlock([GENESIS], Key(2), []);
    b := NextBlock([GENESIS], Key(4), [FREE]);
    FreshNodeSynced(NET);
    EasyHash(a.header, 14);
    EasyHash(b.header, 14);
    assert Key(2) != PREMINER && Key(2) != Key(4);
    hide Synced, ApplyLedger, Apply, RevertTip, Accepts, RejectsLate, Precheck, Follow;
    DetourIsVisible(NET, Live(START), FreshNode(NET), a, b);
  }

  /**
   * The checkpointed tip falls to a rival block with a lower hash that arrives 200 seconds later: the
   * checkpoint refuses the rival, the clock refuses the old tip, and the node is left on genesis.
   */
  lemma CheckpointTipFalls() returns (tip: Block, rival: Block)
    ensures Follows(tip, [GENESIS], MINER, [])
    ensures rival == Follow([GENESIS], RIVAL, START + 200_000, []) && Storable(rival)
    ensures var env, now := SmallEnv([(1, tip.hash)]), START + 200_000;
      var s := Replay(env, [GENESIS, tip]);
      && s.chain.Stored() == [GENESIS, tip] && Anchor(env.checkpoints, 1) == 1
      && Beats(env, now, s.chain, rival)
      && ReplaceTip(env, now, now, now, s, rival).chain.Stored() == [GENESIS]
  {
    hide Replay, Synced, Consistent, ReplaceTip, Beats, ValidHistory, Hash, OnTime;
    tip := NextBlock([GENESIS], MINER, []);
    rival := Follow([GENESIS], RIVAL, START + 200_000, []);
    var env, now := SmallEnv([(1, tip.hash)]), START + 200_000;
    var s := Replay(env, [GENESIS, tip]);
    ListedHistory(tip);
    ReplayAcceptsValid(env, [GENESIS, tip]);
    assert |s.chain.Stored()| == s.chain.height + 1;
    SyncedParts(env, s);
    RivalBeats(s.chain, tip, rival);
    CheckpointTipCanFall(env, now, now, now, s, rival);
    NotRecent(s.chain.Tip());
    assert Init([GENESIS, tip]) == [GENESIS];
  }

  lemma NotRecent(b: Block)
    requires b.header.timestamp == START
    ensures !OnTime(START + 200_000, b)
  {
  }

  lemma RivalBeats(c: Chain, tip: Block, rival: Block)
    requires Follows(tip, [GENESIS], MINER, []) && rival == Follow([GENESIS], RIVAL, START + 200_000, [])
    requires Sound(SmallEnv([(1, tip.hash)]), c) && c.Stored() == [GENESIS, tip]
    ensures Beats(SmallEnv([(1, tip.hash)]), START + 200_000, c, rival)
  {
    hide MeetsDifficulty, Hash;
    assert |c.Stored()| == c.height + 1;
    assert c.Stored()[1] == c.Tip() && c.Stored()[0] == c.disk.blocks[0];
    EasyHash(rival.header, 14);
    LowerHash(rival.header, tip.header);
  }

  lemma LowerHash(low: Header, high: Header)
    requires low.miner == RIVAL && high.miner == MINER
    ensures Less(Hash(low), Hash(high))
  {
    hide Less, LittleEndian;
    var a, b := Hash(low), Hash(high);
    assert a[0] == b[0] == 0 && a[1] == b[1] == 0 && a[2] == b[2] == 1 && a[3] == 8 && b[3] == 9;
    LessFrom(a, b, 3);
  }

  lemma {:induction false} LessFrom(a: Bytes, b: Bytes, n: nat)
    requires n < |a| && n < |b| && a[..n] == b[..n] && a[n] < b[n]
    ensures Less(a, b)
    decreases n
  {
    if n > 0 {
      assert a[0] == a[..n][0] && b[0] == b[..n][0];
      assert a[1..][..n - 1] == a[..n][1..] && b[1..][..n - 1] == b[..n][1..];
      LessFrom(a[1..], b[1..], n - 1);
    }
  }

  // ---- The parent of the first block is not the last common ancestor ----

  /** Twelve blocks, and thirteen that share all but the last of them. */
  ghost predicate LateFork(ours: seq<Block>, theirs: seq<Block>) {
    && |ours| == 13 && |theirs| == 14 && ours[..12] == theirs[..12] && ours[0] == GENESIS
    && ValidHistory(NET, ours) && ValidHistory(NET, theirs)
    && ours[12].header.timestamp != theirs[12].header.timestamp
    && (forall i :: 0 <= i < |ours| ==> Storable(ours[i])) && (forall i :: 0 <= i < |theirs| ==> Storable(theirs[i]))
  }

  lemma LateForkExists() returns (ours: seq<Block>, theirs: seq<Block>)
    ensures LateFork(ours, theirs)
  {
    hide Blocks, ValidHistory;
    var times := Steady(11) + [START + 1, START + 1];
    ours, theirs := Blocks(Steady(12)), Blocks(times);
    BlocksValid(Steady(12));
    BlocksValid(times);
    SteadyBlocks(12, 11);
    SteadyBlocks(12, 12);
    BlocksPrefix(times, 11);
    BlocksPrefix(times, 12);
    assert times[..11] == Steady(11);
  }

  /** A header's hash shows its index and its time. */
  lemma HashShows(h1: Header, h2: Header)
    requires Hash(h1) == Hash(h2)
    ensures h1.index == h2.index && h1.timestamp == h2.timestamp
  {
    hide LittleEndian;
    var a, b := Hash(h1), Hash(h2);
    assert a[8..16] == LittleEndian(h1.index, 8) && a[16..24] == LittleEndian(h1.timestamp, 8);
    assert b[8..16] == LittleEndian(h2.index, 8) && b[16..24] == LittleEndian(h2.timestamp, 8);
    WordRoundTrip(h1.index);
    WordRoundTrip(h2.index);
    WordRoundTrip(h1.timestamp);
    WordRoundTrip(h2.timestamp);
  }

  lemma HashOf(bs: seq<Block>, i: nat)
    requires LinkedHistory(NET, bs) && 0 < i < |bs|
    ensures bs[i].hash == Hash(bs[i].header) && bs[i].header.index == i
  {
    hide MeetsDifficulty, Diff, Hash;
    LinkedPrefix(NET, bs, i);
  }

  lemma LateForkHashes(ours: seq<Block>, theirs: seq<Block>)
    requires LateFork(ours, theirs)
    ensures FP.NoCollision(ours[1..], theirs[1..]) && ours[12].hash != theirs[12].hash
  {
    hide Hash, LinkedHistory, FundedHistory, Storable;
    forall i, j | 0 < i < 13 && 0 < j < 14 && ours[i].hash == theirs[j].hash ensures i == j < 12 {
      HashOf(ours, i);
      HashOf(theirs, j);
      HashShows(ours[i].header, theirs[j].header);
    }
    forall x, y | x in ours[1..] && y in theirs[1..] && x.hash == y.hash ensures x.header == y.header {
      var i :| 0 <= i < 12 && ours[1..][i] == x;
      var j :| 0 <= j < 13 && theirs[1..][j] == y;
      assert ours[i + 1].hash == theirs[j + 1].hash;
      assert ours[..12][i + 1] == theirs[..12][i + 1];
    }
  }

  /**
   * A node at height 12 shares eleven blocks with a peer at 13. Sent all of the peer's blocks, it finds
   * the fork at 0 although 11 is the last common ancestor, counts twelve blocks to undo and refuses;
   * sent the last two alone, it adopts them.
   */
  lemma FirstParentIsNotLast() returns (ours: seq<Block>, theirs: seq<Block>)
    ensures LateFork(ours, theirs)
    ensures var s := Replay(NET, ours);
      && s.chain.Stored() == ours
      && FP.ForkPoint(s.chain.disk.blocks, theirs[1..]) == Some(0)
      && FP.LastCommon(s.chain.disk.blocks, theirs[1..], 11)
      && HandleBlocks(NET, s, theirs[1..], None) == BatchOutcome(s, 0)
      && HandleBlocks(NET, s, theirs[12..], None).node.chain.Stored() == theirs
  {
    ours, theirs := LateForkExists();
    hide LateFork, Replay, HandleBlocks, FP.ForkPoint, FP.LastCommon;
    LateForkAncestor(ours, theirs);
    LateForkRefused(ours, theirs);
    LateForkAdopted(ours, theirs);
  }

  lemma LateForkAncestor(ours: seq<Block>, theirs: seq<Block>)
    requires LateFork(ours, theirs)
    ensures var s := Replay(NET, ours);
      && s.chain.Stored() == ours
      && FP.ForkPoint(s.chain.disk.blocks, theirs[1..]) == Some(0)
      && FP.LastCommon(s.chain.disk.blocks, theirs[1..], 11)
  {
    hide Replay, Synced, Consistent, LinkedHistory, FundedHistory, FP.ForkPoint, FP.LastCommon, FP.Consecutive,
      FP.NoCollision,
      Storable;
    var s, batch := Replay(NET, ours), theirs[1..];
    Downloaded(ours);
    SyncedIsConsistent(NET, s);
    LinkedIsConsecutive(NET, theirs, 1);
    LateForkHashes(ours, theirs);
    forall i | 0 <= i < 13 ensures batch[i].header.index == i + 1 { HashOf(theirs, i + 1); }
    forall i | 0 <= i <= 12 ensures s.chain.disk.blocks[i] == ours[i] { assert s.chain.Stored()[i] == ours[i]; }
    LinkedAt(NET, theirs, 1);
    assert theirs[0] == theirs[..12][0] == ours[..12][0];
    assert FP.Attaches(s.chain.disk.blocks, batch[0]);
    FP.LastCommonAncestor(NET, s.chain, batch);
    assert batch[10] == theirs[..12][11] == ours[..12][11];
    FP.RepeatedIsHead(NET, s.chain, batch, 10);
    FP.RepeatedIsHead(NET, s.chain, batch, 11);
  }

  lemma LateForkRefused(ours: seq<Block>, theirs: seq<Block>)
    requires LateFork(ours, theirs)
    ensures HandleBlocks(NET, Replay(NET, ours), theirs[1..], None) == BatchOutcome(Replay(NET, ours), 0)
  {
    hide Replay, Synced, HandleBlocks, LinkedHistory, FundedHistory, Storable, ApplyBatch, RevertToHeight;
    var s, batch := Replay(NET, ours), theirs[1..];
    Downloaded(ours);
    forall i | 0 <= i < 13 ensures batch[i].header.index == i + 1 { HashOf(theirs, i + 1); }
    LinkedAt(NET, theirs, 1);
    assert s.chain.disk.blocks[0] == s.chain.Stored()[0] == ours[..12][0] == theirs[..12][0];
    assert CompetesFrom(s, batch, 0);
    CompetingBatch(NET, s, batch, 0, None);
  }

  lemma LateForkAdopted(ours: seq<Block>, theirs: seq<Block>)
    requires LateFork(ours, theirs)
    ensures HandleBlocks(NET, Replay(NET, ours), theirs[12..], None).node.chain.Stored() == theirs
  {
    hide Replay, Synced, HandleBlocks, Storable, ApplyBatch, RevertToHeight, ValidHistory, Hash, Replay,
      Consistent, Bal;
    var s, batch := Replay(NET, ours), theirs[12..];
    Downloaded(ours);
    LateForkCompetes(s, ours, theirs);
    assert ours[..12] + batch == theirs;
    ReorgAdoptsBatch(NET, s, batch, 11, None, []);
  }

  lemma LateForkCompetes(s: Node, ours: seq<Block>, theirs: seq<Block>)
    requires LateFork(ours, theirs) && s.chain.Readable() && s.chain.Stored() == ours
    ensures CompetesFrom(s, theirs[12..], 11) && MayRevertTo(NET, s, 11)
  {
    hide LinkedHistory, FundedHistory, Storable, Hash;
    assert |s.chain.Stored()| == s.chain.height + 1;
    HashOf(theirs, 12);
    HashOf(theirs, 13);
    LinkedAt(NET, theirs, 12);
    assert s.chain.disk.blocks[11] == s.chain.Stored()[11] == ours[..12][11] == theirs[..12][11];
  }

  // ---- Payouts numbered from a stale sequence ----

  const STAMP: u64 -> Pool.Stamp := _ => Pool.Stamp(START, ZERO_HASH, ZERO_HASH + ZERO_HASH)
  const FIRST_PAYOUT: Transaction := Pay(MINER, Key(3), 5, 1, 1)

  /** The payouts of a round in which one miner has one share, numbered after `fetched`. */
  function OnePayout(fetched: u64): seq<Transaction> {
    Pool.PayoutTxs(MINER, [Pool.Miner(Key(6), 1, Some(Key(6)))], 1, WrapAdd(fetched, 1), STAMP)
  }

  /**
   * The pool has sent one payment, its next block is built while the sequence cannot be fetched and
   * falls back to 0: the payout carries the used number 1 and the block is rejected late.
   */
  lemma StalePayoutLosesBlock() returns (b1: Block, b2: Block)
    ensures Follows(b1, [GENESIS], MINER, [FIRST_PAYOUT]) && Follows(b2, [GENESIS, b1], MINER, OnePayout(0))
    ensures var s := Replay(NET, [GENESIS, b1]);
      && s.chain.Stored() == [GENESIS, b1] && Seq(s.accounts, MINER) == 1
      && |OnePayout(0)| == 1
      && RejectsLate(NET, Live(START), s, b2)
  {
    hide Replay, Follow, RejectsLate, OnePayout, Synced, ValidHistory;
    OnePayoutIs(0);
    b1 := NextBlock([GENESIS], MINER, [FIRST_PAYOUT]);
    b2 := NextBlock([GENESIS, b1], MINER, OnePayout(0));
    FirstPayoutStored(b1);
    StaleBlock(Replay(NET, [GENESIS, b1]), b1, b2);
  }

  lemma OnePayoutIs(fetched: u64)
    ensures |OnePayout(fetched)| == 1 && SizedTx(OnePayout(fetched)[0])
  {
    var m := Pool.Miner(Key(6), 1, Some(Key(6)));
    assert Init([m]) == [] && Last([m]) == m;
    assert Pool.PayoutTxs(MINER, [], 1, WrapAdd(fetched, 1), STAMP) == [];
    assert Pool.Payout(1, 1) == Pool.TO_DISTRIBUTE;
  }

  lemma FirstPayoutStored(b1: Block)
    requires Follows(b1, [GENESIS], MINER, [FIRST_PAYOUT])
    ensures ValidHistory(NET, [GENESIS, b1])
    ensures var s := Replay(NET, [GENESIS, b1]);
      Synced(NET, s) && s.chain.Stored() == [GENESIS, b1] && Seq(s.accounts, MINER) == 1
  {
    hide Follow, Replay, Synced, HeaderOk, Storable;
    var bs := [GENESIS, b1];
    FirstPayoutIsFunded();
    BlocksValid([]);
    FollowExtends([GENESIS], MINER, START, [FIRST_PAYOUT]);
    assert [GENESIS] + [b1] == bs && Init(bs) == [GENESIS] && Last(bs) == b1;
    ReplayAcceptsValid(NET, bs);
    assert ConsecutiveHistory([GENESIS]) && ConsecutiveHistory(bs) && Sent(bs, MINER) == 1;
    CountIs(Replay(NET, bs).accounts, bs, MINER);
  }

  lemma FirstPayoutIsFunded()
    ensures FundedTxs(NET, [GENESIS], MINER, [FIRST_PAYOUT])
    ensures ConsecutiveTxs([GENESIS], [FIRST_PAYOUT]) && SentIn([FIRST_PAYOUT], MINER) == 1
  {
    assert Init([FIRST_PAYOUT]) == [] && Last([FIRST_PAYOUT]) == FIRST_PAYOUT;
    assert TxsDelta([], MINER) == 0 && SentIn([], MINER) == 0;
    assert FundedTxs(NET, [GENESIS], MINER, []);
  }

  lemma StaleBlock(s: Node, b1: Block, b2: Block)
    requires Follows(b2, [GENESIS, b1], MINER, OnePayout(0))
    requires Synced(NET, s) && s.chain.Stored() == [GENESIS, b1] && Seq(s.accounts, MINER) == 1
    ensures RejectsLate(NET, Live(START), s, b2)
  {
    hide Follow, RejectsLate, Storable, Precheck, Pool.PayoutTxs, Supply, Accepts, Synced, ApplyLedger, HeaderOk;
    var miners := [Pool.Miner(Key(6), 1, Some(Key(6)))];
    OnePayoutIs(0);
    assert |s.chain.Stored()| == s.chain.height + 1;
    SyncedParts(NET, s);
    TwoBlocksSupply(s);
    FollowIsOk([], [GENESIS, b1], MINER, START, OnePayout(0));
    LivePrecheck(NET, START, s.chain, b2);
    assert Init(miners) == [] && Pool.TotalShares(miners) == 1;
    assert OnePayout(0) + [] == OnePayout(0);
    assert Pool.FinalBlock(b2, b2.hash, OnePayout(0), []) == b2;
    Pool.PoolBlockPaysItsMiners(NET, START, s, b2, b2.hash, 0, miners, 1, STAMP, []);
  }

  lemma TwoBlocksSupply(s: Node)
    requires Synced(NET, s) && s.chain.height == 1
    ensures Supply(s.accounts) + TESTNET_REWARD < U64_MAX
  {
  }

  // ---- A refused block is adopted on its own reward ----

  const OVERSPENT: Transaction := Pay(MINER, Key(3), 20_000_000, 1, 1)

  /**
   * The miner of a block spends more than the reward it gets for it. A fresh node refuses the block and
   * keeps the reward; the handler applies it again at once, now covered by two rewards, and adopts it.
   */
  lemma RefusedBlockIsAdopted(peerHeight: Option<u64>) returns (b: Block)
    ensures Follows(b, [GENESIS], MINER, [OVERSPENT])
    ensures var o := HandleBlocks(NET, FreshNode(NET), [b], peerHeight);
      && !ValidHistory(NET, [GENESIS, b])
      && !Accepts(NET, Ibd, FreshNode(NET), b)
      && o.applied == 1 && o.node.chain.Stored() == [GENESIS, b]
  {
    hide HandleBlocks, ValidHistory, HeaderOk, Synced, Accepts, Hash, FundedTxs, FundedOver, Follow, Storable, LeftBy,
      Residual;
    b := NextBlock([GENESIS], MINER, [OVERSPENT]);
    var s, x := FreshNode(NET), LeftBy(NET, [GENESIS], b);
    FreshNodeSynced(NET);
    FollowIsOk([], [GENESIS], MINER, START, [OVERSPENT]);
    OverspentNeedsTwo(b);
    NotNext(NET, [GENESIS], b);
    SyncedIsValid(NET, s);
    IbdAcceptsValid(NET, s, b);
    assert [GENESIS] + [b] == [GENESIS, b];
    assert [b][..0] == [] && [GENESIS] + [] == [GENESIS] && [b][..1] == [b] && Init([b]) == [];
    assert ContinuesTip(s, [b]) by { assert s.chain.Tip() == s.chain.Stored()[0]; }
    assert ContinuesOver(NET, [GENESIS], [], x);
    assert ContinuesOver(NET, [GENESIS], [b], x);
    AlwaysRetries(NET, s, b);
    ForwardRefusedLate(NET, s, [b], peerHeight, 0);
  }

  lemma OverspentNeedsTwo(b: Block)
    requires Follows(b, [GENESIS], MINER, [OVERSPENT])
    ensures !FundedTxs(NET, [GENESIS], MINER, [OVERSPENT])
    ensures FundedOver(NET, [GENESIS], MINER, [OVERSPENT], LeftBy(NET, [GENESIS], b))
  {
    hide Follow, Storable;
    assert Init([OVERSPENT]) == [] && Last([OVERSPENT]) == OVERSPENT;
    assert TxsDelta([], MINER) == 0;
    assert Available(NET, [GENESIS], MINER, [], MINER) == TESTNET_REWARD;
    assert FundedCount(NET, [GENESIS], MINER, [OVERSPENT]) == 0;
    assert [OVERSPENT][..0] == [];
    assert Extra(LeftBy(NET, [GENESIS], b), MINER) == TESTNET_REWARD;
  }
}
