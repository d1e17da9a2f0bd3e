/**
 * What a list of blocks means on its own, independent of any node: the difficulty it earns, what it
 * pays each account, which blocks may follow it. Every node state is compared with these functions.
 * A history is non-empty and starts with the genesis block; the height of `bs` is `|bs| - 1`.
 */
module History {
  import opened Primitives
  import opened Types
  import opened Difficulty

  /** One retargeting step from the time the window took. */
  function AdjustStep(difficulty: u32, actualMs: u64): (d: u32)
    ensures d <= 30
    ensures 1 <= difficulty <= 30 ==> 1 <= d && difficulty - 2 <= d <= difficulty + 2
  {
    var targetMs := TARGET_BLOCK_MS * DAA_WINDOW;
    if actualMs == 0 then
      Min((difficulty + 1) % 0x1_0000_0000, 30)
    else
      var next :=
        if actualMs < targetMs / 4 then difficulty + 2
        else if actualMs < targetMs then difficulty + 1
        else if actualMs > targetMs * 4 then difficulty - 2
        else if actualMs > targetMs then difficulty - 1
        else difficulty;
      Min(Max(next, 1), 30)
  }

  /**
   * The retargeting rule in milliseconds per ten blocks: five minutes are on target, a quarter of that
   * or four times that count double, and an empty window counts as one step up.
   */
  predicate Retargets(before: int, windowMs: u64, after: int) {
    && (windowMs == 0 ==> after == Min(before + 1, 30))
    && (0 < windowMs < 75_000 ==> after == Min(before + 2, 30))
    && (75_000 <= windowMs < 300_000 ==> after == Min(before + 1, 30))
    && (windowMs == 300_000 ==> after == before)
    && (300_000 < windowMs <= 1_200_000 ==> after == Max(before - 1, 1))
    && (windowMs > 1_200_000 ==> after == Max(before - 2, 1))
  }

  /** The step follows the rule; so it rises exactly on fast windows and falls exactly on slow ones, within 1 to 30. */
  lemma AdjustStepExactly(difficulty: u32, windowMs: u64)
    requires 1 <= difficulty <= 30
    ensures Retargets(difficulty, windowMs, AdjustStep(difficulty, windowMs))
    ensures AdjustStep(difficulty, windowMs) > difficulty <==> windowMs < 300_000 && difficulty < 30
    ensures AdjustStep(difficulty, windowMs) < difficulty <==> windowMs > 300_000 && difficulty > 1
  {
  }

  /** Milliseconds from ten blocks before the tip to the tip. */
  function WindowMs(bs: seq<Block>): u64
    requires |bs| > DAA_WINDOW
  {
    SatSub(Last(bs).header.timestamp, bs[|bs| - 1 - DAA_WINDOW].header.timestamp)
  }

  /** The difficulty in force after `bs`. */
  function Diff(bs: seq<Block>): (d: u32)
    ensures 1 <= d <= 30
  {
    if |bs| <= DAA_WINDOW then TESTNET_DIFFICULTY
    else if (|bs| - 1) % DAA_WINDOW == 0 then AdjustStep(Diff(Init(bs)), WindowMs(bs))
    else Diff(Init(bs))
  }

  /** The hash the table lists for a height: the first entry, as the node searches it. */
  function CheckpointHash(table: seq<(u64, Bytes)>, height: u64): Option<Bytes> {
    if table == [] then None
    else if table[0].0 == height then Some(table[0].1)
    else CheckpointHash(table[1..], height)
  }

  /** The first entry for a height decides; later ones are never consulted. */
  lemma {:induction false} CheckpointHashIsFirst(table: seq<(u64, Bytes)>, n: nat)
    requires n < |table| && forall i :: 0 <= i < n ==> table[i].0 != table[n].0
    ensures CheckpointHash(table, table[n].0) == Some(table[n].1)
  {
    if n > 0 { CheckpointHashIsFirst(table[1..], n - 1); }
  }

  predicate CheckpointOk(env: Env, b: Block) {
    var listed := CheckpointHash(env.checkpoints, b.header.index);
    listed.Some? ==> b.hash == listed.value
  }

  /** The highest listed height at or below `height`, or 0. */
  function Anchor(table: seq<(u64, Bytes)>, height: u64): (a: u64)
    ensures a <= height
    ensures forall i :: 0 <= i < |table| && table[i].0 <= height ==> table[i].0 <= a
    ensures a == 0 || exists i :: 0 <= i < |table| && table[i].0 == a
  {
    if table == [] then 0
    else
      var a := Anchor(Init(table), height);
      if a < Last(table).0 <= height then Last(table).0 else a
  }

  /** The block-level rules for following `bs`, apart from the transactions' funds. */
  predicate HeaderOk(env: Env, bs: seq<Block>, b: Block)
    requires bs != []
  {
    && CheckpointOk(env, b)
    && b.header.index == |bs|
    && b.header.prevHash == Last(bs).hash
    && b.hash == HeaderHash(env, b.header)
    && MeetsDifficulty(b.hash, Diff(bs))
    && b.header.reward == TESTNET_REWARD
    && forall i :: 0 <= i < |b.transactions| ==> SigOk(env, b.transactions[i])
  }

  /** Every block follows the ones before it. */
  predicate LinkedHistory(env: Env, bs: seq<Block>) {
    bs != [] &&
    if |bs| == 1 then bs[0] == Genesis(env)
    else LinkedHistory(env, Init(bs)) && HeaderOk(env, Init(bs), Last(bs))
  }

  // ---- Money ----

  /** The balance change of `k` when `tx` is applied; the fee leaves circulation. */
  function TxDelta(tx: Transaction, k: Bytes): int {
    (if k == tx.recipient then tx.amount else 0) - (if k == tx.sender then tx.amount + tx.fee else 0)
  }

  function TxsDelta(txs: seq<Transaction>, k: Bytes): int {
    if txs == [] then 0 else TxsDelta(Init(txs), k) + TxDelta(Last(txs), k)
  }

  function Mint(miner: Bytes, k: Bytes): int {
    if k == miner then TESTNET_REWARD else 0
  }

  /** The balance of `k` after `bs`, in unbounded arithmetic. */
  function NetBalance(env: Env, bs: seq<Block>, k: Bytes): int
    decreases |bs|, 0
  {
    if |bs| <= 1 then (if k == env.premineKey then PREMINE_BALANCE else 0)
    else Available(env, Init(bs), Last(bs).header.miner, Last(bs).transactions, k)
  }

  /** The balance of `k` inside the block after `bs`: reward minted, `txs` applied. */
  function Available(env: Env, bs: seq<Block>, miner: Bytes, txs: seq<Transaction>, k: Bytes): int
    decreases |bs|, 1
  {
    NetBalance(env, bs, k) + Mint(miner, k) + TxsDelta(txs, k)
  }

  function Fees(txs: seq<Transaction>): nat {
    if txs == [] then 0 else Fees(Init(txs)) + Last(txs).fee
  }

  function TotalFees(bs: seq<Block>): nat {
    if |bs| <= 1 then 0 else TotalFees(Init(bs)) + Fees(Last(bs).transactions)
  }

  /** Premine and rewards, minus everything burned. */
  function Circulating(bs: seq<Block>): int
    requires bs != []
  {
    PREMINE_BALANCE + TESTNET_REWARD * (|bs| - 1) - TotalFees(bs)
  }

  /** Each transaction is covered by its sender's funds at its own position in the block. */
  predicate FundedTxs(env: Env, bs: seq<Block>, miner: Bytes, txs: seq<Transaction>) {
    txs == [] ||
    (&& FundedTxs(env, bs, miner, Init(txs))
     && Last(txs).amount + Last(txs).fee <= Available(env, bs, miner, Init(txs), Last(txs).sender))
  }

  /** How many leading transactions are funded. */
  function FundedCount(env: Env, bs: seq<Block>, miner: Bytes, txs: seq<Transaction>): (n: nat)
    ensures n <= |txs|
    ensures n == |txs| <==> FundedTxs(env, bs, miner, txs)
  {
    if FundedTxs(env, bs, miner, txs) then |txs| else FundedCount(env, bs, miner, Init(txs))
  }

  predicate FundedHistory(env: Env, bs: seq<Block>) {
    |bs| <= 1 ||
    (&& FundedHistory(env, Init(bs))
     && FundedTxs(env, Init(bs), Last(bs).header.miner, Last(bs).transactions))
  }

  /** The rules of initial block download, complete. */
  predicate ValidNext(env: Env, bs: seq<Block>, b: Block)
    requires bs != []
  {
    HeaderOk(env, bs, b) && FundedTxs(env, bs, b.header.miner, b.transactions)
  }

  predicate ValidHistory(env: Env, bs: seq<Block>) {
    LinkedHistory(env, bs) && FundedHistory(env, bs)
  }

  // ---- Sequence numbers ----

  function SentIn(txs: seq<Transaction>, k: Bytes): nat {
    if txs == [] then 0 else SentIn(Init(txs), k) + if Last(txs).sender == k then 1 else 0
  }

  /** How many transactions `k` has sent in `bs`. */
  function Sent(bs: seq<Block>, k: Bytes): nat {
    if |bs| <= 1 then 0 else Sent(Init(bs), k) + SentIn(Last(bs).transactions, k)
  }

  /** Every transaction carries its sender's running count, as live validation demands. */
  predicate ConsecutiveTxs(bs: seq<Block>, txs: seq<Transaction>) {
    txs == [] ||
    (&& ConsecutiveTxs(bs, Init(txs))
     && Last(txs).sequence == Sent(bs, Last(txs).sender) + SentIn(txs, Last(txs).sender))
  }

  predicate ConsecutiveHistory(bs: seq<Block>) {
    |bs| <= 1 || (ConsecutiveHistory(Init(bs)) && ConsecutiveTxs(Init(bs), Last(bs).transactions))
  }

  // ---- Laws of histories ----

  lemma {:induction false} LinkedPrefix(env: Env, bs: seq<Block>, n: nat)
    requires LinkedHistory(env, bs) && 1 <= n <= |bs|
    ensures LinkedHistory(env, bs[..n])
    ensures n < |bs| ==> HeaderOk(env, bs[..n], bs[n])
    decreases |bs|
  {
    if n < |bs| {
      assert bs[..n] == Init(bs)[..n];
      LinkedPrefix(env, Init(bs), n);
    } else {
      assert bs[..n] == bs;
    }
  }

  lemma {:induction false} FundedPrefix(env: Env, bs: seq<Block>, n: nat)
    requires FundedHistory(env, bs) && 1 <= n <= |bs|
    ensures FundedHistory(env, bs[..n])
    decreases |bs|
  {
    if n < |bs| {
      assert bs[..n] == Init(bs)[..n];
      FundedPrefix(env, Init(bs), n);
    } else {
      assert bs[..n] == bs;
    }
  }

  /** No account is ever overdrawn inside a funded block. */
  lemma {:induction false} AvailableNonNegative(env: Env, bs: seq<Block>, miner: Bytes, txs: seq<Transaction>, k: Bytes)
    requires FundedHistory(env, bs) && FundedTxs(env, bs, miner, txs)
    ensures Available(env, bs, miner, txs, k) >= 0
    decreases |bs|, 1, |txs|
  {
    if txs != [] {
      AvailableNonNegative(env, bs, miner, Init(txs), k);
    } else {
      BalanceNonNegative(env, bs, k);
    }
  }

  lemma {:induction false} BalanceNonNegative(env: Env, bs: seq<Block>, k: Bytes)
    requires FundedHistory(env, bs)
    ensures NetBalance(env, bs, k) >= 0
    decreases |bs|, 0, 0
  {
    if |bs| > 1 {
      AvailableNonNegative(env, Init(bs), Last(bs).header.miner, Last(bs).transactions, k);
    }
  }

  lemma {:induction false} NothingSpentIn(txs: seq<Transaction>, k: Bytes)
    requires forall i :: 0 <= i < |txs| ==> txs[i].sender != k
    ensures TxsDelta(txs, k) >= 0
  {
    if txs != [] { NothingSpentIn(Init(txs), k); }
  }

  /** The balance of an account that sends nothing after the first `n` blocks does not fall below what they left it. */
  lemma {:induction false} NothingSpent(env: Env, bs: seq<Block>, n: nat, k: Bytes)
    requires 1 <= n <= |bs|
    requires forall i, j :: n <= i < |bs| && 0 <= j < |bs[i].transactions| ==> bs[i].transactions[j].sender != k
    ensures NetBalance(env, bs[..n], k) <= NetBalance(env, bs, k)
    decreases |bs|
  {
    if n < |bs| {
      assert bs[..n] == Init(bs)[..n];
      NothingSpent(env, Init(bs), n, k);
      NothingSpentIn(Last(bs).transactions, k);
    } else {
      assert bs[..n] == bs;
    }
  }

  /** Difficulty changes only at boundaries, and there by at most two bits. */
  lemma DifficultyMoves(bs: seq<Block>)
    requires |bs| > 1
    ensures (|bs| - 1) % DAA_WINDOW != 0 ==> Diff(bs) == Diff(Init(bs))
    ensures Diff(Init(bs)) - 2 <= Diff(bs) <= Diff(Init(bs)) + 2
  {
  }

  /** The difficulty of a whole history, boundary by boundary: what the timestamps at the window's two ends ask for. */
  lemma BoundaryRetargets(bs: seq<Block>)
    requires bs != []
    ensures |bs| <= 10 ==> Diff(bs) == 14
    ensures |bs| > 10 && (|bs| - 1) % 10 == 0 ==>
      Retargets(Diff(Init(bs)), SatSub(bs[|bs| - 1].header.timestamp, bs[|bs| - 11].header.timestamp), Diff(bs))
    ensures |bs| > 10 && (|bs| - 1) % 10 != 0 ==> Diff(bs) == Diff(Init(bs))
  {
    hide AdjustStep;
    if |bs| > 10 && (|bs| - 1) % 10 == 0 { AdjustStepExactly(Diff(Init(bs)), WindowMs(bs)); }
  }

  /**
   * A slower window never earns a higher difficulty. The empty window is the exception: it counts as one
   * step, not two.
   */
  lemma SlowerIsNotHarder(difficulty: u32, fastMs: u64, slowMs: u64)
    requires 1 <= difficulty <= 30 && 0 < fastMs <= slowMs
    ensures AdjustStep(difficulty, slowMs) <= AdjustStep(difficulty, fastMs)
  {
  }
}
