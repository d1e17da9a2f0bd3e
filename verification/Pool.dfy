/** The mining pool: counting shares, splitting a reward, and embedding the payouts in the block that earns it. */
module Pool {
  import opened Primitives
  import opened Bits
  import opened Types
  import opened LedgerModel
  import opened LedgerLaws
  import opened History
  import opened ChainLaws
  import opened LiveRules
  import opened ChainModel

  const POOL_FEE_PERMILLE: u64 := 10
  const TO_DISTRIBUTE: u64 := TESTNET_REWARD - TESTNET_REWARD * POOL_FEE_PERMILLE / 1000

  /** The most miners whose one-unit fees still fit next to the distributed part of the reward. */
  const MAX_PAID: nat := TESTNET_REWARD - TO_DISTRIBUTE

  /** One miner of the round; without a usable public key it cannot be paid. */
  datatype Miner = Miner(address: Bytes, shares: u64, pubkey: Option<Bytes>)

  /** What the builder fills in besides recipient, amount and sequence. */
  datatype Stamp = Stamp(timestampMs: u64, poscProof: Bytes, signature: Bytes)

  /** `sequence` counted on by `n`, as repeated `+ 1` on u64 does. */
  function Advance(sequence: u64, n: nat): u64 {
    (sequence + n) % TWO64
  }

  lemma AdvanceSteps(sequence: u64, n: nat)
    ensures Advance(sequence, 0) == sequence
    ensures WrapAdd(Advance(sequence, n), 1) == Advance(sequence, n + 1) == Advance(WrapAdd(sequence, 1), n)
  {
  }

  function Payout(shares: u64, total: u64): u64
    requires total > 0
  {
    MulWord(TO_DISTRIBUTE, shares) / total
  }

  predicate IsPaid(m: Miner, total: u64)
    requires total > 0
  {
    Payout(m.shares, total) > 0 && m.pubkey.Some?
  }

  function PayoutTx(pool: Bytes, recipient: Bytes, amount: u64, sequence: u64, stamp: Stamp): Transaction {
    Transaction(1, pool, recipient, amount, 1, sequence, stamp.timestampMs, ZERO_HASH, [],
      stamp.poscProof, POSC_STEPS, stamp.signature)
  }

  /** The payouts of a round whose miners come in the given order, numbered from `sequence` on. */
  function PayoutTxs(pool: Bytes, miners: seq<Miner>, total: u64, sequence: u64,
      stamp: u64 -> Stamp): (txs: seq<Transaction>)
    requires total > 0
    ensures |txs| <= |miners|
  {
    if miners == [] then []
    else
      var txs := PayoutTxs(pool, Init(miners), total, sequence, stamp);
      var m := Last(miners);
      var next := Advance(sequence, |txs|);
      if IsPaid(m, total) then txs + [PayoutTx(pool, m.pubkey.value, Payout(m.shares, total), next, stamp(next))]
      else txs
  }

  function Amounts(txs: seq<Transaction>): nat {
    if txs == [] then 0 else Amounts(Init(txs)) + Last(txs).amount
  }

  function TotalShares(miners: seq<Miner>): nat {
    if miners == [] then 0 else TotalShares(Init(miners)) + Last(miners).shares
  }

  /** Share counts small enough for the product with the distributed amount. */
  predicate ProductsFit(miners: seq<Miner>) {
    forall i :: 0 <= i < |miners| ==> TO_DISTRIBUTE * miners[i].shares < TWO64
  }

  // ---- Arithmetic of the split ----

  /** Rounding down a share loses less than one unit. */
  lemma PayoutRounds(m: Miner, total: u64)
    requires total > 0 && TO_DISTRIBUTE * m.shares < TWO64
    ensures Payout(m.shares, total) * total <= TO_DISTRIBUTE * m.shares < (Payout(m.shares, total) + 1) * total
  {
    var product, p := TO_DISTRIBUTE * m.shares, Payout(m.shares, total);
    assert product == p * total + product % total;
    assert (p + 1) * total == p * total + total;
  }

  /** Scaled by the total, the payouts stay within the distributed amount and miss it by less than one per miner. */
  lemma {:induction false} SplitBounds(pool: Bytes, miners: seq<Miner>, total: u64, sequence: u64, stamp: u64 -> Stamp)
    requires total > 0 && ProductsFit(miners)
    ensures Within(Amounts(PayoutTxs(pool, miners, total, sequence, stamp)), miners, total)
  {
    hide Within;
    if miners == [] {
      WithinNothing(miners, total);
    } else {
      var rest, m := Init(miners), Last(miners);
      SplitBounds(pool, rest, total, sequence, stamp);
      PayoutRounds(m, total);
      var before := PayoutTxs(pool, rest, total, sequence, stamp);
      var after := PayoutTxs(pool, miners, total, sequence, stamp);
      var paid := if IsPaid(m, total) then Payout(m.shares, total) else 0;
      if IsPaid(m, total) { assert Init(after) == before; }
      WithinStep(Amounts(before), rest, m, total, paid);
      assert rest + [m] == miners;
    }
  }

  ghost predicate Within(paid: nat, miners: seq<Miner>, total: u64) {
    && paid * total <= TO_DISTRIBUTE * TotalShares(miners)
    && ((forall m :: m in miners ==> m.pubkey.Some?) ==>
          TO_DISTRIBUTE * TotalShares(miners) <= (paid + |miners|) * total
          && (miners != [] ==> TO_DISTRIBUTE * TotalShares(miners) < (paid + |miners|) * total))
  }

  lemma WithinNothing(miners: seq<Miner>, total: u64)
    requires miners == []
    ensures Within(0, miners, total)
  {
  }

  lemma WithinStep(before: nat, rest: seq<Miner>, m: Miner, total: u64, paid: nat)
    requires total > 0 && Within(before, rest, total)
    requires Payout(m.shares, total) * total <= TO_DISTRIBUTE * m.shares < (Payout(m.shares, total) + 1) * total
    requires paid == if IsPaid(m, total) then Payout(m.shares, total) else 0
    ensures Within(before + paid, rest + [m], total)
  {
    hide Payout;
    var miners := rest + [m];
    assert Init(miners) == rest && Last(miners) == m;
    Distribute(TO_DISTRIBUTE, TotalShares(rest), m.shares);
    Distribute(total, before, paid);
    Distribute(total, before + |rest|, paid + 1);
    assert paid * total <= TO_DISTRIBUTE * m.shares;
    if forall x :: x in miners ==> x.pubkey.Some? {
      assert m in miners;
      forall x | x in rest ensures x.pubkey.Some? { assert x in miners; }
      assert paid == Payout(m.shares, total);
      assert (before + paid) + |miners| == (before + |rest|) + (paid + 1);
    }
  }

  lemma Distribute(k: nat, a: nat, b: nat)
    ensures k * (a + b) == k * a + k * b
    ensures (a + b) * k == a * k + b * k
  {
  }

  /** In any order the payouts sum to at most 99% of the reward, and to within one unit per miner if all can be paid. */
  lemma PayoutsSplitTheReward(pool: Bytes, miners: seq<Miner>, total: u64, sequence: u64, stamp: u64 -> Stamp)
    requires total > 0 && ProductsFit(miners) && TotalShares(miners) == total
    ensures var paid := Amounts(PayoutTxs(pool, miners, total, sequence, stamp));
      && paid <= TO_DISTRIBUTE
      && 100 * TO_DISTRIBUTE == 99 * TESTNET_REWARD
      && ((forall m :: m in miners ==> m.pubkey.Some?) ==> TO_DISTRIBUTE - paid < |miners|)
  {
    SplitBounds(pool, miners, total, sequence, stamp);
    var paid := Amounts(PayoutTxs(pool, miners, total, sequence, stamp));
    Cancel(paid, TO_DISTRIBUTE, total);
    Cancel(paid + |miners|, TO_DISTRIBUTE, total);
    assert miners != [];
  }

  lemma Cancel(a: nat, b: nat, k: nat)
    requires k > 0
    ensures a * k <= b * k ==> a <= b
    ensures b * k < a * k ==> b < a
  {
    if a > b { assert a * k >= (b + 1) * k == b * k + k; }
    if a <= b { assert a * k <= b * k; }
  }

  // ---- Who is paid ----

  /** What the transactions pay `k`. */
  function PaidTo(txs: seq<Transaction>, k: Bytes): nat {
    if txs == [] then 0 else PaidTo(Init(txs), k) + if Last(txs).recipient == k then Last(txs).amount else 0
  }

  /** What the round owes `k`: for each of its miners with that key, the rounded share of 99% of the reward. */
  function Due(miners: seq<Miner>, total: u64, k: Bytes): int
    requires total > 0
  {
    if miners == [] then 0
    else
      Due(Init(miners), total, k) +
      if Last(miners).pubkey == Some(k) then 15_691_500 * Last(miners).shares / total else 0
  }

  lemma {:induction false} NothingDue(miners: seq<Miner>, total: u64, k: Bytes)
    requires total > 0 && forall m :: m in miners ==> m.pubkey != Some(k)
    ensures Due(miners, total, k) == 0
  {
    if miners != [] {
      assert Last(miners) in miners;
      NothingDue(Init(miners), total, k);
    }
  }

  /** Every key is paid exactly what the round owes it, in any order; a key of no miner is paid nothing. */
  lemma {:induction false} PayoutsReachMiners(pool: Bytes, miners: seq<Miner>, total: u64, sequence: u64,
      stamp: u64 -> Stamp, k: Bytes)
    requires total > 0 && ProductsFit(miners)
    ensures PaidTo(PayoutTxs(pool, miners, total, sequence, stamp), k) == Due(miners, total, k)
    ensures (forall m :: m in miners ==> m.pubkey != Some(k)) ==>
      PaidTo(PayoutTxs(pool, miners, total, sequence, stamp), k) == 0
  {
    if forall m :: m in miners ==> m.pubkey != Some(k) { NothingDue(miners, total, k); }
    if miners != [] {
      hide PayoutTxs, PaidTo, Payout;
      assert forall i :: 0 <= i < |miners| - 1 ==> Init(miners)[i] == miners[i];
      PayoutsReachMiners(pool, Init(miners), total, sequence, stamp, k);
      OnePayout(pool, miners, total, sequence, stamp, k);
      PayoutIs(Last(miners).shares, total);
    }
  }

  lemma PayoutIs(shares: u64, total: u64)
    requires total > 0 && TO_DISTRIBUTE * shares < TWO64
    ensures Payout(shares, total) == 15_691_500 * shares / total
  {
    assert MulWord(TO_DISTRIBUTE, shares) == TO_DISTRIBUTE * shares == 15_691_500 * shares by {
      Fits(TO_DISTRIBUTE * shares);
    }
  }

  lemma Fits(n: nat)
    requires n < TWO64
    ensures n % TWO64 == n
  {
  }

  lemma OnePayout(pool: Bytes, miners: seq<Miner>, total: u64, sequence: u64, stamp: u64 -> Stamp, k: Bytes)
    requires total > 0 && miners != []
    ensures var m := Last(miners);
      PaidTo(PayoutTxs(pool, miners, total, sequence, stamp), k) ==
      PaidTo(PayoutTxs(pool, Init(miners), total, sequence, stamp), k) +
      if m.pubkey == Some(k) then Payout(m.shares, total) else 0
  {
    hide Payout;
    if IsPaid(Last(miners), total) {
      assert Init(PayoutTxs(pool, miners, total, sequence, stamp)) ==
        PayoutTxs(pool, Init(miners), total, sequence, stamp);
    }
  }

  /** Payouts are plain one-unit-fee transfers of the pool without memo, proved over 2,000 steps. */
  lemma {:induction false} PayoutsArePlain(pool: Bytes, miners: seq<Miner>, total: u64, sequence: u64,
      stamp: u64 -> Stamp)
    requires total > 0
    ensures forall tx :: tx in PayoutTxs(pool, miners, total, sequence, stamp) ==>
      && tx.version == 1 && tx.sender == pool && tx.fee == 1 && tx.amount > 0
      && tx.prevTxHash == ZERO_HASH && tx.data == [] && tx.poscSteps == 2_000
      && stamp(tx.sequence) == Stamp(tx.timestampMs, tx.poscProof, tx.signature)
  {
    hide Payout, Advance;
    if miners != [] { PayoutsArePlain(pool, Init(miners), total, sequence, stamp); }
  }

  /**
   * To anyone but their sender, transfers bring what they pay; the sender loses all amounts and one unit
   * of fee each.
   */
  lemma {:induction false} TransfersBring(txs: seq<Transaction>, pool: Bytes, k: Bytes)
    requires forall tx :: tx in txs ==> tx.sender == pool && tx.fee == 1
    ensures TxsDelta(txs, k) == PaidTo(txs, k) - if k == pool then Amounts(txs) + |txs| else 0
    decreases |txs|
  {
    if txs != [] {
      forall tx | tx in Init(txs) ensures tx.sender == pool && tx.fee == 1 { assert tx in txs; }
      assert Last(txs) in txs;
      TransfersBring(Init(txs), pool, k);
    }
  }

  lemma {:induction false} DeltaSplit(xs: seq<Transaction>, ys: seq<Transaction>, k: Bytes)
    ensures TxsDelta(xs + ys, k) == TxsDelta(xs, k) + TxsDelta(ys, k)
    decreases |ys|
  {
    if ys == [] {
      assert xs + ys == xs;
    } else {
      DeltaSplit(xs, Init(ys), k);
      assert Init(xs + ys) == xs + Init(ys);
    }
  }

  // ---- The block pays for its own payouts ----

  lemma {:induction false} PayoutTxsAreNumbered(pool: Bytes, miners: seq<Miner>, total: u64, sequence: u64,
      stamp: u64 -> Stamp)
    requires total > 0
    ensures var txs := PayoutTxs(pool, miners, total, sequence, stamp);
      forall i :: 0 <= i < |txs| ==>
        txs[i].sender == pool && txs[i].fee == 1 && txs[i].sequence == Advance(sequence, i)
  {
    hide Advance, IsPaid;
    if miners != [] {
      PayoutTxsAreNumbered(pool, Init(miners), total, sequence, stamp);
      var before := PayoutTxs(pool, Init(miners), total, sequence, stamp);
      var after := PayoutTxs(pool, miners, total, sequence, stamp);
      assert after == before || (|after| == |before| + 1 && after[..|before|] == before);
    }
  }

  /** Transactions of one sender that live validation expects next, in order. */
  predicate NumberedFrom(txs: seq<Transaction>, pool: Bytes, last: u64) {
    forall i :: 0 <= i < |txs| ==>
      txs[i].sender == pool && txs[i].fee == 1 && txs[i].sequence == Advance(last, i + 1)
  }

  /** While the sender can cover the whole list up front, live validation accepts all of it. */
  lemma {:induction false} NumberedTxsApply(env: Env, now: u64, l: Accounts, pool: Bytes, txs: seq<Transaction>)
    requires pool in l && Supply(l) < U64_MAX && NumberedFrom(txs, pool, Seq(l, pool))
    requires Amounts(txs) + |txs| <= Bal(l, pool)
    ensures var o := ApplyTxs(env, Live(now), l, txs);
      && o.applied == |txs|
      && Bal(o.ledger, pool) >= Bal(l, pool) - Amounts(txs) - |txs|
      && Seq(o.ledger, pool) == Advance(Seq(l, pool), |txs|)
      && pool in o.ledger && Supply(o.ledger) < U64_MAX
    decreases |txs|
  {
    hide Supply, Advance, Transfer;
    AdvanceSteps(Seq(l, pool), |txs|);
    if txs != [] {
      var rest, tx := Init(txs), Last(txs);
      assert forall i :: 0 <= i < |rest| ==> rest[i] == txs[i];
      NumberedTxsApply(env, now, l, pool, rest);
      var mid := ApplyTxs(env, Live(now), l, rest).ledger;
      AdvanceSteps(Seq(l, pool), |rest|);
      assert tx.sender == pool && tx.sequence == Advance(Seq(l, pool), |txs|) == WrapAdd(Seq(mid, pool), 1);
      NumberedTxApplies(env, now, mid, tx);
    }
  }

  lemma NumberedTxApplies(env: Env, now: u64, l: Accounts, tx: Transaction)
    requires tx.sender in l && Supply(l) < U64_MAX && tx.fee == 1
    requires tx.sequence == WrapAdd(Seq(l, tx.sender), 1) && tx.amount + 1 <= Bal(l, tx.sender)
    ensures var r := ApplyTxLive(env, l, tx);
      && r.Ok?
      && Bal(r.value, tx.sender) >= Bal(l, tx.sender) - tx.amount - 1
      && Seq(r.value, tx.sender) == tx.sequence
      && tx.sender in r.value && Supply(r.value) < U64_MAX
  {
    hide Supply;
    TransferEffect(env, l, tx, tx.sequence);
  }

  /**
   * Whatever the pool held before, the reward of the found block covers its own payouts: for up to
   * 158,500 paid miners, all payouts numbered on from the sequence `fetched` beforehand are accepted if
   * that is still the pool's sequence. With any other value not a single one is.
   */
  lemma PayoutsAreCovered(env: Env, now: u64, l: Accounts, pool: Bytes, fetched: u64, miners: seq<Miner>, total: u64,
      stamp: u64 -> Stamp)
    requires total > 0 && ProductsFit(miners) && TotalShares(miners) == total
    requires Supply(l) + TESTNET_REWARD < U64_MAX
    requires |PayoutTxs(pool, miners, total, WrapAdd(fetched, 1), stamp)| <= MAX_PAID
    ensures MAX_PAID == 158_500
    ensures var txs := PayoutTxs(pool, miners, total, WrapAdd(fetched, 1), stamp);
      ApplyTxs(env, Live(now), ApplyCoinbase(env, l, pool, TESTNET_REWARD), txs).applied
      == if fetched == Seq(l, pool) then |txs| else 0
  {
    hide PayoutTxs, ApplyTxs, Supply;
    if fetched == Seq(l, pool) {
      FreshPayoutsApply(env, now, l, pool, miners, total, stamp);
    } else {
      StalePayoutsFail(env, now, ApplyCoinbase(env, l, pool, TESTNET_REWARD), pool, fetched, miners, total, stamp, []);
      var txs := PayoutTxs(pool, miners, total, WrapAdd(fetched, 1), stamp);
      assert txs + [] == txs;
    }
  }

  /** Payouts numbered from a stale sequence stop the block at its first transaction. */
  lemma StalePayoutsFail(env: Env, now: u64, l: Accounts, pool: Bytes, fetched: u64, miners: seq<Miner>, total: u64,
      stamp: u64 -> Stamp, more: seq<Transaction>)
    requires total > 0 && fetched != Seq(l, pool)
    ensures var txs := PayoutTxs(pool, miners, total, WrapAdd(fetched, 1), stamp);
      txs != [] ==> ApplyTxs(env, Live(now), l, txs + more).applied == 0
  {
    hide PayoutTxs, Transfer;
    var txs := PayoutTxs(pool, miners, total, WrapAdd(fetched, 1), stamp);
    if txs != [] {
      PayoutTxsAreNumbered(pool, miners, total, WrapAdd(fetched, 1), stamp);
      AdvanceSteps(fetched, 0);
      var all := txs + more;
      assert all[..1] == [txs[0]] && Init(all[..1]) == [];
      assert ApplyTxs(env, Live(now), l, []) == TxsOutcome(0, l);
      assert ApplyTxLive(env, l, txs[0]).Err?;
      ApplyTxsStops(env, Live(now), l, all, 1);
    }
  }

  lemma FreshPayoutsApply(env: Env, now: u64, l: Accounts, pool: Bytes, miners: seq<Miner>, total: u64,
      stamp: u64 -> Stamp)
    requires total > 0 && ProductsFit(miners) && TotalShares(miners) == total
    requires Supply(l) + TESTNET_REWARD < U64_MAX
    requires |PayoutTxs(pool, miners, total, WrapAdd(Seq(l, pool), 1), stamp)| <= MAX_PAID
    ensures var txs := PayoutTxs(pool, miners, total, WrapAdd(Seq(l, pool), 1), stamp);
      ApplyTxs(env, Live(now), ApplyCoinbase(env, l, pool, TESTNET_REWARD), txs).applied == |txs|
  {
    hide Supply, PayoutTxs, Advance, ApplyTxs, ApplyCoinbase;
    var sequence := WrapAdd(Seq(l, pool), 1);
    var txs := PayoutTxs(pool, miners, total, sequence, stamp);
    var funded := ApplyCoinbase(env, l, pool, TESTNET_REWARD);
    CoinbaseEffect(env, l, pool, TESTNET_REWARD);
    PayoutTxsAreNumbered(pool, miners, total, sequence, stamp);
    PayoutsSplitTheReward(pool, miners, total, sequence, stamp);
    forall i | 0 <= i < |txs| ensures txs[i].sequence == Advance(Seq(funded, pool), i + 1) {
      AdvanceSteps(Seq(l, pool), i);
    }
    assert pool in funded by { CoinbaseInserts(env, l, pool); }
    NumberedTxsApply(env, now, funded, pool, txs);
  }

  lemma CoinbaseInserts(env: Env, l: Accounts, miner: Bytes)
    ensures miner in ApplyCoinbase(env, l, miner, TESTNET_REWARD)
  {
  }

  /** The block the pool submits: payouts first, then whatever the mempool holds. */
  function FinalBlock(candidate: Block, hash: Bytes, payouts: seq<Transaction>, mempool: seq<Transaction>): Block {
    candidate.(hash := hash, transactions := payouts + mempool)
  }

  /**
   * A pool block is refused because of its payouts exactly if it has any and they were numbered from a
   * sequence that is not the pool's: then none is paid and a block that passed the earlier checks is
   * rejected late. Otherwise a transaction that stops the block came from the mempool.
   */
  lemma PoolBlockPaysItsMiners(env: Env, now: u64, s: Node, candidate: Block, hash: Bytes, fetched: u64,
      miners: seq<Miner>,
      total: u64, stamp: u64 -> Stamp, mempool: seq<Transaction>)
    requires s.chain.Readable() && total > 0 && ProductsFit(miners) && TotalShares(miners) == total
    requires Supply(s.accounts) + TESTNET_REWARD < U64_MAX
    requires candidate.header.reward == TESTNET_REWARD
    requires |PayoutTxs(candidate.header.miner, miners, total, WrapAdd(fetched, 1), stamp)| <= MAX_PAID
    ensures var pool := candidate.header.miner;
      var payouts := PayoutTxs(pool, miners, total, WrapAdd(fetched, 1), stamp);
      var b := FinalBlock(candidate, hash, payouts, mempool);
      var applied := ApplyLedger(env, Live(now), s.accounts, b).applied;
      && (applied >= |payouts| <==> payouts == [] || fetched == Seq(s.accounts, pool))
      && (applied < |payouts| ==> applied == 0)
      && (Precheck(env, Live(now), s.chain, b) && applied < |payouts| ==> RejectsLate(env, Live(now), s, b))
      && (Precheck(env, Live(now), s.chain, b) && applied >= |payouts| && mempool == [] ==>
            Accepts(env, Live(now), s, b))
  {
    hide Supply, PayoutTxs, Precheck;
    var pool := candidate.header.miner;
    var payouts := PayoutTxs(pool, miners, total, WrapAdd(fetched, 1), stamp);
    var start, txs := ApplyCoinbase(env, s.accounts, pool, TESTNET_REWARD), payouts + mempool;
    PayoutsAreCovered(env, now, s.accounts, pool, fetched, miners, total, stamp);
    assert txs[..|payouts|] == payouts;
    if fetched == Seq(s.accounts, pool) {
      AppliedGrows(env, Live(now), start, txs, |payouts|);
    } else if payouts != [] {
      assert Seq(start, pool) == Seq(s.accounts, pool);
      StalePayoutsFail(env, now, start, pool, fetched, miners, total, stamp, mempool);
    }
  }

  /**
   * Once the block is accepted, every account has received exactly what the round owes it, and what the
   * mempool transactions moved; the pool keeps the rest of the reward.
   */
  lemma AcceptedBlockPaysMiners(env: Env, now: u64, s: Node, candidate: Block, hash: Bytes, fetched: u64,
      miners: seq<Miner>, total: u64, stamp: u64 -> Stamp, mempool: seq<Transaction>, k: Bytes)
    requires Sound(env, s.chain) && s.chain.height < U64_MAX && Supply(s.accounts) + TESTNET_REWARD < U64_MAX
    requires total > 0 && ProductsFit(miners)
    requires var payouts := PayoutTxs(candidate.header.miner, miners, total, WrapAdd(fetched, 1), stamp);
      Accepts(env, Live(now), s, FinalBlock(candidate, hash, payouts, mempool))
    ensures var pool := candidate.header.miner;
      var payouts := PayoutTxs(pool, miners, total, WrapAdd(fetched, 1), stamp);
      var after := Apply(env, Live(now), s, FinalBlock(candidate, hash, payouts, mempool)).accounts;
      Bal(after, k) == Bal(s.accounts, k) + Due(miners, total, k) + TxsDelta(mempool, k)
        + if k == pool then TESTNET_REWARD - Amounts(payouts) - |payouts| else 0
  {
    hide Supply, PayoutTxs, Due, Apply, Sound, HeaderOk, OnTime, Bal, LiveTxsOk, ProductsFit;
    var pool := candidate.header.miner;
    var payouts := PayoutTxs(pool, miners, total, WrapAdd(fetched, 1), stamp);
    var b := FinalBlock(candidate, hash, payouts, mempool);
    LiveDecides(env, now, s, b);
    PayoutsReachMiners(pool, miners, total, WrapAdd(fetched, 1), stamp, k);
    PayoutsArePlain(pool, miners, total, WrapAdd(fetched, 1), stamp);
    TransfersBring(payouts, pool, k);
    DeltaSplit(payouts, mempool, k);
    assert b.transactions[..|b.transactions|] == b.transactions == payouts + mempool;
    assert LiveInside(Apply(env, Live(now), s, b).accounts, s.accounts, pool, b.transactions);
  }

  lemma {:induction false} AppliedGrows(env: Env, mode: Mode, l: Accounts, txs: seq<Transaction>, n: nat)
    requires n <= |txs| && ApplyTxs(env, mode, l, txs[..n]).applied == n
    ensures ApplyTxs(env, mode, l, txs).applied >= n
    decreases |txs|
  {
    if n < |txs| {
      assert Init(txs)[..n] == txs[..n];
      AppliedGrows(env, mode, l, Init(txs), n);
    } else {
      assert txs[..n] == txs;
    }
  }

  // ---- The round and its payout loop ----

  ghost function Sum(shares: map<Bytes, u64>): nat {
    if shares == map[] then 0
    else
      var k :| k in shares;
      shares[k] + Sum(shares - {k})
  }

  lemma {:induction false} SumRemove(shares: map<Bytes, u64>, k: Bytes)
    requires k in shares
    ensures Sum(shares) == shares[k] + Sum(shares - {k})
  {
    var p :| p in shares && Sum(shares) == shares[p] + Sum(shares - {p});
    if p != k {
      SumRemove(shares - {p}, k);
      SumRemove(shares - {k}, p);
      assert shares - {p} - {k} == shares - {k} - {p};
    }
  }

  lemma OneMoreShare(shares: map<Bytes, u64>, address: Bytes)
    ensures var before := if address in shares then shares[address] else 0;
      Sum(shares[address := WrapAdd(before, 1)]) % TWO64 == WrapAdd(Sum(shares) % TWO64, 1)
  {
    hide Sum;
    var before := if address in shares then shares[address] else 0;
    var more := shares[address := WrapAdd(before, 1)];
    SumRemove(more, address);
    if address in shares { SumRemove(shares, address); }
    assert more - {address} == shares - {address};
    assert address !in shares ==> shares - {address} == shares;
    OneMore(Sum(shares - {address}), before);
  }

  lemma OneMore(rest: nat, before: u64)
    ensures (rest + WrapAdd(before, 1)) % TWO64 == WrapAdd((rest + before) % TWO64, 1)
  {
    var q, r := (rest + before) / TWO64, (rest + before) % TWO64;
    assert rest + before == q * TWO64 + r;
    if r + 1 == TWO64 {
      Modulus(if before + 1 < TWO64 then q + 1 else q, 0, rest + WrapAdd(before, 1));
    } else {
      Modulus(if before + 1 < TWO64 then q else q - 1, r + 1, rest + WrapAdd(before, 1));
    }
  }

  lemma Modulus(q: int, r: u64, n: int)
    requires n == q * TWO64 + r
    ensures n % TWO64 == r
  {
  }

  class Round {
    var shares: map<Bytes, u64>
    var totalShares: u64

    /** The total is the sum of the counts, in u64 arithmetic. */
    ghost predicate Valid()
      reads this
    {
      totalShares == Sum(shares) % TWO64
    }

    constructor ()
      ensures Valid() && shares == map[] && totalShares == 0
    {
      shares := map[];
      totalShares := 0;
    }

    /** Count one accepted share. */
    method AddShare(address: Bytes)
      requires Valid()
      modifies this
      ensures Valid() && totalShares == WrapAdd(old(totalShares), 1)
      ensures shares == old(shares)[address := WrapAdd(if address in old(shares) then old(shares)[address] else 0, 1)]
    {
      var before := if address in shares then shares[address] else 0;
      OneMoreShare(shares, address);
      shares := shares[address := WrapAdd(before, 1)];
      totalShares := WrapAdd(totalShares, 1);
    }

    /**
     * The payout loop over the round, in whatever order the map yields its miners. The ghost result
     * is that order; all laws of the split hold for every order.
     */
    method BuildPayoutTxs(pool: Bytes, pubkeys: map<Bytes, Bytes>, accountSequence: u64, stamp: u64 -> Stamp)
      returns (txs: seq<Transaction>, ghost order: seq<Miner>)
      requires Valid()
      ensures totalShares == 0 ==> txs == []
      ensures totalShares > 0 ==> txs == PayoutTxs(pool, order, totalShares, WrapAdd(accountSequence, 1), stamp)
      ensures totalShares > 0 ==> TotalShares(order) % TWO64 == totalShares && |order| == |shares|
      ensures totalShares > 0 ==> Enumerates(order, shares, pubkeys)
    {
      hide Advance, Payout, MulWord, Handled;
      txs, order := [], [];
      if totalShares == 0 {
        return;
      }
      var sequence := WrapAdd(accountSequence, 1);
      var left := shares;
      AdvanceSteps(sequence, 0);
      NothingHandled(shares, pubkeys);
      while left != map[]
        invariant Handled(order, left, shares, pubkeys)
        invariant txs == PayoutTxs(pool, order, totalShares, WrapAdd(accountSequence, 1), stamp)
        invariant sequence == Advance(WrapAdd(accountSequence, 1), |txs|)
        decreases |left|
      {
        var address :| address in left;
        var minerShares := left[address];
        ghost var miner := MinerAt(address, minerShares, pubkeys);
        HandleOne(order, left, shares, pubkeys, address);
        assert Init(order + [miner]) == order && Last(order + [miner]) == miner;
        AdvanceSteps(WrapAdd(accountSequence, 1), |txs|);
        order := order + [miner];
        left := left - {address};
        var payout := Payout(minerShares, totalShares);
        if payout == 0 || address !in pubkeys {
          continue;
        }
        txs := txs + [PayoutTx(pool, pubkeys[address], payout, sequence, stamp(sequence))];
        sequence := WrapAdd(sequence, 1);
      }
      AllHandled(order, left, shares, pubkeys);
    }
  }

  function MinerAt(address: Bytes, shares: u64, pubkeys: map<Bytes, Bytes>): Miner {
    Miner(address, shares, if address in pubkeys then Some(pubkeys[address]) else None)
  }

  /** The miners in `order` are done and those in `left` are not. */
  ghost predicate Handled(order: seq<Miner>, left: map<Bytes, u64>, shares: map<Bytes, u64>,
      pubkeys: map<Bytes, Bytes>) {
    && left.Keys <= shares.Keys && (forall k :: k in left ==> left[k] == shares[k])
    && TotalShares(order) + Sum(left) == Sum(shares) && |order| + |left| == |shares|
    && Enumerates(order, shares, pubkeys) && forall m :: m in order ==> m.address !in left
  }

  lemma NothingHandled(shares: map<Bytes, u64>, pubkeys: map<Bytes, Bytes>)
    ensures Handled([], shares, shares, pubkeys)
  {
  }

  lemma HandleOne(order: seq<Miner>, left: map<Bytes, u64>, shares: map<Bytes, u64>, pubkeys: map<Bytes,
      Bytes>, address: Bytes)
    requires Handled(order, left, shares, pubkeys) && address in left
    ensures left[address] == shares[address]
    ensures Handled(order + [MinerAt(address, left[address], pubkeys)], left - {address}, shares, pubkeys)
  {
    hide Sum;
    SumRemove(left, address);
    var m := MinerAt(address, left[address], pubkeys);
    assert Init(order + [m]) == order && Last(order + [m]) == m;
    assert |left - {address}| == |left| - 1 by { assert (left - {address}).Keys == left.Keys - {address}; }
  }

  lemma AllHandled(order: seq<Miner>, left: map<Bytes, u64>, shares: map<Bytes, u64>, pubkeys: map<Bytes, Bytes>)
    requires Handled(order, left, shares, pubkeys) && left == map[]
    ensures TotalShares(order) == Sum(shares) && |order| == |shares| && Enumerates(order, shares, pubkeys)
  {
  }

  /** Distinct miners of the round with their own counts and keys. */
  ghost predicate Enumerates(order: seq<Miner>, shares: map<Bytes, u64>, pubkeys: map<Bytes, Bytes>) {
    && (forall i, j :: 0 <= i < j < |order| ==> order[i].address != order[j].address)
    && (forall m :: m in order ==>
          && m.address in shares && m.shares == shares[m.address]
          && m.pubkey == if m.address in pubkeys then Some(pubkeys[m.address]) else None)
  }
}
