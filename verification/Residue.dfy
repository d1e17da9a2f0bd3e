/**
 * What the reward and the payments that a late refusal left in the ledger do afterwards: to the undo of
 * stored blocks, to the blocks downloaded next, and to the refused batch itself, which the handler of
 * downloaded blocks applies a second time.
 */
module Residue {
  import opened Primitives
  import opened Types
  import opened History
  import opened LedgerModel
  import opened LedgerLaws
  import opened ChainModel
  import opened ChainLaws
  import opened LiveRules
  import opened Runs
  import opened Sync

  // ---- Download on any ledger ----

  /** The balances and supply that the reward and `txs` make of `l`. */
  ghost predicate IbdInside(now: Accounts, l: Accounts, miner: Bytes, txs: seq<Transaction>) {
    && (forall k :: Bal(now, k) == Bal(l, k) + Mint(miner, k) + TxsDelta(txs, k))
    && Supply(now) == Supply(l) + TESTNET_REWARD - Fees(txs)
  }

  /** Download apply stopped exactly where `l` no longer covers the transactions. */
  ghost predicate StopsAtCover(o: TxsOutcome, l: Accounts, miner: Bytes, txs: seq<Transaction>) {
    && o.applied <= |txs|
    && (o.applied == |txs| <==> Covered(l, miner, txs))
    && Covered(l, miner, txs[..o.applied])
    && (o.applied < |txs| ==> !Covered(l, miner, txs[..o.applied + 1]))
    && IbdInside(o.ledger, l, miner, txs[..o.applied])
  }

  lemma IbdTxCovered(env: Env, now: Accounts, l: Accounts, miner: Bytes, txs: seq<Transaction>, tx: Transaction)
    requires Supply(l) + TESTNET_REWARD < U64_MAX && Covered(l, miner, txs) && IbdInside(now, l, miner, txs)
    ensures ApplyTxIbd(env, now, tx).Ok? <==> Covered(l, miner, txs + [tx])
    ensures ApplyTxIbd(env, now, tx).Ok? ==> IbdInside(ApplyTxIbd(env, now, tx).value, l, miner, txs + [tx])
  {
    hide Supply, Bal, Transfer, TxDelta;
    var txs' := txs + [tx];
    assert Init(txs') == txs && Last(txs') == tx;
    BalanceWithinSupply(now, tx.sender);
    if Bal(now, tx.sender) >= tx.TotalCost() { TransferEffect(env, now, tx, tx.sequence); }
  }

  lemma NothingToCover(l: Accounts, miner: Bytes)
    ensures Covered(l, miner, [])
  {
  }

  lemma CoverIsPrefixClosed(l: Accounts, miner: Bytes, txs: seq<Transaction>, tx: Transaction)
    ensures Covered(l, miner, txs + [tx]) ==> Covered(l, miner, txs)
  {
    assert Init(txs + [tx]) == txs;
  }

  lemma {:induction false} IbdTxsCovered(env: Env, start: Accounts, l: Accounts, miner: Bytes, txs: seq<Transaction>)
    requires Supply(l) + TESTNET_REWARD < U64_MAX && IbdInside(start, l, miner, [])
    ensures StopsAtCover(ApplyTxs(env, Ibd, start, txs), l, miner, txs)
    decreases |txs|
  {
    hide IbdInside, Supply, Covered;
    if txs == [] {
      assert txs[..0] == [];
      NothingToCover(l, miner);
    } else {
      var rest, tx := Init(txs), Last(txs);
      IbdTxsCovered(env, start, l, miner, rest);
      var o := ApplyTxs(env, Ibd, start, rest);
      assert rest + [tx] == txs && txs[..|txs|] == txs && rest[..|rest|] == rest && txs[..|rest|] == rest;
      if o.applied < |rest| {
        assert txs[..o.applied] == rest[..o.applied] && txs[..o.applied + 1] == rest[..o.applied + 1];
        CoverIsPrefixClosed(l, miner, rest, tx);
      } else {
        IbdTxCovered(env, o.ledger, l, miner, rest, tx);
      }
    }
  }

  /**
   * Download apply on any ledger, decided beforehand: a block is accepted exactly if its header follows
   * and the ledger covers its transactions; with a right header it is otherwise refused late, at the
   * first transaction that is not covered.
   */
  lemma IbdDecides(env: Env, s: Node, b: Block)
    requires Sound(env, s.chain) && s.chain.height < U64_MAX && Supply(s.accounts) + TESTNET_REWARD < U64_MAX
    ensures var bs, l, miner, txs := s.chain.Stored(), s.accounts, b.header.miner, b.transactions;
      && (Accepts(env, Ibd, s, b) <==> HeaderOk(env, bs, b) && Covered(l, miner, txs))
      && (RejectsLate(env, Ibd, s, b) <==> HeaderOk(env, bs, b) && !Covered(l, miner, txs))
      && (HeaderOk(env, bs, b) ==>
            && StopsAtCover(ApplyLedger(env, Ibd, l, b), l, miner, txs)
            && Apply(env, Ibd, s, b).accounts == ApplyLedger(env, Ibd, l, b).ledger)
  {
    hide Covered, LinkedHistory, ApplyTxs, IbdInside, Diff, Supply;
    PrecheckMeaning(env, Ibd, s.chain, b);
    if HeaderOk(env, s.chain.Stored(), b) {
      CoinbaseStartsIbd(env, s.accounts, b.header.miner);
      IbdTxsCovered(env, ApplyCoinbase(env, s.accounts, b.header.miner, TESTNET_REWARD), s.accounts,
        b.header.miner, b.transactions);
    }
  }

  lemma CoinbaseStartsIbd(env: Env, l: Accounts, miner: Bytes)
    requires Supply(l) + TESTNET_REWARD < U64_MAX
    ensures IbdInside(ApplyCoinbase(env, l, miner, TESTNET_REWARD), l, miner, [])
  {
    hide Supply;
    CoinbaseEffect(env, l, miner, TESTNET_REWARD);
  }

  // ---- A ledger with a residue ----

  /** The residue: a reward for `m` and the payments `part`, which belong to no stored block. */
  datatype Left = Left(m: Bytes, part: seq<Transaction>)

  function Extra(x: Left, k: Bytes): int {
    Mint(x.m, k) + TxsDelta(x.part, k)
  }

  /** The chain is in order, and the ledger is that of its blocks plus the residue. */
  ghost predicate Residual(env: Env, s: Node, x: Left)
    ensures Residual(env, s, x) ==> s.chain.Readable() && Consistent(env, s.chain)
  {
    Consistent(env, s.chain) && TracksInside(env, s.accounts, s.chain.Stored(), x.m, x.part)
  }

  /** What a late refusal during download leaves. */
  function LeftBy(env: Env, bs: seq<Block>, b: Block): Left {
    Left(b.header.miner, b.transactions[..FundedCount(env, bs, b.header.miner, b.transactions)])
  }

  // ---- Undo over a residue ----

  /** The ledger inside the block after `bs`, plus the residue. */
  ghost predicate TracksOver(env: Env, l: Accounts, bs: seq<Block>, miner: Bytes, txs: seq<Transaction>, x: Left)
    requires bs != []
  {
    && (forall k :: Bal(l, k) == Available(env, bs, miner, txs, k) + Extra(x, k))
    && Supply(l) == Circulating(bs) + 2 * TESTNET_REWARD - Fees(txs) - Fees(x.part)
  }

  /** At each point where a transaction is undone, its recipient still holds the amount in spite of the residue. */
  predicate UndoCoveredTxs(env: Env, bs: seq<Block>, miner: Bytes, txs: seq<Transaction>, x: Left) {
    txs == [] ||
    (&& UndoCoveredTxs(env, bs, miner, Init(txs), x)
     && Last(txs).amount <= Available(env, bs, miner, txs, Last(txs).recipient) + Extra(x, Last(txs).recipient))
  }

  lemma UndoOneOver(env: Env, l: Accounts, bs: seq<Block>, miner: Bytes, txs: seq<Transaction>, x: Left)
    requires bs != [] && |bs| < MAX_HEIGHT && txs != [] && TracksOver(env, l, bs, miner, txs, x)
    ensures Bal(l, Last(txs).recipient) >= Last(txs).amount ==>
      && UndoesExactly(l, Last(txs))
      && TracksOver(env, RevertTx(l, Last(txs)), bs, miner, Init(txs), x)
  {
    hide Supply, NetBalance, RevertTx, TxDelta, Extra;
    var tx := Last(txs);
    RoomForTwo(bs);
    BalanceWithinSupply(l, tx.recipient);
    BalanceWithinSupply(l, tx.sender);
    if Bal(l, tx.recipient) >= tx.amount {
      RevertEffect(l, tx);
      BalanceWithinSupply(RevertTx(l, tx), tx.sender);
      UndoesExactlyFrom(l, tx);
    }
  }

  lemma UndoesExactlyFrom(l: Accounts, tx: Transaction)
    requires Bal(l, tx.recipient) >= tx.amount && tx.amount + tx.fee < U64_MAX
    requires Bal(RevertTx(l, tx), tx.sender) <= U64_MAX - 1
    requires forall k :: Bal(RevertTx(l, tx), k) == Bal(l, k) - TxDelta(tx, k)
    ensures UndoesExactly(l, tx)
  {
    assert Bal(RevertTx(l, tx), tx.sender) == Bal(l, tx.sender) - TxDelta(tx, tx.sender);
  }

  lemma RoomForTwo(bs: seq<Block>)
    requires bs != [] && |bs| < MAX_HEIGHT
    ensures Circulating(bs) + 2 * TESTNET_REWARD < U64_MAX
  {
  }

  /** No step of undoing `txs` takes more from a recipient than it holds. */
  ghost predicate ExactUndo(l: Accounts, txs: seq<Transaction>) {
    forall n :: 0 < n <= |txs| ==> Bal(RevertTxs(l, txs[n..]), txs[n - 1].recipient) >= txs[n - 1].amount
  }

  lemma ExactUndoLast(l: Accounts, txs: seq<Transaction>)
    requires txs != []
    ensures ExactUndo(l, txs) <==>
      Bal(l, Last(txs).recipient) >= Last(txs).amount && ExactUndo(RevertTx(l, Last(txs)), Init(txs))
  {
    hide Bal, RevertTx;
    var l1, rest := RevertTx(l, Last(txs)), Init(txs);
    assert txs[|txs|..] == [];
    assert RevertTxs(l, txs[|txs|..]) == l;
    forall n | 0 < n <= |rest| ensures RevertTxs(l, txs[n..]) == RevertTxs(l1, rest[n..]) && txs[n - 1] == rest[n - 1] {
      assert Init(txs[n..]) == rest[n..] && Last(txs[n..]) == Last(txs);
    }
    if ExactUndo(l, txs) {
      assert Bal(RevertTxs(l, txs[|txs|..]), txs[|txs| - 1].recipient) >= txs[|txs| - 1].amount;
      forall n | 0 < n <= |rest| ensures Bal(RevertTxs(l1, rest[n..]), rest[n - 1].recipient) >= rest[n - 1].amount {
        assert Bal(RevertTxs(l, txs[n..]), txs[n - 1].recipient) >= txs[n - 1].amount;
      }
    }
  }

  /**
   * Undoing a block's transactions over a residue is exact exactly if the residue leaves every recipient
   * its amount.
   */
  lemma {:induction false} UndoTxsOver(env: Env, l: Accounts, bs: seq<Block>, miner: Bytes,
      txs: seq<Transaction>, x: Left)
    requires bs != [] && |bs| < MAX_HEIGHT && TracksOver(env, l, bs, miner, txs, x)
    ensures ExactUndo(l, txs) <==> UndoCoveredTxs(env, bs, miner, txs, x)
    ensures UndoCoveredTxs(env, bs, miner, txs, x) ==> TracksOver(env, RevertTxs(l, txs), bs, miner, [], x)
    decreases |txs|
  {
    hide Available, Extra, Supply, RevertTx, UndoesExactly;
    if txs != [] {
      UndoOneOver(env, l, bs, miner, txs, x);
      hide ExactUndo;
      ExactUndoLast(l, txs);
      if Bal(l, Last(txs).recipient) >= Last(txs).amount {
        UndoTxsOver(env, RevertTx(l, Last(txs)), bs, miner, Init(txs), x);
      }
    }
  }

  /** The residue leaves every recipient of the block its amount, and its miner the reward. */
  predicate UndoCovered(env: Env, bs: seq<Block>, b: Block, x: Left) {
    && UndoCoveredTxs(env, bs, b.header.miner, b.transactions, x)
    && TESTNET_REWARD <= Available(env, bs, b.header.miner, [], b.header.miner) + Extra(x, b.header.miner)
  }

  /** No subtraction of undoing the block saturates. */
  ghost predicate ExactRevert(l: Accounts, b: Block) {
    ExactUndo(l, b.transactions) && Bal(RevertTxs(l, b.transactions), b.header.miner) >= b.header.reward
  }

  lemma InsideIsOver(env: Env, l: Accounts, bs: seq<Block>, b: Block, x: Left)
    requires bs != []
    ensures TracksInside(env, l, bs + [b], x.m, x.part) <==>
      TracksOver(env, l, bs, b.header.miner, b.transactions, x)
  {
    hide Supply;
    assert Init(bs + [b]) == bs && Last(bs + [b]) == b;
    forall k ensures Available(env, bs + [b], x.m, x.part, k)
        == Available(env, bs, b.header.miner, b.transactions, k) + Extra(x, k)
    {
      assert NetBalance(env, bs + [b], k) == Available(env, bs, b.header.miner, b.transactions, k);
    }
    assert Circulating(bs + [b]) == Circulating(bs) + TESTNET_REWARD - Fees(b.transactions);
  }

  lemma UndoBlockOver(env: Env, l: Accounts, bs: seq<Block>, b: Block, x: Left)
    requires bs != [] && |bs| < MAX_HEIGHT && b.header.reward == TESTNET_REWARD
    requires TracksInside(env, l, bs + [b], x.m, x.part)
    ensures ExactRevert(l, b) <==> UndoCovered(env, bs, b, x)
    ensures UndoCovered(env, bs, b, x) ==> TracksInside(env, RevertLedger(l, b), bs, x.m, x.part)
  {
    hide Supply, ExactUndo, UndoCoveredTxs, TracksInside;
    InsideIsOver(env, l, bs, b, x);
    UndoTxsOver(env, l, bs, b.header.miner, b.transactions, x);
    if UndoCovered(env, bs, b, x) {
      var l' := RevertTxs(l, b.transactions);
      assert Bal(l', b.header.miner)
          == Available(env, bs, b.header.miner, [], b.header.miner) + Extra(x, b.header.miner);
      RevertCoinbaseEffect(l', b.header.miner, TESTNET_REWARD);
      RewardUndone(env, l', RevertLedger(l, b), bs, b.header.miner, x);
    }
  }

  lemma RewardUndone(env: Env, l: Accounts, l': Accounts, bs: seq<Block>, miner: Bytes, x: Left)
    requires bs != [] && TracksOver(env, l, bs, miner, [], x)
    requires forall k :: Bal(l', k) == Bal(l, k) - if k == miner then TESTNET_REWARD else 0
    requires Supply(l') == Supply(l) - TESTNET_REWARD
    ensures TracksInside(env, l', bs, x.m, x.part)
  {
    hide Supply, Bal;
    forall k ensures Bal(l', k) == Available(env, bs, x.m, x.part, k) {
      assert Available(env, bs, miner, [], k) == NetBalance(env, bs, k) + Mint(miner, k) + TxsDelta([], k);
    }
    assert Fees([]) == 0;
  }

  /**
   * After a late rejection, live or downloading, the undo of the tip is exact if and only if the
   * residue leaves every recipient what it received and the miner its reward. Otherwise a subtraction
   * saturates and the undo creates coins.
   */
  lemma UndoAfterLateRejection(env: Env, mode: Mode, s: Node, b: Block)
    requires Synced(env, s) && 0 < s.chain.height && s.chain.height + 1 < MAX_HEIGHT && RejectsLate(env, mode, s, b)
    ensures var s', tip, bs := Apply(env, mode, s, b), s.chain.Tip(), Init(s.chain.Stored());
      var x := Left(b.header.miner, b.transactions[..ApplyLedger(env, mode, s.accounts, b).applied]);
      && s'.chain == s.chain
      && (ExactRevert(s'.accounts, tip) <==> UndoCovered(env, bs, tip, x))
      && (UndoCovered(env, bs, tip, x) ==> TracksInside(env, RevertTip(s').accounts, bs, x.m, x.part))
  {
    var x := Left(b.header.miner, b.transactions[..ApplyLedger(env, mode, s.accounts, b).applied]);
    hide Synced, RejectsLate, ExactRevert, UndoCovered, TracksInside, ApplyLedger, Truncate, RevertLedger;
    LateResidueTracks(env, mode, s, b);
    KeepsChain(env, mode, s, b);
    TipFollows(env, s);
    UndoBlockOver(env, Apply(env, mode, s, b).accounts, Init(s.chain.Stored()), s.chain.Tip(), x);
  }

  lemma KeepsChain(env: Env, mode: Mode, s: Node, b: Block)
    requires s.chain.Readable() && RejectsLate(env, mode, s, b)
    ensures Apply(env, mode, s, b).chain == s.chain
  {
  }

  lemma TipFollows(env: Env, s: Node)
    requires Consistent(env, s.chain) && s.chain.height > 0
    ensures s.chain.Stored() == Init(s.chain.Stored()) + [s.chain.Tip()] && |Init(s.chain.Stored())| == s.chain.height
    ensures HeaderOk(env, Init(s.chain.Stored()), s.chain.Tip()) && s.chain.Tip().header.reward == TESTNET_REWARD
  {
  }

  /** A subtraction that saturates creates exactly what the recipient lacked. */
  lemma SaturationCreates(l: Accounts, tx: Transaction)
    requires Bal(l, tx.recipient) < tx.amount
    requires Bal(l, tx.sender) + tx.amount + tx.fee < TWO64
    ensures Supply(RevertTx(l, tx)) == Supply(l) + tx.fee + (tx.amount - Bal(l, tx.recipient))
  {
    hide Supply;
    var r := Entry(l, tx.recipient);
    var undo := r.(balance := 0);
    var undone := l[tx.recipient := undo];
    SupplyUpdate(l, tx.recipient, undo);
    var s := Entry(undone, tx.sender);
    SupplyUpdate(undone, tx.sender,
      s.(balance := WrapAdd(s.balance, tx.TotalCost()), sequence := SatSub(s.sequence, 1)));
  }

  // ---- Undoing several blocks ----

  predicate UndoCoveredTo(env: Env, bs: seq<Block>, n: nat, x: Left) {
    |bs| <= n || |bs| <= 1 || (UndoCovered(env, Init(bs), Last(bs), x) && UndoCoveredTo(env, Init(bs), n, x))
  }

  /** No subtraction saturates on the way down to `target`. */
  ghost predicate ExactDown(s: Node, target: u64)
    requires s.chain.Readable()
    decreases s.chain.height
  {
    s.chain.height <= target || (ExactRevert(s.accounts, s.chain.Tip()) && ExactDown(RevertTip(s), target))
  }

  lemma RevertTipOver(env: Env, s: Node, x: Left)
    requires Residual(env, s, x) && 0 < s.chain.height && s.chain.height < MAX_HEIGHT
    ensures ExactRevert(s.accounts, s.chain.Tip()) <==> UndoCovered(env, Init(s.chain.Stored()), s.chain.Tip(), x)
    ensures UndoCovered(env, Init(s.chain.Stored()), s.chain.Tip(), x) ==> Residual(env, RevertTip(s), x)
    ensures RevertTip(s).chain.Stored() == Init(s.chain.Stored())
  {
    hide Consistent, ExactRevert, UndoCovered, TracksInside, Truncate, RevertLedger;
    TruncateConsistent(env, s.chain);
    TipFollows(env, s);
    UndoBlockOver(env, s.accounts, Init(s.chain.Stored()), s.chain.Tip(), x);
  }

  /**
   * The way down over a residue is exact exactly if every block on it is covered, and the residue then
   * stays the same.
   */
  lemma {:induction false} RevertDownOver(env: Env, s: Node, target: u64, x: Left)
    requires Residual(env, s, x) && s.chain.height < MAX_HEIGHT
    ensures ExactDown(s, target) <==> UndoCoveredTo(env, s.chain.Stored(), target + 1, x)
    ensures ExactDown(s, target) ==> Residual(env, RevertDown(s, target), x)
    decreases s.chain.height
  {
    hide Residual, ExactRevert, UndoCovered, RevertTip;
    assert |s.chain.Stored()| == s.chain.height + 1;
    if s.chain.height > target {
      RevertTipOver(env, s, x);
      assert Last(s.chain.Stored()) == s.chain.Tip();
      if ExactRevert(s.accounts, s.chain.Tip()) { RevertDownOver(env, RevertTip(s), target, x); }
    }
  }

  /** A residue that takes from nobody never disturbs the undo; the bare reward is one. */
  lemma {:induction false} GenerousResidue(env: Env, bs: seq<Block>, n: nat, x: Left)
    requires FundedHistory(env, bs) && forall k :: Extra(x, k) >= 0
    ensures UndoCoveredTo(env, bs, n, x)
  {
    hide Extra, Available;
    if |bs| > n && |bs| > 1 {
      GenerousResidue(env, Init(bs), n, x);
      GenerousTxs(env, Init(bs), Last(bs).header.miner, Last(bs).transactions, x);
      RewardIsThere(env, Init(bs), Last(bs).header.miner);
    }
  }

  lemma {:induction false} GenerousTxs(env: Env, bs: seq<Block>, miner: Bytes, txs: seq<Transaction>, x: Left)
    requires FundedHistory(env, bs) && FundedTxs(env, bs, miner, txs) && forall k :: Extra(x, k) >= 0
    ensures UndoCoveredTxs(env, bs, miner, txs, x)
    decreases |txs|
  {
    hide Extra, NetBalance;
    if txs != [] {
      var tx := Last(txs);
      GenerousTxs(env, bs, miner, Init(txs), x);
      AvailableNonNegative(env, bs, miner, Init(txs), tx.recipient);
      assert Extra(x, tx.recipient) >= 0;
      assert Available(env, bs, miner, txs, tx.recipient)
          == Available(env, bs, miner, Init(txs), tx.recipient) + TxDelta(tx, tx.recipient);
    }
  }

  lemma RewardIsThere(env: Env, bs: seq<Block>, miner: Bytes)
    requires FundedHistory(env, bs)
    ensures TESTNET_REWARD <= Available(env, bs, miner, [], miner)
  {
    BalanceNonNegative(env, bs, miner);
  }

  // ---- Download over a residue ----

  /** Each transaction is covered by its sender's funds at its own position in the block, residue included. */
  predicate FundedOver(env: Env, bs: seq<Block>, miner: Bytes, txs: seq<Transaction>, x: Left) {
    txs == [] ||
    (&& FundedOver(env, bs, miner, Init(txs), x)
     && Last(txs).amount + Last(txs).fee <=
          Available(env, bs, miner, Init(txs), Last(txs).sender) + Extra(x, Last(txs).sender))
  }

  lemma {:induction false} CoveredIsFundedOver(env: Env, l: Accounts, bs: seq<Block>, miner: Bytes,
      txs: seq<Transaction>, x: Left)
    requires forall k :: Bal(l, k) == NetBalance(env, bs, k) + Extra(x, k)
    ensures Covered(l, miner, txs) <==> FundedOver(env, bs, miner, txs, x)
    decreases |txs|
  {
    hide NetBalance, Bal, Extra;
    if txs != [] { CoveredIsFundedOver(env, l, bs, miner, Init(txs), x); }
  }

  lemma ResidualBalances(env: Env, s: Node, x: Left)
    requires Residual(env, s, x) && s.chain.height + 1 < MAX_HEIGHT
    ensures forall k :: Bal(s.accounts, k) == NetBalance(env, s.chain.Stored(), k) + Extra(x, k)
    ensures Supply(s.accounts) + TESTNET_REWARD < U64_MAX
    ensures Sound(env, s.chain)
  {
    hide Supply, NetBalance, Diff, LinkedHistory, Snapshots;
    RoomForTwo(s.chain.Stored());
    forall k ensures Bal(s.accounts, k) == NetBalance(env, s.chain.Stored(), k) + Extra(x, k) {
      assert Bal(s.accounts, k) == Available(env, s.chain.Stored(), x.m, x.part, k);
    }
  }

  /** Over a residue download accepts exactly the blocks with a right header that history and residue together fund. */
  lemma ResidualAccepts(env: Env, s: Node, b: Block, x: Left)
    requires Residual(env, s, x) && s.chain.height + 1 < MAX_HEIGHT
    ensures Accepts(env, Ibd, s, b) <==>
      HeaderOk(env, s.chain.Stored(), b) && FundedOver(env, s.chain.Stored(), b.header.miner, b.transactions, x)
    ensures Accepts(env, Ibd, s, b) ==>
      Residual(env, Apply(env, Ibd, s, b), x) && Apply(env, Ibd, s, b).chain.Stored() == s.chain.Stored() + [b]
  {
    hide HeaderOk, FundedOver, Covered, Sound, Apply, ApplyLedger, TracksInside, Precheck, Snapshots,
      IbdInside, Residual,
      Consistent;
    var bs := s.chain.Stored();
    ResidualBalances(env, s, x);
    IbdDecides(env, s, b);
    CoveredIsFundedOver(env, s.accounts, bs, b.header.miner, b.transactions, x);
    if Accepts(env, Ibd, s, b) {
      ResidualIsConsistent(env, s, x);
      ApplyConsistent(env, Ibd, s, b);
      assert b.transactions[..|b.transactions|] == b.transactions;
      ResidualNext(env, s, Apply(env, Ibd, s, b), b, x);
    }
  }

  lemma ResidualIsConsistent(env: Env, s: Node, x: Left)
    requires Residual(env, s, x)
    ensures Consistent(env, s.chain)
  {
  }

  lemma ResidualNext(env: Env, s: Node, s': Node, b: Block, x: Left)
    requires Residual(env, s, x) && Consistent(env, s'.chain) && s'.chain.Stored() == s.chain.Stored() + [b]
    requires IbdInside(s'.accounts, s.accounts, b.header.miner, b.transactions)
    ensures Residual(env, s', x)
  {
    hide Supply, Consistent, Bal;
    var bs := s.chain.Stored();
    InsideIsOver(env, s'.accounts, bs, b, x);
    forall k ensures Bal(s'.accounts, k) == Available(env, bs, b.header.miner, b.transactions, k) + Extra(x, k) {
      assert Bal(s.accounts, k) == Available(env, bs, x.m, x.part, k);
    }
  }

  /** Each block of the batch follows in its header and is funded by history and residue together. */
  predicate ContinuesOver(env: Env, bs: seq<Block>, blocks: seq<Block>, x: Left)
    requires bs != []
  {
    blocks == [] ||
    (&& ContinuesOver(env, bs, Init(blocks), x)
     && var before, b := bs + Init(blocks), Last(blocks);
        HeaderOk(env, before, b) && FundedOver(env, before, b.header.miner, b.transactions, x))
  }

  lemma NothingContinues(env: Env, bs: seq<Block>, x: Left)
    requires bs != []
    ensures ContinuesOver(env, bs, [], x)
  {
  }

  lemma ContinuesNext(env: Env, bs: seq<Block>, blocks: seq<Block>, b: Block, x: Left)
    requires bs != []
    ensures ContinuesOver(env, bs, blocks + [b], x) <==>
      && ContinuesOver(env, bs, blocks, x) && HeaderOk(env, bs + blocks, b)
      && FundedOver(env, bs + blocks, b.header.miner, b.transactions, x)
  {
    assert Init(blocks + [b]) == blocks && Last(blocks + [b]) == b;
  }

  /** Over a residue a batch is applied exactly as far as it continues the history with the residue's help. */
  lemma {:induction false} BatchOver(env: Env, s: Node, blocks: seq<Block>, x: Left)
    requires Residual(env, s, x) && s.chain.height + |blocks| + 1 < MAX_HEIGHT
    ensures var o, bs := ApplyBatch(env, s, blocks), s.chain.Stored();
      && (o.applied == |blocks| <==> ContinuesOver(env, bs, blocks, x))
      && ContinuesOver(env, bs, blocks[..o.applied], x)
      && (o.applied < |blocks| ==> !ContinuesOver(env, bs, blocks[..o.applied + 1], x))
      && (o.applied == |blocks| ==> Residual(env, o.node, x) && o.node.chain.Stored() == bs + blocks)
    decreases |blocks|
  {
    hide HeaderOk, FundedOver, Apply, Accepts, Residual, ContinuesOver;
    var bs := s.chain.Stored();
    if blocks == [] {
      assert bs + blocks == bs && blocks[..0] == [];
      NothingContinues(env, bs, x);
    } else {
      var rest, b := Init(blocks), Last(blocks);
      BatchOver(env, s, rest, x);
      var o := ApplyBatch(env, s, rest);
      assert blocks[..|blocks|] == blocks && rest[..|rest|] == rest && blocks[..|rest|] == rest;
      ContinuesNext(env, bs, rest, b, x);
      assert rest + [b] == blocks;
      if o.applied < |rest| {
        assert blocks[..o.applied] == rest[..o.applied] && blocks[..o.applied + 1] == rest[..o.applied + 1];
      } else {
        assert bs + rest + [b] == bs + blocks;
        ReadableHeight(o.node.chain, s.chain, rest);
        ResidualAccepts(env, o.node, b, x);
      }
    }
  }

  // ---- The handler after a late refusal ----

  /** The node after the first pass: the good part of the batch, and what the refused block left. */
  lemma FirstPass(env: Env, s: Node, blocks: seq<Block>, k: nat)
    requires Synced(env, s) && s.chain.height + |blocks| + 1 < MAX_HEIGHT && k < |blocks|
    requires ValidHistory(env, s.chain.Stored() + blocks[..k])
    requires var kept, b := s.chain.Stored() + blocks[..k], blocks[k];
      HeaderOk(env, kept, b) && !FundedTxs(env, kept, b.header.miner, b.transactions)
    ensures var o, kept := ApplyBatch(env, s, blocks), s.chain.Stored() + blocks[..k];
      && o.applied == k && Residual(env, o.node, LeftBy(env, kept, blocks[k]))
      && o.node.chain.Stored() == kept && o.node.chain.height == s.chain.height + k
  {
    hide ValidHistory, Synced, Consistent, Apply, HeaderOk, FundedTxs, TracksInside, ApplyBatch;
    var kept, b := s.chain.Stored() + blocks[..k], blocks[k];
    NotNext(env, kept, b);
    assert kept + [b] == s.chain.Stored() + blocks[..k + 1];
    BatchStopsAtInvalid(env, s, blocks, k);
    BatchResidue(env, s, blocks, k);
    SyncedIsConsistent(env, s);
    BatchConsistent(env, s, blocks);
    ReadableHeight(ApplyBatch(env, s, blocks).node.chain, s.chain, blocks[..k]);
  }

  /** Going back over the applied part, exactly, gives the old chain with the same residue. */
  lemma BackOver(env: Env, s: Node, h: u64, x: Left)
    requires Residual(env, s, x) && h <= s.chain.height < MAX_HEIGHT && MayRevertTo(env, s, h)
    requires UndoCoveredTo(env, s.chain.Stored(), h + 1, x)
    ensures var r := RevertToHeight(env, s, h);
      Residual(env, r, x) && r.chain.Stored() == s.chain.Stored()[..h + 1] && r.chain.height == h
  {
    hide Consistent, TracksInside, RevertDown, Anchor, UndoCoveredTo;
    RevertDownOver(env, s, h, x);
    RevertToHeightCuts(env, s, h);
    ResetIsIdle(env, RevertDown(s, h).chain);
    assert RevertDown(s, h).(chain := RevertDown(s, h).chain) == RevertDown(s, h);
  }

  /** A batch was adopted as far as history and residue fund it. */
  ghost predicate AdoptsOver(env: Env, o: BatchOutcome, bs: seq<Block>, blocks: seq<Block>, x: Left)
    requires bs != []
  {
    && o.applied <= |blocks|
    && o.node.chain.Readable() && o.node.chain.Stored() == bs + blocks[..o.applied]
    && ContinuesOver(env, bs, blocks[..o.applied], x)
    && (o.applied < |blocks| ==> !ContinuesOver(env, bs, blocks[..o.applied + 1], x))
    && (o.applied == |blocks| <==> ContinuesOver(env, bs, blocks, x))
    && (o.applied == |blocks| ==> Residual(env, o.node, x))
  }

  /** The second pass, once the way back has reached the old tip. */
  lemma SecondPass(env: Env, r: Node, bs: seq<Block>, blocks: seq<Block>, x: Left)
    requires Residual(env, r, x) && bs != [] && r.chain.Stored() == bs
    requires r.chain.height + |blocks| + 1 < MAX_HEIGHT
    ensures AdoptsOver(env, ApplyBatch(env, r, blocks), bs, blocks, x)
  {
    hide Consistent, ApplyBatch, Residual, ContinuesOver;
    BatchOver(env, r, blocks, x);
    ResidualIsConsistent(env, r, x);
    BatchConsistent(env, r, blocks);
  }

  /**
   * The height the handler goes back to after `k` blocks of the batch were applied: our own at the end if
   * it may not.
   */
  function GoesBackTo(env: Env, s: Node, blocks: seq<Block>, k: nat): (target: nat)
    requires s.chain.Readable()
  {
    var h, anchor := s.chain.height, Anchor(env.checkpoints, SatSub(s.chain.height, 1));
    if RollsBack(env, s, blocks, k) then (if anchor >= Anchor(env.checkpoints, h) then anchor else h)
    else if MayRetry(env, s, blocks, k) then h
    else h + k
  }

  lemma GoesBackWithin(env: Env, s: Node, blocks: seq<Block>, k: nat)
    requires s.chain.Readable() && s.chain.height + k <= U64_MAX
    ensures RollsBack(env, s, blocks, k) ==> k == 0
    ensures MayRetry(env, s, blocks, k) ==> s.chain.height >= Anchor(env.checkpoints, s.chain.height + k)
    ensures var anchor := Anchor(env.checkpoints, SatSub(s.chain.height, 1));
      GoesBackTo(env, s, blocks, k) ==
        if RollsBack(env, s, blocks, k) then
          (if anchor >= Anchor(env.checkpoints, s.chain.height) then anchor else s.chain.height)
        else if MayRetry(env, s, blocks, k) then s.chain.height
        else s.chain.height + k
  {
    hide Anchor;
  }

  lemma RollBackOver(env: Env, s: Node, anchor: u64, x: Left)
    requires Residual(env, s, x) && anchor <= s.chain.height < MAX_HEIGHT
    requires var target := if anchor >= Anchor(env.checkpoints, s.chain.height) then anchor else s.chain.height;
      UndoCoveredTo(env, s.chain.Stored(), target + 1, x)
    ensures var target := if anchor >= Anchor(env.checkpoints, s.chain.height) then anchor else s.chain.height;
      var r := BackTo(env, s, anchor, 0).node;
      Residual(env, r, x) && r.chain.Stored() == s.chain.Stored()[..target + 1]
  {
    hide Residual, UndoCoveredTo, RevertToHeight, Anchor;
    assert s.chain.Stored()[..s.chain.height + 1] == s.chain.Stored();
    if anchor >= Anchor(env.checkpoints, s.chain.height) {
      BackOver(env, s, anchor, x);
    } else {
      ResidualIsConsistent(env, s, x);
      RevertToHeightCuts(env, s, anchor);
    }
  }

  /**
   * The handler on a batch that continues our tip and whose first bad block is refused late. Unless it
   * rolls back or may not undo, it goes back to the old tip and applies the batch again with the
   * refused reward in the ledger: it ends on the longest part that history and residue fund, and so
   * adopts an invalid batch whole exactly if they fund all of it. Stated where the way back is exact,
   * which it is exactly under the last condition (`RevertDownOver`).
   */
  lemma ForwardRefusedLate(env: Env, s: Node, blocks: seq<Block>, peerHeight: Option<u64>, k: nat)
    requires Synced(env, s) && ContinuesTip(s, blocks) && s.chain.height + |blocks| + 2 < MAX_HEIGHT && k < |blocks|
    requires ValidHistory(env, s.chain.Stored() + blocks[..k])
    requires var kept, b := s.chain.Stored() + blocks[..k], blocks[k];
      HeaderOk(env, kept, b) && !FundedTxs(env, kept, b.header.miner, b.transactions)
    requires var kept := s.chain.Stored() + blocks[..k];
      UndoCoveredTo(env, kept, GoesBackTo(env, s, blocks, k) + 1, LeftBy(env, kept, blocks[k]))
    ensures var bs, o := s.chain.Stored(), HandleBlocks(env, s, blocks, peerHeight);
      var x := LeftBy(env, bs + blocks[..k], blocks[k]);
      if RollsBack(env, s, blocks, k) then
        Residual(env, o.node, x) && o.node.chain.Stored() == bs[..GoesBackTo(env, s, blocks, k) + 1]
      else if MayRetry(env, s, blocks, k) then
        k <= o.applied && AdoptsOver(env, BatchOutcome(o.node, o.applied - k), bs, blocks, x)
      else
        o.applied == k && Residual(env, o.node, x) && o.node.chain.Stored() == bs + blocks[..k]
  {
    hide Synced, Consistent, ApplyBatch, ValidHistory, HeaderOk, Anchor, RevertToHeight, HandleBlocks, ContinuesTip,
      FundedTxs, LeftBy, Residual, UndoCoveredTo, ContinuesOver, RollsBack, MayRetry, AdoptsOver;
    var bs, kept, h := s.chain.Stored(), s.chain.Stored() + blocks[..k], s.chain.height;
    var x := LeftBy(env, kept, blocks[k]);
    SyncedIsConsistent(env, s);
    ForwardBatch(env, s, blocks, peerHeight);
    FirstPass(env, s, blocks, k);
    var first := ApplyBatch(env, s, blocks).node;
    GoesBackWithin(env, s, blocks, k);
    if RollsBack(env, s, blocks, k) {
      assert kept == bs;
      RollBackOver(env, first, Anchor(env.checkpoints, SatSub(h, 1)), x);
    } else if MayRetry(env, s, blocks, k) {
      BackOver(env, first, h, x);
      assert |bs| == h + 1 && kept[..h + 1] == bs;
      SecondPass(env, RevertToHeight(env, first, h), bs, blocks, x);
    }
  }

  /**
   * For a single block that continues our tip: it is adopted exactly if it is valid, or if its own refused
   * reward makes up for the rest.
   */
  lemma ForwardSingle(env: Env, s: Node, b: Block, peerHeight: Option<u64>)
    requires Synced(env, s) && ContinuesTip(s, [b]) && s.chain.height + 3 < MAX_HEIGHT
    ensures var bs, miner, txs := s.chain.Stored(), b.header.miner, b.transactions;
      HandleBlocks(env, s, [b], peerHeight).applied == 1 <==>
        && HeaderOk(env, bs, b)
        && (FundedTxs(env, bs, miner, txs) || FundedOver(env, bs, miner, txs, LeftBy(env, bs, b)))
  {
    hide Synced, Consistent, HeaderOk, HandleBlocks, ContinuesTip, FundedTxs, FundedOver, LeftBy, Residual,
      LinkedHistory,
      FundedHistory;
    var bs := s.chain.Stored();
    SyncedIsValid(env, s);
    assert [b][..0] == [] && bs + [] == bs && [b][..1] == [b] && Init([b]) == [];
    NotNext(env, bs, b);
    if !HeaderOk(env, bs, b) {
      SingleRefused(env, s, b, peerHeight);
    } else if FundedTxs(env, bs, b.header.miner, b.transactions) {
      HandleAdoptsValid(env, s, [b], peerHeight);
    } else {
      assert |bs| == s.chain.height + 1;
      ForwardRefusedLate(env, s, [b], peerHeight, 0);
      AlwaysRetries(env, s, b);
      assert ContinuesOver(env, bs, [], LeftBy(env, bs, b));
    }
  }

  lemma AlwaysRetries(env: Env, s: Node, b: Block)
    requires s.chain.Readable()
    ensures MayRetry(env, s, [b], 0)
  {
  }

  lemma SingleRefused(env: Env, s: Node, b: Block, peerHeight: Option<u64>)
    requires Synced(env, s) && ContinuesTip(s, [b]) && s.chain.height + 3 < MAX_HEIGHT
    requires !HeaderOk(env, s.chain.Stored(), b)
    ensures HandleBlocks(env, s, [b], peerHeight).applied == 0
  {
    hide Synced, Consistent, HeaderOk, ContinuesTip, HandleBlocks, ApplyBatch, RevertToHeight, Anchor, ValidHistory;
    var bs := s.chain.Stored();
    SyncedIsValid(env, s);
    SyncedIsConsistent(env, s);
    assert [b][..0] == [] && bs + [] == bs && [b][..1] == [b];
    ForwardBatch(env, s, [b], peerHeight);
    ShortOfValid(env, bs, b);
    BatchStopsAtInvalid(env, s, [b], 0);
    BatchConsistent(env, s, [b]);
    BatchResidue(env, s, [b], 0);
    var first := ApplyBatch(env, s, [b]).node;
    ReadableHeight(first.chain, s.chain, []);
    RevertToHeightCuts(env, first, s.chain.height);
    BatchStopsAtInvalid(env, first, [b], 0);
  }
}
