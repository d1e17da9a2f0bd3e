/** The two other ways to obtain a ledger from stored blocks, and exactly when they disagree with the live one. */
module Rebuild {
  import opened Primitives
  import opened Types
  import opened Difficulty
  import opened History
  import opened LedgerModel
  import opened LedgerLaws
  import opened ChainModel
  import opened ChainLaws
  import opened Runs

  // ---- rebuild_from_chain: rewards only ----

  function RebuildFromChain(env: Env, bs: seq<Block>): Accounts {
    if |bs| <= 1 then GenesisLedger(env)
    else ApplyCoinbase(env, RebuildFromChain(env, Init(bs)), Last(bs).header.miner, Last(bs).header.reward)
  }

  /** What `k` received minus what it spent, fees included, over all stored transactions. */
  function NetReceived(bs: seq<Block>, k: Bytes): int {
    if |bs| <= 1 then 0 else NetReceived(Init(bs), k) + TxsDelta(Last(bs).transactions, k)
  }

  lemma {:induction false} RebuildPaysRewards(env: Env, bs: seq<Block>)
    requires LinkedHistory(env, bs) && |bs| <= MAX_HEIGHT
    ensures var l := RebuildFromChain(env, bs);
      && (forall k :: Bal(l, k) == NetBalance(env, bs, k) - NetReceived(bs, k))
      && (forall k :: Seq(l, k) == 0)
      && Supply(l) == Circulating(bs) + TotalFees(bs)
  {
    if |bs| == 1 {
      var l := GenesisLedger(env);
      SupplyRemove(l, env.premineKey);
      assert l - {env.premineKey} == map[];
    } else {
      var rest, b := Init(bs), Last(bs);
      RebuildPaysRewards(env, rest);
      CoinbaseEffect(env, RebuildFromChain(env, rest), b.header.miner, TESTNET_REWARD);
    }
  }

  /**
   * The rebuilt ledger is the live one plus spent minus received, account by account: it agrees on
   * every balance exactly when all stored payments cancel out, hence never once a fee was burned.
   */
  lemma RebuildGap(env: Env, s: Node)
    requires Synced(env, s) && s.chain.height < MAX_HEIGHT
    ensures var bs := s.chain.Stored();
      var l := RebuildFromChain(env, bs);
      && (forall k :: Bal(l, k) == Bal(s.accounts, k) - NetReceived(bs, k))
      && ((forall k :: Bal(l, k) == Bal(s.accounts, k)) <==> (forall k :: NetReceived(bs, k) == 0))
      && Supply(l) == Supply(s.accounts) + TotalFees(bs)
      && (TotalFees(bs) > 0 ==> exists k :: Bal(l, k) != Bal(s.accounts, k))
  {
    hide Diff, Snapshots, LinkedHistory, FundedHistory, NetReceived;
    var bs := s.chain.Stored();
    var l := RebuildFromChain(env, bs);
    SyncedIsLinked(env, s);
    RebuildPaysRewards(env, bs);
    if forall k :: Bal(l, k) == Bal(s.accounts, k) { SameBalancesSameSupply(l, s.accounts); }
    if forall k :: Bal(l, k) == Bal(s.accounts, k) {
      forall k ensures NetReceived(bs, k) == 0 {
        assert Bal(l, k) == Bal(s.accounts, k) - NetReceived(bs, k);
      }
    }
  }

  lemma SyncedIsLinked(env: Env, s: Node)
    requires Synced(env, s)
    ensures LinkedHistory(env, s.chain.Stored())
  {
  }

  // ---- Strict replay: leftover empty entries are visible ----

  /**
   * Live validation of a transaction depends only on the sender's balance and sequence, except when
   * it costs nothing: then it also sees whether an entry exists, and reverts leave empty entries behind.
   */
  lemma LiveDependsOnView(env: Env, l1: Accounts, l2: Accounts, tx: Transaction)
    requires Bal(l1, tx.sender) == Bal(l2, tx.sender) && Seq(l1, tx.sender) == Seq(l2, tx.sender)
    ensures (ApplyTxLive(env, l1, tx).Ok? <==> ApplyTxLive(env, l2, tx).Ok?) <==>
      !(tx.TotalCost() == 0 && tx.sequence == WrapAdd(Seq(l1, tx.sender), 1) && (tx.sender in l1 <==> tx.sender !in l2))
  {
  }

  lemma SingleTx(env: Env, mode: Mode, l: Accounts, tx: Transaction)
    ensures ApplyTxs(env, mode, l, [tx]).applied == if ApplyTx(env, mode, l, tx).Ok? then 1 else 0
  {
    assert Init([tx]) == [] && Last([tx]) == tx;
    assert ApplyTxs(env, mode, l, []) == TxsOutcome(0, l);
  }

  /** A transfer that costs nothing, from an account that `s` has never seen, in a block of its own. */
  predicate FreeTransferBlock(env: Env, mode: Mode, s: Node, b: Block)
    requires s.chain.Readable()
  {
    && |b.transactions| == 1
    && var tx := b.transactions[0];
       && Precheck(env, mode, s.chain, b) && Precheck(env, Ibd, s.chain, b)
       && tx.TotalCost() == 0 && tx.sequence == 1
       && tx.sender !in s.accounts && tx.sender != b.header.miner
  }

  lemma FreeTransferNeedsEntry(env: Env, mode: Mode, l: Accounts, b: Block)
    requires |b.transactions| == 1 && b.transactions[0].TotalCost() == 0 && b.transactions[0].sequence == 1
    requires b.transactions[0].sender != b.header.miner && Seq(l, b.transactions[0].sender) == 0
    ensures ApplyLedger(env, mode, l, b).applied == if mode.Ibd? || b.transactions[0].sender in l then 1 else 0
  {
    assert b.transactions == [b.transactions[0]];
    SingleTx(env, mode, ApplyCoinbase(env, l, b.header.miner, b.header.reward), b.transactions[0]);
  }

  /** Reverting an accepted empty block restores every block, balance and sequence, but its miner keeps an entry. */
  lemma DetourLeavesEntry(env: Env, mode: Mode, s: Node, a: Block, k: Bytes)
    requires Synced(env, s) && s.chain.height < MAX_HEIGHT
    requires Precheck(env, mode, s.chain, a) && a.transactions == []
    ensures Accepts(env, mode, s, a)
    ensures var back := RevertTip(Apply(env, mode, s, a));
      && back.chain.Stored() == s.chain.Stored()
      && Bal(back.accounts, k) == Bal(s.accounts, k) && Seq(back.accounts, k) == Seq(s.accounts, k)
      && a.header.miner in back.accounts
  {
    hide Diff, Snapshots, FundedHistory, LinkedHistory, HeaderOk, Append, CheckpointOk, ValidHeader,
      MeetsDifficulty, Supply;
    var up := Apply(env, mode, s, a);
    ApplySynced(env, mode, s, a);
    RevertTipSynced(env, up);
    var back := RevertTip(up);
    Unsnoc(back.chain.Stored(), s.chain.Stored(), a);
    assert Bal(back.accounts, k) == NetBalance(env, s.chain.Stored(), k) == Bal(s.accounts, k);
    assert back.accounts == RevertCoinbase(up.accounts, a.header.miner, a.header.reward);
  }

  /**
   * After the free sender mined a block that was reverted, no balance, sequence or block differs, yet
   * its free transfer is accepted live where the untouched node rejects it; download accepts both.
   */
  lemma DetourIsVisible(env: Env, mode: Mode, s: Node, a: Block, b: Block)
    requires Synced(env, s) && s.chain.height < MAX_HEIGHT && mode.Live? && FreeTransferBlock(env, mode, s, b)
    requires Precheck(env, mode, s.chain, a) && a.transactions == [] && a.header.miner == b.transactions[0].sender
    ensures Accepts(env, mode, s, a)
    ensures ApplyLedger(env, mode, RevertTip(Apply(env, mode, s, a)).accounts, b).applied == 1
    ensures RejectsLate(env, mode, s, b) && Accepts(env, Ibd, s, b)
  {
    DetourLeavesEntry(env, mode, s, a, a.header.miner);
    FreeTransferNeedsEntry(env, mode, RevertTip(Apply(env, mode, s, a)).accounts, b);
    FreeTransferNeedsEntry(env, mode, s.accounts, b);
    FreeTransferNeedsEntry(env, Ibd, s.accounts, b);
  }
}
