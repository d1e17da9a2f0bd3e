/** The invariants of a node, and that every chain operation keeps them. */
module ChainLaws {
  import opened Primitives
  import opened Types
  import opened Difficulty
  import opened History
  import opened LedgerModel
  import opened LedgerLaws
  import opened ChainModel

  /** The blocks up to the tip are a linked history and the difficulty in memory is its difficulty. */
  ghost predicate Sound(env: Env, c: Chain)
    ensures Sound(env, c) ==> c.Readable()
  {
    && c.Readable()
    && c.disk.height == Some(c.height)
    && LinkedHistory(env, c.Stored())
    && c.difficulty == Diff(c.Stored())
  }

  /**
   * Without crashes the store also holds nothing above the tip, the stored difficulty is the one in
   * memory, and every snapshot up to the tip is that of the history.
   */
  ghost predicate Consistent(env: Env, c: Chain)
    ensures Consistent(env, c) ==> c.Readable()
  {
    && Sound(env, c)
    && (forall i :: i in c.disk.blocks ==> i <= c.height)
    && c.disk.difficulty == Some(c.difficulty)
    && Snapshots(c)
  }

  /** Every snapshot at or below the tip is the difficulty of the blocks before its boundary. */
  ghost predicate Snapshots(c: Chain)
    requires c.Readable()
  {
    forall b: u64 :: 0 < b <= c.height && b % DAA_WINDOW == 0 ==>
      b in c.disk.prevDiff && c.disk.prevDiff[b] == Diff(c.Stored()[..b])
  }

  /** Chain and ledger together: the ledger is the one its own stored blocks produce. */
  ghost predicate Synced(env: Env, s: Node)
    ensures Synced(env, s) ==> s.chain.Readable() && Consistent(env, s.chain)
  {
    && Consistent(env, s.chain)
    && FundedHistory(env, s.chain.Stored())
    && Tracks(env, s.accounts, s.chain.Stored())
  }

  ghost predicate SyncedWithCounts(env: Env, s: Node) {
    Synced(env, s) && Counts(s.accounts, s.chain.Stored(), []) && ConsecutiveHistory(s.chain.Stored())
  }

  // ---- The store ----

  lemma StoredIs(c: Chain, bs: seq<Block>)
    requires c.Readable() && |bs| == c.height + 1
    requires forall i :: 0 <= i < |bs| ==> c.disk.blocks[i] == bs[i]
    ensures c.Stored() == bs
  {
  }

  lemma StoredAppend(c: Chain, b: Block)
    requires c.Readable() && b.header.index == c.height + 1
    ensures Append(c, b).Stored() == c.Stored() + [b]
  {
  }

  lemma StoredTruncate(c: Chain)
    requires c.Readable() && c.height > 0
    ensures Truncate(c).Stored() == Init(c.Stored())
  {
  }

  /** Retargeting incrementally at a boundary is the same as retargeting the whole history. */
  lemma AppendDifficulty(c: Chain, b: Block)
    requires c.Readable() && b.header.index == c.height + 1
    requires c.difficulty == Diff(c.Stored())
    ensures Append(c, b).difficulty == Diff(c.Stored() + [b])
  {
    StoredAppend(c, b);
    var bs := c.Stored() + [b];
    assert Init(bs) == c.Stored();
    if (c.height + 1) % DAA_WINDOW == 0 {
      assert c.height + 1 >= DAA_WINDOW;
      assert bs[|bs| - 1 - DAA_WINDOW] == Append(c, b).Stored()[c.height + 1 - DAA_WINDOW];
    }
  }

  /** What applying a block leaves as difficulty, from the one before and two timestamps. */
  lemma AppliedDifficulty(env: Env, mode: Mode, s: Node, b: Block)
    requires Consistent(env, s.chain) && s.chain.height < U64_MAX && Accepts(env, mode, s, b)
    ensures var before, after := s.chain.difficulty, Apply(env, mode, s, b).chain.difficulty;
      var h: u64 := s.chain.height + 1;
      if h % 10 == 0 then
        Retargets(before, SatSub(b.header.timestamp, s.chain.disk.blocks[h - 10].header.timestamp), after)
      else after == before
  {
    hide Diff, LinkedHistory, Snapshots, ApplyLedger, MeetsDifficulty, CheckpointOk;
    var bs := s.chain.Stored() + [b];
    AppendDifficulty(s.chain, b);
    BoundaryRetargets(bs);
    BoundaryRetargets(s.chain.Stored());
    assert Init(bs) == s.chain.Stored();
  }

  lemma AppendSnapshots(c: Chain, b: Block)
    requires c.Readable() && b.header.index == c.height + 1
    requires c.difficulty == Diff(c.Stored()) && Snapshots(c)
    ensures Snapshots(Append(c, b))
  {
    StoredAppend(c, b);
    var c', bs := Append(c, b), c.Stored() + [b];
    forall n: u64 | 0 < n <= c'.height && n % DAA_WINDOW == 0
      ensures n in c'.disk.prevDiff && c'.disk.prevDiff[n] == Diff(bs[..n])
    {
      if n <= c.height {
        assert bs[..n] == c.Stored()[..n];
      } else {
        assert bs[..n] == c.Stored();
      }
    }
  }

  lemma AppendSound(env: Env, c: Chain, b: Block)
    requires Sound(env, c) && HeaderOk(env, c.Stored(), b)
    ensures Sound(env, Append(c, b)) && Append(c, b).Stored() == c.Stored() + [b]
  {
    StoredAppend(c, b);
    AppendDifficulty(c, b);
    assert Init(c.Stored() + [b]) == c.Stored();
  }

  lemma AppendConsistent(env: Env, c: Chain, b: Block)
    requires Consistent(env, c) && HeaderOk(env, c.Stored(), b)
    ensures Consistent(env, Append(c, b)) && Append(c, b).Stored() == c.Stored() + [b]
  {
    AppendSound(env, c, b);
    AppendSnapshots(c, b);
  }

  lemma TruncateSnapshots(c: Chain)
    requires c.Readable() && c.height > 0 && Snapshots(c)
    ensures Snapshots(Truncate(c))
  {
    hide Diff, NextDifficulty;
    StoredTruncate(c);
    var c', bs := Truncate(c), c.Stored();
    forall n: u64 | 0 < n <= c'.height && n % DAA_WINDOW == 0
      ensures n in c'.disk.prevDiff && c'.disk.prevDiff[n] == Diff(c'.Stored()[..n])
    {
      assert Init(bs)[..n] == bs[..n];
    }
  }

  /** Removing the tip restores the state before it, snapshot and all; the branch without a snapshot is never needed. */
  lemma TruncateConsistent(env: Env, c: Chain)
    requires Consistent(env, c) && c.height > 0
    ensures Consistent(env, Truncate(c)) && Truncate(c).Stored() == Init(c.Stored())
    ensures c.height % DAA_WINDOW == 0 ==> c.height in c.disk.prevDiff
  {
    hide Diff, NextDifficulty, HeaderOk;
    StoredTruncate(c);
    TruncateSnapshots(c);
    assert c.Stored()[..c.height] == Init(c.Stored());
    DifficultyMoves(c.Stored());
  }

  /** The precheck of a sound chain is exactly the header rules of its history, plus the clock when live. */
  lemma PrecheckMeaning(env: Env, mode: Mode, c: Chain, b: Block)
    requires Sound(env, c) && c.height < U64_MAX
    ensures Precheck(env, Ibd, c, b) <==> HeaderOk(env, c.Stored(), b)
    ensures Precheck(env, mode, c, b) ==> HeaderOk(env, c.Stored(), b)
  {
    assert Last(c.Stored()) == c.Tip();
  }

  // ---- Applying ----

  lemma ApplyConsistent(env: Env, mode: Mode, s: Node, b: Block)
    requires Consistent(env, s.chain) && s.chain.height < U64_MAX
    ensures var s' := Apply(env, mode, s, b);
      && Consistent(env, s'.chain)
      && (Accepts(env, mode, s, b) ==> s'.chain.Stored() == s.chain.Stored() + [b])
      && (!Accepts(env, mode, s, b) ==> s'.chain == s.chain)
  {
    if Precheck(env, mode, s.chain, b) {
      PrecheckMeaning(env, mode, s.chain, b);
      AppendConsistent(env, s.chain, b);
    }
  }

  /**
   * A block rejected at transaction `k` leaves the chain alone and the ledger exactly where the
   * reward and the first `k` transactions put it; a block rejected earlier changes nothing.
   */
  lemma {:induction false} RejectionResidue(env: Env, mode: Mode, s: Node, b: Block)
    requires s.chain.Readable() && !Accepts(env, mode, s, b)
    ensures Apply(env, mode, s, b).chain == s.chain
    ensures !RejectsLate(env, mode, s, b) ==> Apply(env, mode, s, b) == s
    ensures RejectsLate(env, mode, s, b) ==>
      var k := ApplyLedger(env, mode, s.accounts, b).applied;
      var start := ApplyCoinbase(env, s.accounts, b.header.miner, TESTNET_REWARD);
      var part := ApplyTxs(env, mode, start, b.transactions[..k]);
      && part == TxsOutcome(k, Apply(env, mode, s, b).accounts)
      && ApplyTx(env, mode, part.ledger, b.transactions[k]).Err?
  {
    if RejectsLate(env, mode, s, b) {
      AppliedPart(env, mode, ApplyCoinbase(env, s.accounts, b.header.miner, TESTNET_REWARD), b.transactions);
    }
  }

  lemma {:induction false} AppliedPart(env: Env, mode: Mode, l: Accounts, txs: seq<Transaction>)
    ensures var o := ApplyTxs(env, mode, l, txs);
      && ApplyTxs(env, mode, l, txs[..o.applied]) == o
      && (o.applied < |txs| ==> ApplyTx(env, mode, o.ledger, txs[o.applied]).Err?)
    decreases |txs|
  {
    var o := ApplyTxs(env, mode, l, txs);
    if o.applied == |txs| {
      assert txs[..o.applied] == txs;
    } else {
      AppliedPart(env, mode, l, Init(txs));
      assert txs[..o.applied] == Init(txs)[..o.applied];
    }
  }

  /** A synced node accepts during download exactly the valid continuations of its history, and stays synced. */
  lemma IbdAcceptsValid(env: Env, s: Node, b: Block)
    requires Synced(env, s) && s.chain.height < MAX_HEIGHT
    ensures Accepts(env, Ibd, s, b) <==> ValidNext(env, s.chain.Stored(), b)
    ensures RejectsLate(env, Ibd, s, b) <==> HeaderOk(env, s.chain.Stored(), b) && !ValidNext(env, s.chain.Stored(), b)
    ensures Accepts(env, Ibd, s, b) ==>
      Synced(env, Apply(env, Ibd, s, b)) && Apply(env, Ibd, s, b).chain.Stored() == s.chain.Stored() + [b]
  {
    hide Diff, Snapshots, LinkedHistory, Append;
    var bs := s.chain.Stored();
    PrecheckMeaning(env, Ibd, s.chain, b);
    if HeaderOk(env, bs, b) {
      var miner, txs := b.header.miner, b.transactions;
      CoinbaseTracks(env, s.accounts, bs, miner);
      IbdTxsTrack(env, ApplyCoinbase(env, s.accounts, miner, TESTNET_REWARD), bs, miner, txs);
      if FundedTxs(env, bs, miner, txs) {
        ApplyConsistent(env, Ibd, s, b);
        assert txs[..|txs|] == txs;
        TracksBlock(env, ApplyLedger(env, Ibd, s.accounts, b).ledger, bs, b);
      }
    }
  }

  /** The end of a block's transactions is the start of the next block. */
  lemma TracksBlock(env: Env, l: Accounts, bs: seq<Block>, b: Block)
    requires bs != [] && FundedHistory(env, bs) && FundedTxs(env, bs, b.header.miner, b.transactions)
    ensures FundedHistory(env, bs + [b])
    ensures Tracks(env, l, bs + [b]) <==> TracksInside(env, l, bs, b.header.miner, b.transactions)
  {
    assert Init(bs + [b]) == bs;
    assert forall k :: NetBalance(env, bs + [b], k) == Available(env, bs, b.header.miner, b.transactions, k);
  }

  /** Whatever live validation applies, download applies too, with the identical ledger. */
  lemma {:induction false} LiveTxsRefineIbd(env: Env, now: u64, l: Accounts, txs: seq<Transaction>)
    requires ApplyTxs(env, Live(now), l, txs).applied == |txs|
    ensures ApplyTxs(env, Ibd, l, txs) == ApplyTxs(env, Live(now), l, txs)
    decreases |txs|
  {
    if txs != [] {
      LiveTxsRefineIbd(env, now, l, Init(txs));
      var mid := ApplyTxs(env, Live(now), l, Init(txs)).ledger;
      assert ApplyTx(env, Live(now), mid, Last(txs)).Ok?;
    }
  }

  /** Strict apply refines download apply: same chain, same difficulty, same ledger down to the last hash. */
  lemma LiveRefinesIbd(env: Env, now: u64, s: Node, b: Block)
    requires s.chain.Readable() && Accepts(env, Live(now), s, b)
    ensures Accepts(env, Ibd, s, b) && Apply(env, Ibd, s, b) == Apply(env, Live(now), s, b)
  {
    LiveTxsRefineIbd(env, now, ApplyCoinbase(env, s.accounts, b.header.miner, b.header.reward), b.transactions);
  }

  lemma ApplySynced(env: Env, mode: Mode, s: Node, b: Block)
    requires Synced(env, s) && s.chain.height < MAX_HEIGHT && Accepts(env, mode, s, b)
    ensures Synced(env, Apply(env, mode, s, b))
    ensures Apply(env, mode, s, b).chain.Stored() == s.chain.Stored() + [b]
  {
    if mode.Live? { LiveRefinesIbd(env, mode.now, s, b); }
    IbdAcceptsValid(env, s, b);
  }

  /** Sequence numbers survive an accepted block that is consecutive, as every live one is until a counter wraps. */
  lemma ApplyCounts(env: Env, mode: Mode, s: Node, b: Block)
    requires SyncedWithCounts(env, s) && s.chain.height < MAX_HEIGHT && Accepts(env, mode, s, b)
    requires ConsecutiveTxs(s.chain.Stored(), b.transactions)
      || (mode.Live? && forall i :: 0 <= i < |b.transactions| ==> b.transactions[i].sequence != 0)
    ensures SyncedWithCounts(env, Apply(env, mode, s, b))
  {
    var bs, l := s.chain.Stored(), ApplyCoinbase(env, s.accounts, b.header.miner, b.header.reward);
    ApplySynced(env, mode, s, b);
    CoinbaseKeepsCounts(env, s.accounts, bs, b.header.miner, b.header.reward);
    TxsCount(env, mode, l, bs, b.transactions);
    CountsBlock(ApplyLedger(env, mode, s.accounts, b).ledger, bs, b);
    assert Init(bs + [b]) == bs;
  }

  lemma CoinbaseKeepsCounts(env: Env, l: Accounts, bs: seq<Block>, miner: Bytes, amount: u64)
    ensures Counts(l, bs, []) <==> Counts(ApplyCoinbase(env, l, miner, amount), bs, [])
    ensures Counts(l, bs, []) <==> Counts(RevertCoinbase(l, miner, amount), bs, [])
  {
    assert forall k :: Seq(ApplyCoinbase(env, l, miner, amount), k) == Seq(l, k);
    assert forall k :: Seq(RevertCoinbase(l, miner, amount), k) == Seq(l, k);
  }

  lemma CountsBlock(l: Accounts, bs: seq<Block>, b: Block)
    requires bs != []
    ensures Counts(l, bs + [b], []) <==> Counts(l, bs, b.transactions)
  {
    assert Init(bs + [b]) == bs;
    assert forall k :: Sent(bs + [b], k) + SentIn([], k) == Sent(bs, k) + SentIn(b.transactions, k);
  }

  // ---- Reverting ----

  /** Undoing a block's transactions and then its reward undoes the block. */
  lemma RevertLedgerTracks(env: Env, l: Accounts, bs: seq<Block>, b: Block)
    requires bs != [] && |bs| <= MAX_HEIGHT && FundedHistory(env, bs) && b.header.reward == TESTNET_REWARD
    requires FundedTxs(env, bs, b.header.miner, b.transactions) && Tracks(env, l, bs + [b])
    ensures Tracks(env, RevertLedger(l, b), bs)
  {
    TracksBlock(env, l, bs, b);
    RevertTxsTrack(env, l, bs, b.header.miner, b.transactions);
    var l' := RevertTxs(l, b.transactions);
    BalanceNonNegative(env, bs, b.header.miner);
    assert Bal(l', b.header.miner) == Available(env, bs, b.header.miner, [], b.header.miner);
    RevertCoinbaseEffect(l', b.header.miner, TESTNET_REWARD);
  }

  /** Reverting the tip of a synced node gives the synced node of the shorter history. */
  lemma RevertTipSynced(env: Env, s: Node)
    requires Synced(env, s) && 0 < s.chain.height <= MAX_HEIGHT
    ensures Synced(env, RevertTip(s)) && RevertTip(s).chain.Stored() == Init(s.chain.Stored())
  {
    hide Diff;
    TruncateConsistent(env, s.chain);
    var bs, b := Init(s.chain.Stored()), s.chain.Tip();
    assert s.chain.Stored() == bs + [b];
    assert HeaderOk(env, bs, b);
    RevertLedgerTracks(env, s.accounts, bs, b);
  }

  /**
   * The undo of a synced node's tip, looked at after any number of steps: each recipient still holds
   * the amount that is taken back, no refund wraps, and at the end the miner still holds the reward.
   */
  lemma UndoIsSafe(env: Env, s: Node, n: nat)
    requires Synced(env, s) && 0 < s.chain.height <= MAX_HEIGHT && n <= |s.chain.Tip().transactions|
    ensures var b := s.chain.Tip();
      var l := RevertTxs(s.accounts, b.transactions[n..]);
      && (n > 0 ==> UndoesExactly(l, b.transactions[n - 1]))
      && (n == 0 ==> Bal(l, b.header.miner) >= b.header.reward)
  {
    hide Diff, Snapshots, RevertTxs, Supply;
    var bs, b := Init(s.chain.Stored()), s.chain.Tip();
    assert s.chain.Stored() == bs + [b];
    assert HeaderOk(env, bs, b);
    TracksBlock(env, s.accounts, bs, b);
    UndoneTo(env, s.accounts, bs, b.header.miner, b.transactions, n);
    if n == 0 {
      assert b.transactions[0..] == b.transactions && b.transactions[..0] == [];
      AvailableNonNegative(env, bs, b.header.miner, [], b.header.miner);
      BalanceNonNegative(env, bs, b.header.miner);
    }
  }

  /** While the ledger counts, no sequence is at zero when the undo of the tip decrements it. */
  lemma UndoKeepsCounters(env: Env, s: Node, n: nat)
    requires SyncedWithCounts(env, s) && s.chain.height > 0 && 0 < n <= |s.chain.Tip().transactions|
    ensures var txs := s.chain.Tip().transactions;
      Seq(RevertTxs(s.accounts, txs[n..]), txs[n - 1].sender) > 0
  {
    hide Synced, ConsecutiveHistory, RevertTxs;
    var bs, b := Init(s.chain.Stored()), s.chain.Tip();
    assert s.chain.Stored() == bs + [b];
    CountsBlock(s.accounts, bs, b);
    CountersSurviveUndo(s.accounts, b.transactions);
  }

  lemma RevertLedgerCounts(env: Env, l: Accounts, bs: seq<Block>, b: Block)
    requires bs != [] && Counts(l, bs + [b], [])
    ensures Counts(RevertLedger(l, b), bs, [])
  {
    CountsBlock(l, bs, b);
    RevertTxsCount(l, bs, b.transactions);
    CoinbaseKeepsCounts(env, RevertTxs(l, b.transactions), bs, b.header.miner, b.header.reward);
  }

  lemma RevertTipCounts(env: Env, s: Node)
    requires SyncedWithCounts(env, s) && 0 < s.chain.height <= MAX_HEIGHT
    ensures SyncedWithCounts(env, RevertTip(s))
  {
    hide Diff, Snapshots, Sound, Tracks, Truncate, RevertLedger;
    RevertTipSynced(env, s);
    var bs, b := Init(s.chain.Stored()), s.chain.Tip();
    assert s.chain.Stored() == bs + [b];
    RevertLedgerCounts(env, s.accounts, bs, b);
  }

  lemma {:induction false} RevertDownConsistent(env: Env, s: Node, target: u64)
    requires Consistent(env, s.chain)
    ensures var r := RevertDown(s, target);
      Consistent(env, r.chain) && r.chain.Stored() == s.chain.Stored()[..r.chain.height + 1]
    decreases s.chain.height
  {
    hide Diff, Truncate, Snapshots, HeaderOk;
    if s.chain.height > target {
      TruncateConsistent(env, s.chain);
      RevertDownConsistent(env, RevertTip(s), target);
    } else {
      assert s.chain.Stored()[..s.chain.height + 1] == s.chain.Stored();
    }
  }

  lemma {:induction false} RevertDownSynced(env: Env, s: Node, target: u64)
    requires Synced(env, s) && s.chain.height <= MAX_HEIGHT
    ensures Synced(env, RevertDown(s, target))
    ensures SyncedWithCounts(env, s) ==> SyncedWithCounts(env, RevertDown(s, target))
    decreases s.chain.height
  {
    if s.chain.height > target {
      RevertTipSynced(env, s);
      if SyncedWithCounts(env, s) { RevertTipCounts(env, s); }
      RevertDownSynced(env, RevertTip(s), target);
    }
  }

  /** Forcing the initial difficulty at genesis never changes a consistent chain. */
  lemma ResetIsIdle(env: Env, c: Chain)
    requires Consistent(env, c)
    ensures ResetAtGenesis(c) == c
  {
  }

  /** A deep revert either refuses and changes nothing, or cuts the history at the target and nowhere else. */
  lemma RevertToHeightCuts(env: Env, s: Node, target: u64)
    requires Consistent(env, s.chain)
    ensures var s' := RevertToHeight(env, s, target);
      && Consistent(env, s'.chain)
      && (target < Anchor(env.checkpoints, s.chain.height) || target >= s.chain.height ==> s' == s)
      && (MayRevertTo(env, s, target) && target <= s.chain.height ==>
            s'.chain.height == target && s'.chain.Stored() == s.chain.Stored()[..target + 1])
  {
    var r := RevertDown(s, target);
    RevertDownConsistent(env, s, target);
    ResetIsIdle(env, r.chain);
    assert r.(chain := r.chain) == r;
  }

  lemma RevertToHeightSynced(env: Env, s: Node, target: u64)
    requires Synced(env, s) && s.chain.height <= MAX_HEIGHT
    ensures Synced(env, RevertToHeight(env, s, target))
    ensures SyncedWithCounts(env, s) ==> SyncedWithCounts(env, RevertToHeight(env, s, target))
  {
    var r := RevertDown(s, target);
    RevertDownSynced(env, s, target);
    ResetIsIdle(env, r.chain);
    assert r.(chain := r.chain) == r;
  }

  lemma FreshNodeSynced(env: Env)
    ensures SyncedWithCounts(env, FreshNode(env))
    ensures FreshNode(env).chain.Stored() == [Genesis(env)]
  {
    var l := GenesisLedger(env);
    SupplyRemove(l, env.premineKey);
    assert l - {env.premineKey} == map[];
  }
}
