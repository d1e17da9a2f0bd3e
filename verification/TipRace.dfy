/** A competing block of our own height: when it replaces the tip, and when a failed attempt gives the tip back. */
module TipRace {
  import opened Primitives
  import opened Types
  import opened Bits
  import opened Difficulty
  import opened History
  import opened LedgerModel
  import opened LedgerLaws
  import opened ChainModel
  import opened ChainLaws
  import opened LiveRules
  import opened Runs

  /** The byte-wise order of hashes. */
  predicate Less(a: Bytes, b: Bytes) {
    b != [] && (a == [] || a[0] < b[0] || (a[0] == b[0] && Less(a[1..], b[1..])))
  }

  /** For hashes of one width that is the order of the numbers they spell. */
  lemma {:induction false} LessIsNumeric(a: Bytes, b: Bytes)
    requires |a| == |b|
    ensures Less(a, b) <==> BigEndian(a) < BigEndian(b)
  {
    if a != [] {
      LessIsNumeric(a[1..], b[1..]);
      var weight := Pow2(8 * (|a| - 1));
      Weighs(a[0], b[0], weight, BigEndian(a[1..]), BigEndian(b[1..]));
    }
  }

  lemma Weighs(x: nat, y: nat, weight: nat, low: nat, high: nat)
    requires low < weight && high < weight
    ensures x * weight + low < y * weight + high <==> x < y || (x == y && low < high)
  {
    if x < y {
      assert (x + 1) * weight <= y * weight;
    } else if x > y {
      assert (y + 1) * weight <= x * weight;
    }
  }

  /** The block is worth giving up the tip for: a lower hash, and valid next to our parent block. */
  predicate Beats(env: Env, now: u64, c: Chain, b: Block)
    requires c.Readable()
  {
    && c.height > 0 && b.header.index == c.height && Less(b.hash, c.Tip().hash)
    && ValidHeader(env, c.disk.blocks[c.height - 1], c.difficulty, b, Live(now))
    && b.header.reward == TESTNET_REWARD
  }

  /**
   * Give up the tip, apply the better block, and if that fails apply the old tip again. The clock is read
   * each time.
   */
  function ReplaceTip(env: Env, seen: u64, applied: u64, restored: u64, s: Node, b: Block): (s': Node)
    requires s.chain.Readable()
    ensures s'.chain.Readable()
  {
    if !Beats(env, seen, s.chain, b) then s
    else
      var r := RevertTip(s);
      var tried := Apply(env, Live(applied), r, b);
      if Accepts(env, Live(applied), r, b) then tried else Apply(env, Live(restored), tried, s.chain.Tip())
  }

  /**
   * Only a block of our own height above genesis, with a numerically lower hash, its own header hash
   * under the difficulty in force, our parent block, the right reward and a recent time is tried at all.
   */
  lemma OnlyBetterBlocksRace(env: Env, seen: u64, applied: u64, restored: u64, s: Node, b: Block)
    requires s.chain.Readable() && |b.hash| == |s.chain.Tip().hash|
    ensures ReplaceTip(env, seen, applied, restored, s, b) == s || (
      && s.chain.height > 0 && b.header.index == s.chain.height
      && BigEndian(b.hash) < BigEndian(s.chain.Tip().hash)
      && b.hash == HeaderHash(env, b.header) && MeetsDifficulty(b.hash, s.chain.difficulty)
      && b.header.prevHash == s.chain.disk.blocks[s.chain.height - 1].hash
      && b.header.reward == TESTNET_REWARD
      && b.header.timestamp - 120_000 <= seen <= b.header.timestamp + 120_000)
  {
    hide BigEndian, MeetsDifficulty, Less, RevertLedger, Truncate, Apply, Accepts;
    LessIsNumeric(b.hash, s.chain.Tip().hash);
  }

  /** And every such block is tried. */
  lemma BetterBlocksRace(env: Env, now: u64, c: Chain, b: Block)
    requires c.Readable() && c.height > 0 && b.header.index == c.height && |b.hash| == |c.Tip().hash|
    requires b.hash == HeaderHash(env, b.header) && MeetsDifficulty(b.hash, c.difficulty)
    requires b.header.prevHash == c.disk.blocks[c.height - 1].hash && b.header.reward == TESTNET_REWARD
    requires b.header.timestamp - 120_000 <= now <= b.header.timestamp + 120_000
    ensures Beats(env, now, c, b) <==> BigEndian(b.hash) < BigEndian(c.Tip().hash)
  {
    hide BigEndian, MeetsDifficulty, Less;
    LessIsNumeric(b.hash, c.Tip().hash);
  }

  /** The parent's node: the history without the tip. */
  lemma ParentIsSynced(env: Env, s: Node)
    requires Synced(env, s) && 0 < s.chain.height <= MAX_HEIGHT
    ensures var r, bs := RevertTip(s), Init(s.chain.Stored());
      && Synced(env, r) && r.chain.Stored() == bs && s.chain.Stored() == bs + [s.chain.Tip()]
      && r.chain.height == s.chain.height - 1 && ValidNext(env, bs, s.chain.Tip())
  {
    hide Diff, Snapshots, Tracks, NetBalance;
    RevertTipSynced(env, s);
    assert s.chain.Stored() == Init(s.chain.Stored()) + [s.chain.Tip()];
  }

  /**
   * The race is won exactly if the block validly continues our parent at the difficulty in force there,
   * on time and in order; the node is then synced on it. Beating the tip is not enough for that.
   */
  lemma ReplacementWins(env: Env, seen: u64, applied: u64, restored: u64, s: Node, b: Block)
    requires Synced(env, s) && s.chain.height <= MAX_HEIGHT && Beats(env, seen, s.chain, b)
    ensures var r, bs, s' := RevertTip(s), Init(s.chain.Stored()), ReplaceTip(env, seen, applied, restored, s, b);
      && (Accepts(env, Live(applied), r, b) <==>
            ValidNext(env, bs, b) && OnTime(applied, b) && InOrder(r.accounts, b.header.miner, b.transactions))
      && (Accepts(env, Live(applied), r, b) ==> Synced(env, s') && s'.chain.Stored() == bs + [b])
  {
    hide Beats, Synced, Consistent, RevertTip, Apply, Accepts, ValidNext, OnTime, InOrder, RejectsLate;
    HeightAtLeastOne(env, seen, s.chain, b);
    ParentIsSynced(env, s);
    var r := RevertTip(s);
    LiveAcceptsExactly(env, applied, r, b);
    if Accepts(env, Live(applied), r, b) { ApplySynced(env, Live(applied), r, b); }
  }

  lemma HeightAtLeastOne(env: Env, now: u64, c: Chain, b: Block)
    requires c.Readable() && Beats(env, now, c, b)
    ensures c.height > 0
  {
  }

  /**
   * What the failed attempt leaves to restore the tip on: the parent's chain, and a ledger that a late
   * rejection changed.
   */
  lemma FailedAttempt(env: Env, now: u64, r: Node, b: Block)
    requires Synced(env, r) && r.chain.height + 1 < MAX_HEIGHT && !Accepts(env, Live(now), r, b)
    ensures var tried := Apply(env, Live(now), r, b);
      && tried.chain == r.chain
      && Supply(tried.accounts) + TESTNET_REWARD < U64_MAX
      && (!RejectsLate(env, Live(now), r, b) ==> tried == r)
      && (RejectsLate(env, Live(now), r, b) ==>
            StopsAtRules(ApplyLedger(env, Live(now), r.accounts, b), r.accounts, b.header.miner, b.transactions)
            && tried.accounts == ApplyLedger(env, Live(now), r.accounts, b).ledger)
  {
    hide Supply, Snapshots, Tracks, LiveTxsOk, Sound, FundedHistory, Precheck, ApplyLedger;
    RejectionResidue(env, Live(now), r, b);
    ParentSupply(env, r);
    LiveAcceptsExactly(env, now, r, b);
    if RejectsLate(env, Live(now), r, b) {
      LiveDecides(env, now, r, b);
    }
  }

  lemma ParentSupply(env: Env, r: Node)
    requires Synced(env, r) && r.chain.height + 1 < MAX_HEIGHT
    ensures Supply(r.accounts) + 2 * TESTNET_REWARD < U64_MAX
  {
  }

  /**
   * A failed replacement gives the old tip back exactly if the tip is still within the tolerance of the
   * clock and its transactions are covered and in order on the ledger that the attempt left. Otherwise
   * the node stays one block lower. If the attempt was refused early, that ledger is the parent's own,
   * and the whole node is then synced on its old history.
   */
  lemma FailedReplacement(env: Env, seen: u64, applied: u64, restored: u64, s: Node, b: Block)
    requires Synced(env, s) && s.chain.height < MAX_HEIGHT && Beats(env, seen, s.chain, b)
    requires !Accepts(env, Live(applied), RevertTip(s), b)
    ensures var tip, r := s.chain.Tip(), RevertTip(s);
      var tried, s' := Apply(env, Live(applied), r, b), ReplaceTip(env, seen, applied, restored, s, b);
      var back := OnTime(restored, tip) && LiveTxsOk(tried.accounts, tip.header.miner, tip.transactions);
      && s'.chain.Stored() == (if back then s.chain.Stored() else Init(s.chain.Stored()))
      && (back && !RejectsLate(env, Live(applied), r, b) ==> Synced(env, s'))
      && (!OnTime(restored, tip) ==> s' == tried)
  {
    hide Beats, Synced, RevertTip, Apply, Accepts, OnTime, LiveTxsOk, RejectsLate, HeaderOk, FundedTxs, Supply,
      StopsAtRules,
      Sound, Consistent;
    HeightAtLeastOne(env, seen, s.chain, b);
    ParentIsSynced(env, s);
    var tip, r := s.chain.Tip(), RevertTip(s);
    var tried := Apply(env, Live(applied), r, b);
    FailedAttempt(env, applied, r, b);
    SyncedParts(env, r);
    LiveDecides(env, restored, tried, tip);
    ApplyConsistent(env, Live(restored), tried, tip);
    if Accepts(env, Live(restored), tried, tip) && tried == r { ApplySynced(env, Live(restored), r, tip); }
    if !OnTime(restored, tip) { NotOnTime(env, restored, tried, tip); }
  }

  lemma SyncedParts(env: Env, s: Node)
    requires Synced(env, s)
    ensures Consistent(env, s.chain) && Sound(env, s.chain)
  {
  }

  lemma NotOnTime(env: Env, now: u64, s: Node, b: Block)
    requires s.chain.Readable() && !OnTime(now, b)
    ensures Apply(env, Live(now), s, b) == s
  {
  }

  /**
   * For a node that kept its counts and a tip of ordinary transactions, an attempt refused early costs
   * the tip exactly if the tip is older than the tolerance.
   */
  lemma RecentTipComesBack(env: Env, seen: u64, applied: u64, restored: u64, s: Node, b: Block)
    requires SyncedWithCounts(env, s) && s.chain.height < MAX_HEIGHT && Beats(env, seen, s.chain, b)
    requires !Accepts(env, Live(applied), RevertTip(s), b) && !RejectsLate(env, Live(applied), RevertTip(s), b)
    requires forall i :: 0 <= i < |s.chain.Tip().transactions| ==>
      s.chain.Tip().transactions[i].sequence != 0 && s.chain.Tip().transactions[i].TotalCost() > 0
    ensures var s' := ReplaceTip(env, seen, applied, restored, s, b);
      if OnTime(restored, s.chain.Tip()) then Synced(env, s') && s'.chain.Stored() == s.chain.Stored()
      else s' == RevertTip(s)
  {
    hide Beats, Synced, RevertTip, Apply, Accepts, OnTime, RejectsLate, InOrder, Covered, ConsecutiveTxs;
    HeightAtLeastOne(env, seen, s.chain, b);
    ParentIsSynced(env, s);
    RevertTipCounts(env, s);
    var tip, r, bs := s.chain.Tip(), RevertTip(s), Init(s.chain.Stored());
    FailedAttempt(env, applied, r, b);
    FailedReplacement(env, seen, applied, restored, s, b);
    ParentBalances(env, r);
    CoveredIsFunded(env, r.accounts, bs, tip.header.miner, tip.transactions);
    OrdinaryTxsInOrder(r.accounts, bs, tip.header.miner, tip.transactions);
  }

  lemma ParentBalances(env: Env, s: Node)
    requires Synced(env, s)
    ensures forall k :: Bal(s.accounts, k) == NetBalance(env, s.chain.Stored(), k)
  {
  }

  // ---- Checkpoints ----

  lemma {:induction false} LessIsStrict(a: Bytes)
    ensures !Less(a, a)
  {
    if a != [] { LessIsStrict(a[1..]); }
  }

  lemma {:induction false} ListedHeight(table: seq<(u64, Bytes)>, n: nat)
    requires n < |table|
    ensures CheckpointHash(table, table[n].0).Some?
  {
    if n > 0 { ListedHeight(table[1..], n - 1); }
  }

  /** Where the tip is the last passed checkpoint, a competing block cannot be the listed one. */
  lemma CheckpointBlockIsRefused(env: Env, seen: u64, now: u64, s: Node, b: Block)
    requires Synced(env, s) && 0 < s.chain.height <= MAX_HEIGHT && Beats(env, seen, s.chain, b)
    requires Anchor(env.checkpoints, s.chain.height) == s.chain.height
    ensures !Accepts(env, Live(now), RevertTip(s), b) && !RejectsLate(env, Live(now), RevertTip(s), b)
  {
    hide Diff, Snapshots, Tracks, RevertTip, ValidHeader, ApplyLedger;
    var h := s.chain.height;
    LessIsStrict(b.hash);
    var i :| 0 <= i < |env.checkpoints| && env.checkpoints[i].0 == h;
    ListedHeight(env.checkpoints, i);
    StoredBlocksSound(env, s.chain, h);
  }

  /**
   * The handler reverts with the bare revert, so a checkpoint does not hold there: the checkpointed tip
   * is given up for a block that is bound to be refused, and comes back exactly if it is still recent
   * and its transactions are in order.
   */
  lemma CheckpointTipCanFall(env: Env, seen: u64, applied: u64, restored: u64, s: Node, b: Block)
    requires Synced(env, s) && 0 < s.chain.height < MAX_HEIGHT && Beats(env, seen, s.chain, b)
    requires Anchor(env.checkpoints, s.chain.height) == s.chain.height
    ensures var tip, s' := s.chain.Tip(), ReplaceTip(env, seen, applied, restored, s, b);
      var back := OnTime(restored, tip) && InOrder(RevertTip(s).accounts, tip.header.miner, tip.transactions);
      && s'.chain.Stored() == (if back then s.chain.Stored() else Init(s.chain.Stored()))
      && (back ==> Synced(env, s'))
  {
    hide Beats, Synced, RevertTip, Apply, Accepts, OnTime, RejectsLate, InOrder, Covered, HeaderOk, FundedTxs, Anchor;
    CheckpointBlockIsRefused(env, seen, applied, s, b);
    ParentIsSynced(env, s);
    var tip, r := s.chain.Tip(), RevertTip(s);
    FailedAttempt(env, applied, r, b);
    FailedReplacement(env, seen, applied, restored, s, b);
    ParentBalances(env, r);
    CoveredIsFunded(env, r.accounts, Init(s.chain.Stored()), tip.header.miner, tip.transactions);
  }
}
