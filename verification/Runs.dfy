/** Whole runs of a node: any mix of applied, rejected and reverted blocks, from a fresh start. */
module Runs {
  import opened Primitives
  import opened Types
  import opened Difficulty
  import opened History
  import opened LedgerModel
  import opened LedgerLaws
  import opened ChainModel
  import opened ChainLaws

  datatype Step =
    | ApplyStep(mode: Mode, block: Block)
    | RevertTipStep
    | RevertToStep(target: u64)

  function Next(env: Env, s: Node, step: Step): (s': Node)
    requires s.chain.Readable()
    ensures s'.chain.Readable()
  {
    match step
    case ApplyStep(mode, b) => Apply(env, mode, s, b)
    case RevertTipStep => if s.chain.height == 0 then s else RevertTip(s)
    case RevertToStep(target) => RevertToHeight(env, s, target)
  }

  function Run(env: Env, s: Node, steps: seq<Step>): (s': Node)
    requires s.chain.Readable()
    ensures s'.chain.Readable()
  {
    if steps == [] then s else Next(env, Run(env, s, Init(steps)), Last(steps))
  }

  /** No step of the run starts at or above `limit`. */
  predicate Below(env: Env, s: Node, steps: seq<Step>, limit: int)
    requires s.chain.Readable()
  {
    steps == [] || (Below(env, s, Init(steps), limit) && Run(env, s, Init(steps)).chain.height < limit)
  }

  /** No block of the run is rejected after its reward was credited. */
  predicate NoLateRejection(env: Env, s: Node, steps: seq<Step>)
    requires s.chain.Readable()
  {
    steps == [] ||
    (&& NoLateRejection(env, s, Init(steps))
     && (Last(steps).ApplyStep? ==>
           !RejectsLate(env, Last(steps).mode, Run(env, s, Init(steps)), Last(steps).block)))
  }

  /** A live block stays clear of counter wrap-around, a downloaded one is consecutive where it is applied. */
  ghost predicate KeepsSequence(s: Node, step: Step)
    requires s.chain.Readable()
  {
    step.ApplyStep? ==>
      var txs := step.block.transactions;
      (step.mode.Live? && forall i :: 0 <= i < |txs| ==> txs[i].sequence != 0)
      || ConsecutiveTxs(s.chain.Stored(), txs)
  }

  ghost predicate KeepsSequences(env: Env, s: Node, steps: seq<Step>)
    requires s.chain.Readable()
  {
    steps == [] ||
    (KeepsSequences(env, s, Init(steps)) && KeepsSequence(Run(env, s, Init(steps)), Last(steps)))
  }

  // ---- The chain, over every run ----

  /**
   * From a fresh start, through accepted blocks, blocks rejected at any stage, and reverts of any
   * depth, the store stays exactly one linked history with its own difficulty and snapshots.
   */
  lemma {:induction false} RunStaysConsistent(env: Env, steps: seq<Step>)
    requires Below(env, FreshNode(env), steps, U64_MAX)
    ensures Consistent(env, Run(env, FreshNode(env), steps).chain)
  {
    if steps == [] {
      FreshNodeSynced(env);
    } else {
      RunStaysConsistent(env, Init(steps));
      StepConsistent(env, Run(env, FreshNode(env), Init(steps)), Last(steps));
    }
  }

  lemma StepConsistent(env: Env, s: Node, step: Step)
    requires Consistent(env, s.chain) && s.chain.height < U64_MAX
    ensures Consistent(env, Next(env, s, step).chain)
  {
    match step
    case ApplyStep(mode, b) => ApplyConsistent(env, mode, s, b);
    case RevertTipStep => if s.chain.height > 0 { TruncateConsistent(env, s.chain); }
    case RevertToStep(target) => RevertToHeightCuts(env, s, target);
  }

  /** What every stored block satisfies, and what the cached difficulty is, in any consistent chain. */
  lemma StoredBlocksSound(env: Env, c: Chain, i: u64)
    requires Consistent(env, c) && i <= c.height
    ensures forall j :: j in c.disk.blocks <==> 0 <= j <= c.height
    ensures c.disk.blocks[0] == Block(Header(0, ZERO_HASH, 1_772_975_700_000, ZERO_HASH, 0, 0), env.genesisHash, [])
    ensures i > 0 ==>
      var b := c.disk.blocks[i];
      && b.header.index == i
      && b.header.prevHash == c.disk.blocks[i - 1].hash
      && b.hash == HeaderHash(env, b.header)
      && b.header.reward == TESTNET_REWARD
      && MeetsDifficulty(b.hash, Diff(c.Stored()[..i]))
      && CheckpointOk(env, b)
      && forall n :: 0 <= n < |b.transactions| ==> SigOk(env, b.transactions[n])
    ensures 1 <= c.difficulty <= 30
  {
    hide Diff, MeetsDifficulty, CheckpointOk, Snapshots;
    var bs := c.Stored();
    LinkedPrefix(env, bs, 1);
    if i > 0 {
      LinkedPrefix(env, bs, i);
      assert Last(bs[..i]) == c.disk.blocks[i - 1];
    }
  }

  // ---- The ledger, over every run ----

  /** Over any run without late rejections the ledger is the one of the blocks now stored. */
  lemma {:induction false} RunStaysSynced(env: Env, steps: seq<Step>)
    requires Below(env, FreshNode(env), steps, MAX_HEIGHT) && NoLateRejection(env, FreshNode(env), steps)
    ensures Synced(env, Run(env, FreshNode(env), steps))
    ensures Run(env, FreshNode(env), steps).chain.height <= MAX_HEIGHT
  {
    if steps == [] {
      FreshNodeSynced(env);
    } else {
      RunStaysSynced(env, Init(steps));
      StepSynced(env, Run(env, FreshNode(env), Init(steps)), Last(steps));
    }
  }

  lemma StepSynced(env: Env, s: Node, step: Step)
    requires Synced(env, s) && s.chain.height < MAX_HEIGHT
    requires step.ApplyStep? ==> !RejectsLate(env, step.mode, s, step.block)
    ensures Synced(env, Next(env, s, step)) && Next(env, s, step).chain.height <= s.chain.height + 1
  {
    match step
    case ApplyStep(mode, b) =>
      if Accepts(env, mode, s, b) { ApplySynced(env, mode, s, b); }
    case RevertTipStep =>
      if s.chain.height > 0 { RevertTipSynced(env, s); }
    case RevertToStep(target) =>
      RevertToHeightCuts(env, s, target);
      RevertToHeightSynced(env, s, target);
  }

  lemma {:induction false} RunKeepsCounts(env: Env, steps: seq<Step>)
    requires Below(env, FreshNode(env), steps, MAX_HEIGHT) && NoLateRejection(env, FreshNode(env), steps)
    requires KeepsSequences(env, FreshNode(env), steps)
    ensures SyncedWithCounts(env, Run(env, FreshNode(env), steps))
    ensures Run(env, FreshNode(env), steps).chain.height <= MAX_HEIGHT
  {
    if steps == [] {
      FreshNodeSynced(env);
    } else {
      RunKeepsCounts(env, Init(steps));
      StepKeepsCounts(env, Run(env, FreshNode(env), Init(steps)), Last(steps));
      StepSynced(env, Run(env, FreshNode(env), Init(steps)), Last(steps));
    }
  }

  lemma StepKeepsCounts(env: Env, s: Node, step: Step)
    requires SyncedWithCounts(env, s) && s.chain.height < MAX_HEIGHT
    requires step.ApplyStep? ==> !RejectsLate(env, step.mode, s, step.block)
    requires KeepsSequence(s, step)
    ensures SyncedWithCounts(env, Next(env, s, step))
  {
    match step
    case ApplyStep(mode, b) =>
      if Accepts(env, mode, s, b) { ApplyCounts(env, mode, s, b); }
    case RevertTipStep =>
      if s.chain.height > 0 { RevertTipCounts(env, s); }
    case RevertToStep(target) =>
      RevertToHeightSynced(env, s, target);
  }

  /**
   * At every point of every run without late rejections, undoing the tip is exact at each of its
   * steps: no balance saturates or wraps, and no sequence saturates if the run kept its sequences.
   */
  lemma RunUndoIsSafe(env: Env, steps: seq<Step>, n: nat)
    requires Below(env, FreshNode(env), steps, MAX_HEIGHT) && NoLateRejection(env, FreshNode(env), steps)
    requires Run(env, FreshNode(env), steps).chain.height > 0
    requires n <= |Run(env, FreshNode(env), steps).chain.Tip().transactions|
    ensures var s := Run(env, FreshNode(env), steps);
      var b := s.chain.Tip();
      var l := RevertTxs(s.accounts, b.transactions[n..]);
      && (n > 0 ==> UndoesExactly(l, b.transactions[n - 1]))
      && (n > 0 && KeepsSequences(env, FreshNode(env), steps) ==> Seq(l, b.transactions[n - 1].sender) > 0)
      && (n == 0 ==> Bal(l, b.header.miner) >= b.header.reward)
  {
    hide Synced, UndoesExactly, RevertTxs;
    RunStaysSynced(env, steps);
    UndoIsSafe(env, Run(env, FreshNode(env), steps), n);
    if n > 0 && KeepsSequences(env, FreshNode(env), steps) {
      RunKeepsCounts(env, steps);
      UndoKeepsCounters(env, Run(env, FreshNode(env), steps), n);
    }
  }

  // ---- Replay: a new node downloading a list of blocks ----

  /** A fresh node fed the blocks after genesis, in order, as initial block download does. */
  function Replay(env: Env, bs: seq<Block>): (s: Node)
    ensures s.chain.Readable()
  {
    if |bs| <= 1 then FreshNode(env) else Apply(env, Ibd, Replay(env, Init(bs)), Last(bs))
  }

  /** Where replaying `bs` may end: on exactly `bs` if it is valid, on something shorter if not. */
  ghost predicate ReplayOutcome(env: Env, s: Node, bs: seq<Block>) {
    && Consistent(env, s.chain)
    && if ValidHistory(env, bs) then
         && s.chain.Stored() == bs
         && Synced(env, s)
         && (ConsecutiveHistory(bs) ==> SyncedWithCounts(env, s))
       else |s.chain.Stored()| <= |bs| && s.chain.Stored() != bs
  }

  lemma ReplayGenesis(env: Env)
    ensures ReplayOutcome(env, FreshNode(env), [Genesis(env)])
  {
    hide Tracks, Counts, Snapshots, Diff;
    FreshNodeSynced(env);
  }

  /** A new node ends on exactly the given blocks if and only if they form a valid history. */
  lemma {:induction false} ReplayAcceptsValid(env: Env, bs: seq<Block>)
    requires bs != [] && bs[0] == Genesis(env) && |bs| <= MAX_HEIGHT
    ensures ReplayOutcome(env, Replay(env, bs), bs)
  {
    hide ReplayOutcome, Apply, FreshNode;
    if |bs| == 1 {
      assert bs == [Genesis(env)];
      ReplayGenesis(env);
    } else {
      ReplayAcceptsValid(env, Init(bs));
      assert Init(bs) + [Last(bs)] == bs;
      ReplayStep(env, Replay(env, Init(bs)), Init(bs), Last(bs));
    }
  }

  lemma ReplayStep(env: Env, s: Node, bs: seq<Block>, b: Block)
    requires bs != [] && |bs| < MAX_HEIGHT && ReplayOutcome(env, s, bs)
    ensures ReplayOutcome(env, Apply(env, Ibd, s, b), bs + [b])
  {
    assert Init(bs + [b]) == bs && Last(bs + [b]) == b;
    if ValidHistory(env, bs) {
      ReplayValidStep(env, s, bs, b);
    } else {
      ApplyConsistent(env, Ibd, s, b);
      if s.chain.Stored() + [b] == bs + [b] { Unsnoc(s.chain.Stored(), bs, b); }
    }
  }

  lemma ReplayValidStep(env: Env, s: Node, bs: seq<Block>, b: Block)
    requires bs != [] && |bs| < MAX_HEIGHT && Synced(env, s) && s.chain.Stored() == bs
    requires ConsecutiveHistory(bs) ==> SyncedWithCounts(env, s)
    requires ValidHistory(env, bs + [b]) <==> ValidNext(env, bs, b)
    requires ConsecutiveHistory(bs + [b]) <==> ConsecutiveHistory(bs) && ConsecutiveTxs(bs, b.transactions)
    ensures ReplayOutcome(env, Apply(env, Ibd, s, b), bs + [b])
  {
    hide Diff, Snapshots, FundedTxs, LinkedHistory;
    IbdAcceptsValid(env, s, b);
    if ConsecutiveTxs(bs, b.transactions) { AcceptedKeepsCounts(env, s, b); }
    ApplyConsistent(env, Ibd, s, b);
  }

  lemma Unsnoc<T>(xs: seq<T>, ys: seq<T>, x: T)
    requires xs + [x] == ys + [x]
    ensures xs == ys
  {
    assert xs == (xs + [x])[..|xs|] && ys == (ys + [x])[..|ys|];
    assert |xs + [x]| == |ys + [x]|;
  }

  lemma AcceptedKeepsCounts(env: Env, s: Node, b: Block)
    requires Synced(env, s) && s.chain.height < MAX_HEIGHT
    requires ConsecutiveTxs(s.chain.Stored(), b.transactions)
    ensures SyncedWithCounts(env, s) && Accepts(env, Ibd, s, b) ==> SyncedWithCounts(env, Apply(env, Ibd, s, b))
  {
    if SyncedWithCounts(env, s) && Accepts(env, Ibd, s, b) { ApplyCounts(env, Ibd, s, b); }
  }

  /**
   * The main theorem: after any run without late rejections, every balance, the difficulty and the
   * supply are those of a new node that downloads the blocks now stored; so are the sequences if
   * the run kept them.
   */
  lemma RunEqualsReplay(env: Env, steps: seq<Step>, k: Bytes)
    requires Below(env, FreshNode(env), steps, MAX_HEIGHT) && NoLateRejection(env, FreshNode(env), steps)
    requires Run(env, FreshNode(env), steps).chain.height < MAX_HEIGHT
    ensures var s := Run(env, FreshNode(env), steps);
      var rebuilt := Replay(env, s.chain.Stored());
      && rebuilt.chain.Stored() == s.chain.Stored()
      && rebuilt.chain.difficulty == s.chain.difficulty
      && Bal(rebuilt.accounts, k) == Bal(s.accounts, k)
      && Supply(rebuilt.accounts) == Supply(s.accounts)
      && (KeepsSequences(env, FreshNode(env), steps) ==> Seq(rebuilt.accounts, k) == Seq(s.accounts, k))
  {
    var s := Run(env, FreshNode(env), steps);
    var bs := s.chain.Stored();
    RunStaysSynced(env, steps);
    LinkedPrefix(env, bs, 1);
    ReplayAcceptsValid(env, bs);
    var rebuilt := Replay(env, bs);
    assert Bal(s.accounts, k) == NetBalance(env, bs, k) == Bal(rebuilt.accounts, k);
    if KeepsSequences(env, FreshNode(env), steps) {
      RunKeepsCounts(env, steps);
      assert Seq(s.accounts, k) == Sent(bs, k) + SentIn([], k) == Seq(rebuilt.accounts, k);
    }
  }

  /** A chain built live, without reverts, is reproduced by download to the last byte of the ledger. */
  lemma {:induction false} LiveBuildEqualsReplay(env: Env, steps: seq<Step>)
    requires Below(env, FreshNode(env), steps, U64_MAX) && NoLateRejection(env, FreshNode(env), steps)
    requires forall i :: 0 <= i < |steps| ==> steps[i].ApplyStep?
    ensures var s := Run(env, FreshNode(env), steps); s == Replay(env, s.chain.Stored())
  {
    if steps != [] {
      LiveBuildEqualsReplay(env, Init(steps));
      RunStaysConsistent(env, Init(steps));
      var s, step := Run(env, FreshNode(env), Init(steps)), Last(steps);
      ApplyConsistent(env, step.mode, s, step.block);
      if Accepts(env, step.mode, s, step.block) {
        ReplayExtends(env, s, s.chain.Stored(), step.mode, step.block);
      }
    }
  }

  lemma ReplayExtends(env: Env, s: Node, bs: seq<Block>, mode: Mode, b: Block)
    requires bs != [] && s == Replay(env, bs) && Accepts(env, mode, s, b)
    ensures Apply(env, mode, s, b) == Replay(env, bs + [b])
  {
    if mode.Live? { LiveRefinesIbd(env, mode.now, s, b); }
    assert Init(bs + [b]) == bs && Last(bs + [b]) == b;
  }

  // ---- Conservation ----

  /** Supply is premine plus rewards minus every fee burned in the blocks now stored. */
  lemma RunConservesSupply(env: Env, steps: seq<Step>, k: Bytes)
    requires Below(env, FreshNode(env), steps, MAX_HEIGHT) && NoLateRejection(env, FreshNode(env), steps)
    ensures var s := Run(env, FreshNode(env), steps);
      && Supply(s.accounts) ==
           20_000_000_000_000 + 15_850_000 * s.chain.height - TotalFees(s.chain.Stored())
      && Bal(s.accounts, k) <= Supply(s.accounts) < U64_MAX
  {
    RunStaysSynced(env, steps);
    var s := Run(env, FreshNode(env), steps);
    BalanceWithinSupply(s.accounts, k);
  }

  /**
   * A late rejection unbalances the books by exactly the reward, less the fees of what was applied;
   * the node stays synced only if the reward and those transactions cancel out for every account.
   */
  lemma LateRejectionSupply(env: Env, mode: Mode, s: Node, b: Block)
    requires Synced(env, s) && s.chain.height < MAX_HEIGHT && RejectsLate(env, mode, s, b)
    ensures var s' := Apply(env, mode, s, b);
      var part := b.transactions[..ApplyLedger(env, mode, s.accounts, b).applied];
      && s'.chain == s.chain
      && Supply(s'.accounts) == Supply(s.accounts) + TESTNET_REWARD - Fees(part)
      && (forall k :: Bal(s'.accounts, k) == Bal(s.accounts, k) + Mint(b.header.miner, k) + TxsDelta(part, k))
      && (Synced(env, s') <==> forall k :: Mint(b.header.miner, k) + TxsDelta(part, k) == 0)
  {
    hide Supply, Sound, Snapshots, FundedHistory, Precheck;
    var bs, miner := s.chain.Stored(), b.header.miner;
    var part := b.transactions[..ApplyLedger(env, mode, s.accounts, b).applied];
    var s' := Apply(env, mode, s, b);
    LateResidueTracks(env, mode, s, b);
    forall k ensures Bal(s'.accounts, k) == Bal(s.accounts, k) + Mint(miner, k) + TxsDelta(part, k) {
      assert Bal(s'.accounts, k) == Available(env, bs, miner, part, k);
      assert Bal(s.accounts, k) == NetBalance(env, bs, k);
    }
    if forall k :: Mint(miner, k) + TxsDelta(part, k) == 0 {
      forall k ensures Bal(s'.accounts, k) == Bal(s.accounts, k) {
        assert Mint(miner, k) + TxsDelta(part, k) == 0;
      }
      SameBalancesSameSupply(s'.accounts, s.accounts);
    }
    if Synced(env, s') {
      forall k ensures Mint(miner, k) + TxsDelta(part, k) == 0 {
        assert Bal(s'.accounts, k) == NetBalance(env, bs, k) == Bal(s.accounts, k);
      }
    }
  }

  /** The ledger after a late rejection is the one inside the block, at the transaction that failed. */
  lemma LateResidueTracks(env: Env, mode: Mode, s: Node, b: Block)
    requires Synced(env, s) && s.chain.height < MAX_HEIGHT && RejectsLate(env, mode, s, b)
    ensures var part := b.transactions[..ApplyLedger(env, mode, s.accounts, b).applied];
      TracksInside(env, Apply(env, mode, s, b).accounts, s.chain.Stored(), b.header.miner, part)
  {
    hide Supply, Snapshots, Diff, MeetsDifficulty, CheckpointOk;
    var bs, miner := s.chain.Stored(), b.header.miner;
    var start := ApplyCoinbase(env, s.accounts, miner, TESTNET_REWARD);
    var part := b.transactions[..ApplyLedger(env, mode, s.accounts, b).applied];
    RejectionResidue(env, mode, s, b);
    if mode.Live? { LiveTxsRefineIbd(env, mode.now, start, part); }
    CoinbaseTracks(env, s.accounts, bs, miner);
    IbdTxsTrack(env, start, bs, miner, part);
    assert part[..|part|] == part;
  }

  /**
   * What a downloaded block that does not continue the history leaves behind: nothing if it breaks a
   * header rule, otherwise the reward and its funded transactions up to the first unfunded one.
   */
  lemma IbdRejection(env: Env, s: Node, b: Block)
    requires Synced(env, s) && s.chain.height < MAX_HEIGHT && !ValidNext(env, s.chain.Stored(), b)
    ensures !HeaderOk(env, s.chain.Stored(), b) ==> Apply(env, Ibd, s, b) == s
    ensures HeaderOk(env, s.chain.Stored(), b) ==>
      var n := FundedCount(env, s.chain.Stored(), b.header.miner, b.transactions);
      && n < |b.transactions| && Apply(env, Ibd, s, b).chain == s.chain
      && TracksInside(env, Apply(env, Ibd, s, b).accounts, s.chain.Stored(), b.header.miner, b.transactions[..n])
  {
    hide HeaderOk, FundedTxs, Snapshots, Sound, TracksInside, Precheck;
    IbdAcceptsValid(env, s, b);
    RejectionResidue(env, Ibd, s, b);
    if HeaderOk(env, s.chain.Stored(), b) {
      LateResidueTracks(env, Ibd, s, b);
      CoinbaseTracks(env, s.accounts, s.chain.Stored(), b.header.miner);
      var start := ApplyCoinbase(env, s.accounts, b.header.miner, TESTNET_REWARD);
      IbdAppliesFunded(env, start, s.chain.Stored(), b.header.miner, b.transactions);
      RewardIsCanonical(env, s, b);
    }
  }

  lemma RewardIsCanonical(env: Env, s: Node, b: Block)
    requires s.chain.Readable() && RejectsLate(env, Ibd, s, b)
    ensures b.header.reward == TESTNET_REWARD
  {
  }

  // ---- Checkpoints ----

  lemma {:induction false} AnchorMonotone(table: seq<(u64, Bytes)>, low: u64, high: u64)
    requires low <= high
    ensures Anchor(table, low) <= Anchor(table, high)
  {
    if table != [] { AnchorMonotone(Init(table), low, high); }
  }

  /** Each bare revert of the run starts strictly above the last passed checkpoint, or at genesis. */
  predicate RevertsAboveAnchor(env: Env, s: Node, steps: seq<Step>)
    requires s.chain.Readable()
  {
    steps == [] ||
    (&& RevertsAboveAnchor(env, s, Init(steps))
     && (Last(steps).RevertTipStep? ==>
           var h := Run(env, s, Init(steps)).chain.height; h == 0 || Anchor(env.checkpoints, h) < h))
  }

  /** No step of the run ends below the checkpoint that was passed where it started. */
  predicate StaysAboveAnchor(env: Env, s: Node, steps: seq<Step>)
    requires s.chain.Readable()
  {
    steps == [] ||
    (&& StaysAboveAnchor(env, s, Init(steps))
     && Run(env, s, steps).chain.height >= Anchor(env.checkpoints, Run(env, s, Init(steps)).chain.height))
  }

  /** A run never goes below a passed checkpoint exactly if its bare reverts start above one. */
  lemma {:induction false} CheckpointsHoldExactly(env: Env, s: Node, steps: seq<Step>)
    requires Consistent(env, s.chain) && Below(env, s, steps, U64_MAX)
    ensures Consistent(env, Run(env, s, steps).chain)
    ensures StaysAboveAnchor(env, s, steps) <==> RevertsAboveAnchor(env, s, steps)
  {
    hide Consistent, Next, Anchor;
    if steps != [] {
      CheckpointsHoldExactly(env, s, Init(steps));
      var mid := Run(env, s, Init(steps));
      StepConsistent(env, mid, Last(steps));
      if Last(steps).RevertTipStep? {
        BareRevertIgnoresCheckpoints(env, mid);
      } else {
        CheckpointKept(env, mid, Last(steps), Anchor(env.checkpoints, mid.chain.height), mid.chain.height);
      }
    }
  }

  /**
   * Once the height has reached a checkpoint, no run of applies, guarded reverts, and bare reverts
   * from above the last passed checkpoint ever changes a block at or below it.
   */
  lemma {:induction false} CheckpointsAreFinal(env: Env, s: Node, steps: seq<Step>, c: u64)
    requires Consistent(env, s.chain) && Below(env, s, steps, U64_MAX)
    requires c == Anchor(env.checkpoints, s.chain.height)
    requires RevertsAboveAnchor(env, s, steps)
    ensures var s' := Run(env, s, steps);
      && Consistent(env, s'.chain)
      && s'.chain.height >= c
      && s'.chain.Stored()[..c + 1] == s.chain.Stored()[..c + 1]
  {
    if steps != [] {
      CheckpointsAreFinal(env, s, Init(steps), c);
      CheckpointKept(env, Run(env, s, Init(steps)), Last(steps), c, s.chain.height);
    }
  }

  lemma CheckpointKept(env: Env, s: Node, step: Step, c: u64, reached: u64)
    requires Consistent(env, s.chain) && s.chain.height < U64_MAX
    requires c == Anchor(env.checkpoints, reached) && c <= s.chain.height
    requires step.RevertTipStep? ==> s.chain.height == 0 || Anchor(env.checkpoints, s.chain.height) < s.chain.height
    ensures var s' := Next(env, s, step);
      && Consistent(env, s'.chain)
      && s'.chain.height >= c
      && s'.chain.Stored()[..c + 1] == s.chain.Stored()[..c + 1]
  {
    StepConsistent(env, s, step);
    match step
    case ApplyStep(mode, b) => ApplyKeepsPrefix(env, mode, s, b, c);
    case RevertTipStep =>
      AnchorReached(env.checkpoints, reached, s.chain.height);
      if s.chain.height > 0 {
        TruncateConsistent(env, s.chain);
        PrefixOfPrefix(s.chain.Stored(), s.chain.height, c + 1);
      }
    case RevertToStep(target) =>
      AnchorReached(env.checkpoints, reached, s.chain.height);
      RevertKeepsPrefix(env, s, target, c);
  }

  lemma ApplyKeepsPrefix(env: Env, mode: Mode, s: Node, b: Block, c: u64)
    requires Consistent(env, s.chain) && c <= s.chain.height < U64_MAX
    ensures var s' := Apply(env, mode, s, b);
      s'.chain.height >= c && s'.chain.Stored()[..c + 1] == s.chain.Stored()[..c + 1]
  {
    ApplyConsistent(env, mode, s, b);
    PrefixKept(s.chain.Stored(), b, c + 1);
  }

  lemma PrefixKept<T>(xs: seq<T>, x: T, n: nat)
    requires n <= |xs|
    ensures (xs + [x])[..n] == xs[..n]
  {
  }

  lemma RevertKeepsPrefix(env: Env, s: Node, target: u64, c: u64)
    requires Consistent(env, s.chain) && c <= Anchor(env.checkpoints, s.chain.height)
    ensures var s' := RevertToHeight(env, s, target);
      s'.chain.height >= c && s'.chain.Stored()[..c + 1] == s.chain.Stored()[..c + 1]
  {
    RevertToHeightCuts(env, s, target);
    if c <= target < s.chain.height {
      PrefixOfPrefix(s.chain.Stored(), target + 1, c + 1);
    }
  }

  lemma PrefixOfPrefix<T>(xs: seq<T>, n: nat, m: nat)
    requires m <= n <= |xs|
    ensures xs[..n][..m] == xs[..m]
  {
  }

  /** Every listed height that the chain has reached holds a block with the listed hash. */
  lemma CheckpointHashesHold(env: Env, c: Chain, n: nat)
    requires Consistent(env, c) && n < |env.checkpoints| && 0 < env.checkpoints[n].0 <= c.height
    requires forall i :: 0 <= i < n ==> env.checkpoints[i].0 != env.checkpoints[n].0
    ensures c.disk.blocks[env.checkpoints[n].0].hash == env.checkpoints[n].1
  {
    hide Diff, LinkedHistory, Snapshots;
    StoredBlocksSound(env, c, env.checkpoints[n].0);
    CheckpointHashIsFirst(env.checkpoints, n);
  }

  /** A checkpoint that the height still covers stays part of the revert floor. */
  lemma AnchorReached(table: seq<(u64, Bytes)>, reached: u64, height: u64)
    requires Anchor(table, reached) <= height
    ensures Anchor(table, reached) <= Anchor(table, height)
  {
    if reached <= height {
      AnchorMonotone(table, reached, height);
    }
  }

  /**
   * Reverting only the tip has no such floor: above genesis it stays at or above the last passed
   * checkpoint exactly if the tip is not that checkpoint. The guarded revert then refuses.
   */
  lemma BareRevertIgnoresCheckpoints(env: Env, s: Node)
    requires Consistent(env, s.chain)
    ensures var anchor, h := Anchor(env.checkpoints, s.chain.height), s.chain.height;
      && (Next(env, s, RevertTipStep).chain.height >= anchor <==> h == 0 || anchor < h)
      && (h > 0 && anchor == h ==> Next(env, s, RevertToStep(h - 1)) == s)
  {
    if s.chain.height > 0 { RevertToHeightCuts(env, s, s.chain.height - 1); }
  }
}
