/** What a batch of downloaded blocks does to a node: plain download, deep reorganisation, recovery. */
module Sync {
  import opened Primitives
  import opened Types
  import opened History
  import opened LedgerModel
  import opened LedgerLaws
  import opened ChainModel
  import opened ChainLaws
  import opened ForkPoint
  import opened Runs

  const IBD_CHUNK_SIZE: u64 := 25

  /** The node after a batch, and how many leading blocks were applied; the next one, if any, was rejected. */
  datatype BatchOutcome = BatchOutcome(node: Node, applied: nat)

  function ApplyBatch(env: Env, s: Node, blocks: seq<Block>): (o: BatchOutcome)
    requires s.chain.Readable()
    ensures o.node.chain.Readable() && o.applied <= |blocks|
  {
    if blocks == [] then BatchOutcome(s, 0)
    else
      var o := ApplyBatch(env, s, Init(blocks));
      if o.applied < |blocks| - 1 then o
      else
        BatchOutcome(Apply(env, Ibd, o.node, Last(blocks)),
          if Accepts(env, Ibd, o.node, Last(blocks)) then |blocks| else |blocks| - 1)
  }

  function MaxIndex(blocks: seq<Block>): u64 {
    if blocks == [] then 0 else Max(MaxIndex(Init(blocks)), Last(blocks).header.index)
  }

  function AboveFork(blocks: seq<Block>, fork: u64): seq<Block> {
    if blocks == [] then []
    else AboveFork(Init(blocks), fork) + if Last(blocks).header.index > fork then [Last(blocks)] else []
  }

  /** How many blocks may be undone: any number towards a much longer chain, ten otherwise. */
  function MaxReorg(height: u64, incomingMax: int): u64 {
    if incomingMax > height + 5 then height else 10
  }

  /** The reaction to a rejected block of the batch. */
  function Recover(env: Env, s: Node, blocks: seq<Block>, applied: nat, peerHeight: Option<u64>): (o: BatchOutcome)
    requires s.chain.Readable()
    ensures o.node.chain.Readable()
  {
    var h, incomingMax := s.chain.height, MaxIndex(blocks);
    if incomingMax <= h then BatchOutcome(s, applied)
    else
      match ForkPoint.ForkPoint(s.chain.disk.blocks, blocks)
      case Some(fork) =>
        var anchor := Anchor(env.checkpoints, SatSub(h, 1));
        if fork == h && applied == 0 && incomingMax > h + 50 && anchor < h then
          BackTo(env, s, anchor, applied)
        else if (h - fork) % TWO64 > MaxReorg(h, incomingMax) || !MayRevertTo(env, s, fork) then
          BatchOutcome(s, applied)
        else
          var o := ApplyBatch(env, RevertToHeight(env, s, fork), AboveFork(blocks, fork));
          BatchOutcome(o.node, applied + o.applied)
      case None =>
        var announced := if peerHeight.Some? then peerHeight.value else incomingMax;
        if incomingMax > h + 10 && (h < 200 || announced > h + 300) then
          BackTo(env, s, if h < 200 then 0 else Anchor(env.checkpoints, SatSub(h, 1)), applied)
        else BatchOutcome(s, applied)
  }

  /** Roll back to an anchor; success counts as progress so that the download continues from there. */
  function BackTo(env: Env, s: Node, anchor: u64, applied: nat): (o: BatchOutcome)
    requires s.chain.Readable()
    ensures o.node.chain.Readable()
  {
    BatchOutcome(RevertToHeight(env, s, anchor), if MayRevertTo(env, s, anchor) then 1 else applied)
  }

  /** The whole reaction to a batch. */
  function HandleBlocks(env: Env, s: Node, blocks: seq<Block>, peerHeight: Option<u64>): (o: BatchOutcome)
    requires s.chain.Readable()
    ensures o.node.chain.Readable()
  {
    var o := ApplyBatch(env, s, blocks);
    if o.applied == |blocks| then o else Recover(env, o.node, blocks, o.applied, peerHeight)
  }

  /** The range to ask for next, if the peer is ahead. */
  function NextRange(height: u64, peerHeight: u64): Option<(int, int)> {
    if height < peerHeight then Some((height + 1, Min(height + 1 + IBD_CHUNK_SIZE - 1, peerHeight))) else None
  }

  // ---- Batches ----

  /** A rejected block ends the batch: what follows it has no effect. */
  lemma {:induction false} BatchStops(env: Env, s: Node, blocks: seq<Block>, n: nat)
    requires s.chain.Readable() && n <= |blocks| && ApplyBatch(env, s, blocks[..n]).applied < n
    ensures ApplyBatch(env, s, blocks) == ApplyBatch(env, s, blocks[..n])
    decreases |blocks|
  {
    if n < |blocks| {
      assert Init(blocks)[..n] == blocks[..n];
      BatchStops(env, s, Init(blocks), n);
    } else {
      assert blocks[..n] == blocks;
    }
  }

  /** Whatever the batch, the chain stays consistent and grows by exactly the applied blocks. */
  lemma {:induction false} BatchConsistent(env: Env, s: Node, blocks: seq<Block>)
    requires Consistent(env, s.chain) && s.chain.height + |blocks| < U64_MAX
    ensures var o := ApplyBatch(env, s, blocks);
      && Consistent(env, o.node.chain)
      && o.node.chain.Stored() == s.chain.Stored() + blocks[..o.applied]
    decreases |blocks|
  {
    hide Consistent, Apply, Accepts;
    if blocks == [] {
      assert s.chain.Stored() + blocks[..0] == s.chain.Stored();
      assert ApplyBatch(env, s, blocks) == BatchOutcome(s, 0);
    } else {
      BatchConsistent(env, s, Init(blocks));
      var o := ApplyBatch(env, s, Init(blocks));
      Prefixes(s.chain.Stored(), blocks, o.applied);
      if o.applied == |blocks| - 1 {
        ReadableHeight(o.node.chain, s.chain, Init(blocks));
        ApplyConsistent(env, Ibd, o.node, Last(blocks));
      }
    }
  }

  lemma ReadableHeight(c: Chain, c0: Chain, blocks: seq<Block>)
    requires c.Readable() && c0.Readable() && c.Stored() == c0.Stored() + blocks
    ensures c.height == c0.height + |blocks|
  {
    assert |c.Stored()| == |c0.Stored()| + |blocks|;
  }

  lemma Prefixes<T>(xs: seq<T>, ys: seq<T>, n: nat)
    requires ys != [] && n <= |ys| - 1
    ensures ys[..n] == Init(ys)[..n]
    ensures n == |ys| - 1 ==> xs + ys[..n] == xs + Init(ys) && xs + Init(ys) + [Last(ys)] == xs + ys[..|ys|]
    ensures ys[..|ys|] == ys
  {
  }

  /** A synced node takes all of a batch exactly if the batch continues its history validly, and is then synced. */
  lemma {:induction false} BatchAdoptsValid(env: Env, s: Node, blocks: seq<Block>)
    requires Synced(env, s) && s.chain.height + |blocks| < MAX_HEIGHT
    ensures ApplyBatch(env, s, blocks).applied == |blocks| <==> ValidHistory(env, s.chain.Stored() + blocks)
    ensures ApplyBatch(env, s, blocks).applied == |blocks| ==>
      && Synced(env, ApplyBatch(env, s, blocks).node)
      && ApplyBatch(env, s, blocks).node.chain.Stored() == s.chain.Stored() + blocks
    decreases |blocks|
  {
    hide HeaderOk, FundedTxs, Apply, Accepts, Consistent, Tracks, Diff;
    var bs := s.chain.Stored();
    if blocks == [] {
      assert bs + blocks == bs;
      SyncedIsValid(env, s);
    } else {
      BatchAdoptsValid(env, s, Init(blocks));
      assert Init(bs + blocks) == bs + Init(blocks) && Last(bs + blocks) == Last(blocks);
      assert bs + Init(blocks) + [Last(blocks)] == bs + blocks;
      var o := ApplyBatch(env, s, Init(blocks));
      if o.applied == |blocks| - 1 {
        IbdAcceptsValid(env, o.node, Last(blocks));
      }
    }
  }

  lemma SyncedIsValid(env: Env, s: Node)
    requires Synced(env, s)
    ensures ValidHistory(env, s.chain.Stored())
  {
  }

  /** A batch whose valid part ends at `k` is applied up to `k`. */
  lemma BatchStopsAtInvalid(env: Env, s: Node, blocks: seq<Block>, k: nat)
    requires Synced(env, s) && s.chain.height + |blocks| < MAX_HEIGHT && k < |blocks|
    requires ValidHistory(env, s.chain.Stored() + blocks[..k])
    requires !ValidHistory(env, s.chain.Stored() + blocks[..k + 1])
    ensures ApplyBatch(env, s, blocks).applied == k
  {
    hide ValidHistory, Synced, Consistent, Apply, Accepts;
    BatchAdoptsValid(env, s, blocks[..k]);
    BatchAdoptsValid(env, s, blocks[..k + 1]);
    assert Init(blocks[..k + 1]) == blocks[..k];
    BatchStops(env, s, blocks, k + 1);
  }

  // ---- Any batch ----

  lemma BackToConsistent(env: Env, s: Node, anchor: u64, applied: nat)
    requires Consistent(env, s.chain)
    ensures Consistent(env, BackTo(env, s, anchor, applied).node.chain)
    ensures KeepsUpTo(s.chain, BackTo(env, s, anchor, applied).node.chain, Anchor(env.checkpoints, s.chain.height))
  {
    RevertToHeightCuts(env, s, anchor);
    RevertKeepsPrefix(env, s, anchor, Anchor(env.checkpoints, s.chain.height));
  }

  /** `c'` has the same blocks as `c` up to height `n`. */
  ghost predicate KeepsUpTo(c: Chain, c': Chain, n: u64)
    requires c.Readable() && c'.Readable()
  {
    n <= c.height && n <= c'.height && c.Stored()[..n + 1] == c'.Stored()[..n + 1]
  }

  lemma BatchKeeps(env: Env, s: Node, blocks: seq<Block>)
    requires Consistent(env, s.chain) && s.chain.height + |blocks| < U64_MAX
    ensures var o := ApplyBatch(env, s, blocks);
      && KeepsUpTo(s.chain, o.node.chain, s.chain.height)
      && o.node.chain.height == s.chain.height + o.applied
  {
    hide Consistent, ApplyBatch;
    BatchConsistent(env, s, blocks);
    var o := ApplyBatch(env, s, blocks);
    ReadableHeight(o.node.chain, s.chain, blocks[..o.applied]);
    assert o.node.chain.Stored()[..s.chain.height + 1] == s.chain.Stored() == s.chain.Stored()[..s.chain.height + 1];
  }

  lemma KeepsTransitive(c0: Chain, c1: Chain, c2: Chain, n: u64, m: u64, k: u64)
    requires c0.Readable() && c1.Readable() && c2.Readable()
    requires KeepsUpTo(c0, c1, n) && KeepsUpTo(c1, c2, m) && k <= n && k <= m
    ensures KeepsUpTo(c0, c2, k)
  {
    assert c0.Stored()[..k + 1] == c0.Stored()[..n + 1][..k + 1];
    assert c1.Stored()[..k + 1] == c1.Stored()[..n + 1][..k + 1];
    assert c1.Stored()[..k + 1] == c1.Stored()[..m + 1][..k + 1];
    assert c2.Stored()[..k + 1] == c2.Stored()[..m + 1][..k + 1];
  }

  lemma {:induction false} AboveForkShorter(blocks: seq<Block>, fork: u64)
    ensures |AboveFork(blocks, fork)| <= |blocks|
  {
    if blocks != [] { AboveForkShorter(Init(blocks), fork); }
  }

  lemma ReorgConsistent(env: Env, s: Node, fork: u64, blocks: seq<Block>)
    requires Consistent(env, s.chain) && s.chain.height + |blocks| < U64_MAX && MayRevertTo(env, s, fork)
    ensures var o := ApplyBatch(env, RevertToHeight(env, s, fork), AboveFork(blocks, fork));
      && Consistent(env, o.node.chain)
      && KeepsUpTo(s.chain, o.node.chain, Anchor(env.checkpoints, s.chain.height))
  {
    hide Consistent, ApplyBatch, Anchor, AboveFork, RevertToHeight, KeepsUpTo;
    var r, rest := RevertToHeight(env, s, fork), AboveFork(blocks, fork);
    var floor := Anchor(env.checkpoints, s.chain.height);
    RevertToHeightCuts(env, s, fork);
    AboveForkShorter(blocks, fork);
    RevertKeeps(env, s, fork);
    BatchConsistent(env, r, rest);
    BatchKeeps(env, r, rest);
    KeepsTransitive(s.chain, r.chain, ApplyBatch(env, r, rest).node.chain, floor, r.chain.height, floor);
  }

  lemma RevertKeeps(env: Env, s: Node, fork: u64)
    requires Consistent(env, s.chain) && MayRevertTo(env, s, fork)
    ensures var r, floor := RevertToHeight(env, s, fork), Anchor(env.checkpoints, s.chain.height);
      KeepsUpTo(s.chain, r.chain, floor) && floor <= r.chain.height <= s.chain.height
  {
    RevertKeepsPrefix(env, s, fork, Anchor(env.checkpoints, s.chain.height));
    RevertToHeightCuts(env, s, fork);
  }

  lemma RecoverConsistent(env: Env, s: Node, blocks: seq<Block>, applied: nat, peerHeight: Option<u64>)
    requires Consistent(env, s.chain) && s.chain.height + |blocks| < U64_MAX
    ensures var o := Recover(env, s, blocks, applied, peerHeight);
      && Consistent(env, o.node.chain)
      && KeepsUpTo(s.chain, o.node.chain, Anchor(env.checkpoints, s.chain.height))
  {
    hide Consistent, ApplyBatch, Anchor, AboveFork, RevertToHeight, MaxIndex, ForkPoint.ForkPoint, BackTo;
    var h := s.chain.height;
    var fork := ForkPoint.ForkPoint(s.chain.disk.blocks, blocks);
    if fork.Some? && MayRevertTo(env, s, fork.value) { ReorgConsistent(env, s, fork.value, blocks); }
    BackToConsistent(env, s, Anchor(env.checkpoints, SatSub(h, 1)), applied);
    BackToConsistent(env, s, 0, applied);
  }

  /**
   * Whatever a peer sends, the chain stays consistent and no block at or below the last passed
   * checkpoint changes, through download, reorganisation and both recovery rollbacks.
   */
  lemma AnyBatchIsSafe(env: Env, s: Node, blocks: seq<Block>, peerHeight: Option<u64>)
    requires Consistent(env, s.chain) && s.chain.height + 2 * |blocks| < U64_MAX
    ensures var o := HandleBlocks(env, s, blocks, peerHeight);
      && Consistent(env, o.node.chain)
      && KeepsUpTo(s.chain, o.node.chain, Anchor(env.checkpoints, s.chain.height))
  {
    hide Consistent, ApplyBatch, Anchor, Recover, KeepsUpTo;
    var o := ApplyBatch(env, s, blocks);
    var floor := Anchor(env.checkpoints, s.chain.height);
    BatchConsistent(env, s, blocks);
    BatchKeeps(env, s, blocks);
    KeepsLess(s.chain, o.node.chain, s.chain.height, floor);
    if o.applied < |blocks| {
      RecoverConsistent(env, o.node, blocks, o.applied, peerHeight);
      AnchorMonotone(env.checkpoints, s.chain.height, o.node.chain.height);
      KeepsTransitive(s.chain, o.node.chain, HandleBlocks(env, s, blocks, peerHeight).node.chain,
        s.chain.height, Anchor(env.checkpoints, o.node.chain.height), floor);
    }
  }

  lemma KeepsLess(c: Chain, c': Chain, n: u64, k: u64)
    requires c.Readable() && c'.Readable() && KeepsUpTo(c, c', n) && k <= n
    ensures KeepsUpTo(c, c', k)
  {
    assert c.Stored()[..k + 1] == c.Stored()[..n + 1][..k + 1];
    assert c'.Stored()[..k + 1] == c'.Stored()[..n + 1][..k + 1];
  }

  /** The depth of a reorganisation is the plain difference of heights; the unsigned subtraction never wraps. */
  lemma DepthIsExact(env: Env, s: Node, blocks: seq<Block>)
    requires Consistent(env, s.chain) && ForkPoint.ForkPoint(s.chain.disk.blocks, blocks).Some?
    ensures var h, fork := s.chain.height, ForkPoint.ForkPoint(s.chain.disk.blocks, blocks).value;
      fork <= h && (h - fork) % TWO64 == h - fork
  {
    hide Consistent, ForkPoint.ForkPoint;
    ForkPointWithinChain(env, s.chain, blocks);
  }

  lemma RecoverIsShallow(env: Env, s: Node, blocks: seq<Block>, applied: nat, peerHeight: Option<u64>)
    requires Consistent(env, s.chain) && s.chain.height + |blocks| < U64_MAX
    requires MaxIndex(blocks) <= s.chain.height + 5
    ensures KeepsUpTo(s.chain, Recover(env, s, blocks, applied, peerHeight).node.chain, SatSub(s.chain.height, 10))
  {
    hide Consistent, ApplyBatch, Anchor, AboveFork, RevertToHeight, MaxIndex, ForkPoint.ForkPoint, BackTo;
    var h, fork := s.chain.height, ForkPoint.ForkPoint(s.chain.disk.blocks, blocks);
    if fork.Some? && MayRevertTo(env, s, fork.value) {
      DepthIsExact(env, s, blocks);
      CutAndApplyKeeps(env, s, blocks, fork.value);
      var r := ApplyBatch(env, RevertToHeight(env, s, fork.value), AboveFork(blocks, fork.value)).node;
      if h - fork.value <= 10 { KeepsLess(s.chain, r.chain, fork.value, SatSub(h, 10)); }
    }
  }

  lemma CutAndApplyKeeps(env: Env, s: Node, blocks: seq<Block>, fork: u64)
    requires Consistent(env, s.chain) && s.chain.height + |blocks| < U64_MAX
    requires MayRevertTo(env, s, fork) && fork <= s.chain.height
    ensures KeepsUpTo(s.chain, ApplyBatch(env, RevertToHeight(env, s, fork), AboveFork(blocks, fork)).node.chain, fork)
  {
    hide Consistent, ApplyBatch, Anchor, AboveFork, RevertToHeight, KeepsUpTo;
    var r, rest := RevertToHeight(env, s, fork), AboveFork(blocks, fork);
    RevertToHeightCuts(env, s, fork);
    AboveForkShorter(blocks, fork);
    BatchKeeps(env, r, rest);
    CutKeeps(s.chain, r.chain, fork);
    KeepsTransitive(s.chain, r.chain, ApplyBatch(env, r, rest).node.chain, fork, fork, fork);
  }

  lemma CutKeeps(c: Chain, c': Chain, n: u64)
    requires c.Readable() && c'.Readable() && n <= c.height
    requires c'.height == n && c'.Stored() == c.Stored()[..n + 1]
    ensures KeepsUpTo(c, c', n)
  {
  }

  /**
   * A batch that does not reach more than five blocks above our tip never undoes more than ten: every
   * block ten or more below the tip stays, whatever the batch holds.
   */
  lemma OrdinaryReorgIsShallow(env: Env, s: Node, blocks: seq<Block>, peerHeight: Option<u64>)
    requires Consistent(env, s.chain) && s.chain.height + 2 * |blocks| < U64_MAX
    requires MaxIndex(blocks) <= s.chain.height + 5
    ensures KeepsUpTo(s.chain, HandleBlocks(env, s, blocks, peerHeight).node.chain, SatSub(s.chain.height, 10))
  {
    hide Consistent, ApplyBatch, Recover, KeepsUpTo, MaxIndex;
    var o, keep := ApplyBatch(env, s, blocks), SatSub(s.chain.height, 10);
    BatchConsistent(env, s, blocks);
    BatchKeeps(env, s, blocks);
    KeepsLess(s.chain, o.node.chain, s.chain.height, keep);
    if o.applied < |blocks| {
      RecoverIsShallow(env, o.node, blocks, o.applied, peerHeight);
      KeepsTransitive(s.chain, o.node.chain, HandleBlocks(env, s, blocks, peerHeight).node.chain,
        s.chain.height, SatSub(o.node.chain.height, 10), keep);
    }
  }

  // ---- Reorganisation ----

  /** The batch is numbered on from the fork point, which lies below our tip, and links to our block there. */
  ghost predicate CompetesFrom(s: Node, blocks: seq<Block>, fork: u64)
    requires s.chain.Readable()
    ensures CompetesFrom(s, blocks, fork) ==> blocks != [] && fork < s.chain.height
  {
    && blocks != [] && fork < s.chain.height
    && (forall i :: 0 <= i < |blocks| ==> blocks[i].header.index == fork + 1 + i)
    && blocks[0].header.prevHash == s.chain.disk.blocks[fork].hash
  }

  lemma {:induction false} NumberedBatch(blocks: seq<Block>, fork: u64)
    requires forall i :: 0 <= i < |blocks| ==> blocks[i].header.index == fork + 1 + i
    ensures blocks != [] ==> MaxIndex(blocks) == fork + |blocks|
    ensures AboveFork(blocks, fork) == blocks
  {
    if blocks != [] {
      NumberedBatch(Init(blocks), fork);
      assert Init(blocks) + [Last(blocks)] == blocks;
      if |blocks| == 1 { assert Init(blocks) == []; }
    }
  }

  /** A batch that starts at or below our tip does not apply directly: its first block is refused with no effect. */
  lemma CompetingIsRefused(env: Env, s: Node, blocks: seq<Block>)
    requires s.chain.Readable() && blocks != [] && 0 < blocks[0].header.index <= s.chain.height
    ensures ApplyBatch(env, s, blocks) == BatchOutcome(s, 0)
  {
    assert blocks[..1] == [blocks[0]] && Init([blocks[0]]) == [];
    assert ApplyBatch(env, s, []) == BatchOutcome(s, 0);
    assert !Precheck(env, Ibd, s.chain, blocks[0]);
    BatchStops(env, s, blocks, 1);
  }

  /**
   * The limits of a reorganisation: higher than our tip, not below a checkpoint, and at most ten deep
   * unless it is more than five higher.
   */
  predicate WithinLimits(env: Env, s: Node, blocks: seq<Block>, fork: u64) {
    && fork + |blocks| > s.chain.height && MayRevertTo(env, s, fork)
    && (fork + |blocks| > s.chain.height + 5 || s.chain.height - fork <= 10)
  }

  /**
   * Within the limits, handling a competing batch is: cut at the parent of its first block, then apply
   * the batch. Outside them it does nothing at all. The depth counts from that parent, however many of
   * the batch's blocks are our own.
   */
  lemma CompetingBatch(env: Env, s: Node, blocks: seq<Block>, fork: u64, peerHeight: Option<u64>)
    requires s.chain.Readable() && CompetesFrom(s, blocks, fork)
    ensures HandleBlocks(env, s, blocks, peerHeight) ==
      if WithinLimits(env, s, blocks, fork) then ApplyBatch(env, RevertToHeight(env, s, fork), blocks)
      else BatchOutcome(s, 0)
  {
    hide ApplyBatch, RevertToHeight, Anchor, MaxIndex, AboveFork;
    CompetingIsRefused(env, s, blocks);
    NumberedBatch(blocks, fork);
    ForkPointFirst(s.chain.disk.blocks, blocks, 0);
    assert (s.chain.height - fork) % TWO64 == s.chain.height - fork;
  }

  /**
   * A longer valid competing batch is adopted exactly: the node ends on our prefix followed by the
   * batch, higher than before, synced, hence with the balances and difficulty of a node that never
   * saw the old fork.
   */
  lemma ReorgAdoptsBatch(env: Env, s: Node, blocks: seq<Block>, fork: u64, peerHeight: Option<u64>, k: Bytes)
    requires Synced(env, s) && CompetesFrom(s, blocks, fork) && WithinLimits(env, s, blocks, fork)
    requires fork + |blocks| + 1 < MAX_HEIGHT && ValidHistory(env, s.chain.Stored()[..fork + 1] + blocks)
    ensures var o := HandleBlocks(env, s, blocks, peerHeight);
      var adopted := s.chain.Stored()[..fork + 1] + blocks;
      && o.applied == |blocks|
      && Synced(env, o.node)
      && o.node.chain.Stored() == adopted
      && o.node.chain.height == fork + |blocks| > s.chain.height
      && o.node.chain.difficulty == Replay(env, adopted).chain.difficulty
      && Bal(o.node.accounts, k) == Bal(Replay(env, adopted).accounts, k)
  {
    hide ApplyBatch, RevertToHeight, HandleBlocks, ValidHistory, CompetesFrom, Synced, Apply;
    var r, adopted := RevertToHeight(env, s, fork), s.chain.Stored()[..fork + 1] + blocks;
    CutAtFork(env, s, blocks, fork);
    CompetingBatch(env, s, blocks, fork, peerHeight);
    BatchAdoptsValid(env, r, blocks);
    SyncedEqualsReplay(env, HandleBlocks(env, s, blocks, peerHeight).node, k);
    assert |adopted| == fork + 1 + |blocks|;
  }

  // ---- Batches that continue our tip ----

  /** The batch is numbered on from our tip and its first block names the tip as parent. */
  ghost predicate ContinuesTip(s: Node, blocks: seq<Block>)
    requires s.chain.Readable()
    ensures ContinuesTip(s, blocks) ==> blocks != []
  {
    && blocks != []
    && (forall i :: 0 <= i < |blocks| ==> blocks[i].header.index == s.chain.height + 1 + i)
    && blocks[0].header.prevHash == s.chain.Tip().hash
  }

  /**
   * Nothing of a batch more than fifty blocks long could be applied, and there is a lower checkpoint or
   * genesis to go back to.
   */
  predicate RollsBack(env: Env, s: Node, blocks: seq<Block>, applied: nat)
    requires s.chain.Readable()
  {
    applied == 0 && |blocks| > 50 && Anchor(env.checkpoints, SatSub(s.chain.height, 1)) < s.chain.height
  }

  /** After `applied` blocks of a batch were applied on `s`, they may be undone again. */
  predicate MayRetry(env: Env, s: Node, blocks: seq<Block>, applied: nat)
    requires s.chain.Readable()
  {
    var h := s.chain.height;
    && (|blocks| > applied + 5 || applied <= 10)
    && h >= Anchor(env.checkpoints, Min(h + applied, U64_MAX))
  }

  /** The outcome of a second pass, with the blocks of the first one counted too. */
  function After(applied: nat, again: BatchOutcome): BatchOutcome {
    BatchOutcome(again.node, applied + again.applied)
  }

  /** Recovery from a refusal when our old tip is the fork point. */
  lemma RecoverForward(env: Env, s: Node, node: Node, blocks: seq<Block>, applied: nat, peerHeight: Option<u64>)
    requires s.chain.Readable() && node.chain.Readable() && applied < |blocks|
    requires node.chain.height == s.chain.height + applied && s.chain.height + |blocks| < U64_MAX
    requires ForkPoint.ForkPoint(node.chain.disk.blocks, blocks) == Some(s.chain.height)
    requires MaxIndex(blocks) == s.chain.height + |blocks| && AboveFork(blocks, s.chain.height) == blocks
    ensures Recover(env, node, blocks, applied, peerHeight) ==
      if RollsBack(env, s, blocks, applied) then
        BackTo(env, node, Anchor(env.checkpoints, SatSub(s.chain.height, 1)), 0)
      else if MayRetry(env, s, blocks, applied) then
        After(applied, ApplyBatch(env, RevertToHeight(env, node, s.chain.height), blocks))
      else BatchOutcome(node, applied)
  {
    hide ApplyBatch, Anchor, MaxIndex, AboveFork, ForkPoint.ForkPoint, BackTo, RevertToHeight;
    assert (node.chain.height - s.chain.height) % TWO64 == applied;
  }

  /**
   * The whole reaction to a batch that continues our tip. Once a block of it is refused the handler
   * takes our old tip for a fork point: it undoes what it applied, as far as the limits allow, and
   * applies the same batch again, on whatever ledger the refusal left.
   */
  lemma ForwardBatch(env: Env, s: Node, blocks: seq<Block>, peerHeight: Option<u64>)
    requires Consistent(env, s.chain) && ContinuesTip(s, blocks) && s.chain.height + |blocks| < U64_MAX
    ensures var h, o := s.chain.height, ApplyBatch(env, s, blocks);
      HandleBlocks(env, s, blocks, peerHeight) ==
        if o.applied == |blocks| then o
        else if RollsBack(env, s, blocks, o.applied) then BackTo(env, o.node, Anchor(env.checkpoints, SatSub(h, 1)), 0)
        else if MayRetry(env, s, blocks, o.applied) then
          After(o.applied, ApplyBatch(env, RevertToHeight(env, o.node, h), blocks))
        else o
  {
    hide Consistent, ApplyBatch, Anchor, MaxIndex, AboveFork, ForkPoint.ForkPoint, BackTo, RevertToHeight, Recover,
      RollsBack, MayRetry, KeepsUpTo;
    var h, o := s.chain.height, ApplyBatch(env, s, blocks);
    BatchConsistent(env, s, blocks);
    BatchKeeps(env, s, blocks);
    assert o.node.chain.height == h + o.applied;
    TipStays(s.chain, o.node.chain);
    NumberedBatch(blocks, h);
    ForkPointFirst(o.node.chain.disk.blocks, blocks, 0);
    if o.applied < |blocks| { RecoverForward(env, s, o.node, blocks, o.applied, peerHeight); }
  }

  lemma TipStays(c: Chain, c': Chain)
    requires c.Readable() && c'.Readable() && KeepsUpTo(c, c', c.height)
    ensures c.height in c'.disk.blocks && c'.disk.blocks[c.height] == c.Tip()
  {
    assert c.Stored()[..c.height + 1][c.height] == c'.Stored()[..c.height + 1][c.height];
  }

  /**
   * A batch whose first bad block breaks a header rule leaves the node synced on the good part before it,
   * or rolled back.
   */
  lemma ForwardHeaderBroken(env: Env, s: Node, blocks: seq<Block>, peerHeight: Option<u64>, k: nat)
    requires Synced(env, s) && ContinuesTip(s, blocks) && s.chain.height + |blocks| + 1 < MAX_HEIGHT && k < |blocks|
    requires ValidHistory(env, s.chain.Stored() + blocks[..k])
    requires !HeaderOk(env, s.chain.Stored() + blocks[..k], blocks[k])
    ensures var o := HandleBlocks(env, s, blocks, peerHeight);
      var anchor := Anchor(env.checkpoints, SatSub(s.chain.height, 1));
      && Synced(env, o.node)
      && o.node.chain.Stored() ==
           (if !RollsBack(env, s, blocks, k) then s.chain.Stored() + blocks[..k]
            else if anchor >= Anchor(env.checkpoints, s.chain.height) then s.chain.Stored()[..anchor + 1]
            else s.chain.Stored())
  {
    hide Synced, Consistent, ApplyBatch, ValidHistory, HeaderOk, Anchor, RevertToHeight, HandleBlocks,
      ContinuesTip, FundedTxs;
    var kept, b, h := s.chain.Stored() + blocks[..k], blocks[k], s.chain.height;
    SyncedIsConsistent(env, s);
    ForwardBatch(env, s, blocks, peerHeight);
    ShortOfValid(env, kept, b);
    assert kept + [b] == s.chain.Stored() + blocks[..k + 1];
    BatchStopsAtInvalid(env, s, blocks, k);
    BatchResidue(env, s, blocks, k);
    BatchConsistent(env, s, blocks);
    var o := ApplyBatch(env, s, blocks);
    ReadableHeight(o.node.chain, s.chain, blocks[..k]);
    if RollsBack(env, s, blocks, k) {
      assert kept == s.chain.Stored();
      RolledBack(env, o.node, Anchor(env.checkpoints, SatSub(h, 1)));
    } else if MayRetry(env, s, blocks, k) {
      RetryFrom(env, o.node, s.chain.Stored(), blocks[..k], h);
      var r := RevertToHeight(env, o.node, h);
      ReadableHeight(r.chain, s.chain, []);
      BatchStopsAtInvalid(env, r, blocks, k);
      BatchResidue(env, r, blocks, k);
      SyncedIsConsistent(env, r);
      BatchConsistent(env, r, blocks);
    }
  }

  lemma ShortOfValid(env: Env, bs: seq<Block>, b: Block)
    requires bs != [] && !HeaderOk(env, bs, b)
    ensures !ValidHistory(env, bs + [b])
  {
    assert Init(bs + [b]) == bs && Last(bs + [b]) == b;
  }

  lemma RolledBack(env: Env, s: Node, anchor: u64)
    requires Synced(env, s) && s.chain.height <= MAX_HEIGHT && anchor <= s.chain.height
    ensures var o := BackTo(env, s, anchor, 0);
      && Synced(env, o.node)
      && o.node.chain.Stored() ==
           if anchor >= Anchor(env.checkpoints, s.chain.height) then s.chain.Stored()[..anchor + 1]
           else s.chain.Stored()
  {
    hide Synced, Consistent, RevertToHeight, Anchor;
    SyncedIsConsistent(env, s);
    RevertToHeightCuts(env, s, anchor);
    RevertToHeightSynced(env, s, anchor);
  }

  /** Undoing the applied part gives back the old history. */
  lemma RetryFrom(env: Env, s: Node, bs: seq<Block>, part: seq<Block>, h: u64)
    requires Synced(env, s) && s.chain.height <= MAX_HEIGHT && s.chain.Stored() == bs + part && |bs| == h + 1
    requires MayRevertTo(env, s, h)
    ensures var r := RevertToHeight(env, s, h);
      Synced(env, r) && r.chain.Stored() == bs + [] == bs && r.chain.height == h
  {
    hide Synced, Consistent, RevertToHeight, Anchor;
    assert |s.chain.Stored()| == s.chain.height + 1 by { SyncedIsConsistent(env, s); }
    SyncedIsConsistent(env, s);
    RevertToHeightCuts(env, s, h);
    RevertToHeightSynced(env, s, h);
    assert (bs + part)[..h + 1] == bs;
  }

  // ---- Resolving a fork announced by a new block ----

  /** What the node asks for when a new block has the next height but another parent. */
  function ForkRequest(height: u64): (int, int) {
    (if height > 10 then height - 10 else 1, height + 1)
  }

  lemma ForkBatchCompetes(env: Env, s: Node, peer: seq<Block>)
    requires s.chain.Readable() && LinkedHistory(env, peer) && s.chain.height > 0 && |peer| == s.chain.height + 2
    requires var (from, to) := ForkRequest(s.chain.height); peer[from - 1].hash == s.chain.disk.blocks[from - 1].hash
    ensures var (from, to) := ForkRequest(s.chain.height); CompetesFrom(s, peer[from..to + 1], from - 1)
  {
    hide HeaderOk, LinkedHistory;
    var (from, to) := ForkRequest(s.chain.height);
    var batch := peer[from..to + 1];
    forall i | 0 <= i < |batch| ensures batch[i].header.index == from + i {
      LinkedAt(env, peer, from + i);
    }
    LinkedAt(env, peer, from);
  }

  lemma LinkedAt(env: Env, bs: seq<Block>, i: nat)
    requires LinkedHistory(env, bs) && 0 < i < |bs|
    ensures bs[i].header.index == i && bs[i].header.prevHash == bs[i - 1].hash
  {
    LinkedPrefix(env, bs, i);
  }

  lemma LinkedIsConsecutive(env: Env, bs: seq<Block>, from: nat)
    requires LinkedHistory(env, bs) && 0 < from <= |bs|
    ensures Consecutive(env, bs[from..])
  {
    hide LinkedHistory, Diff;
    var batch := bs[from..];
    forall i | 0 <= i < |batch|
      ensures batch[i].hash == HeaderHash(env, batch[i].header) && batch[i].header.index == from + i
      ensures i > 0 ==> batch[i].header.prevHash == batch[i - 1].hash
    {
      LinkedAt(env, bs, from + i);
      LinkedPrefix(env, bs, from + i);
    }
  }

  /**
   * The answer to that request is always refused above height 10. Its first parent lies eleven deep, so
   * even a fork at the tip is never resolved this way; and if it is not ours, nothing in the answer
   * attaches, hash collisions apart.
   */
  lemma ForkAnswerIsRefused(env: Env, s: Node, peer: seq<Block>, peerHeight: Option<u64>)
    requires Consistent(env, s.chain) && LinkedHistory(env, peer) && s.chain.height > 10
    requires |peer| == s.chain.height + 2 <= U64_MAX
    requires
      || peer[s.chain.height - 11].hash == s.chain.disk.blocks[s.chain.height - 11].hash
      || NoCollision(s.chain.Stored()[1..], peer[s.chain.height - 10..])
    ensures var (from, to) := ForkRequest(s.chain.height);
      HandleBlocks(env, s, peer[from..to + 1], peerHeight) == BatchOutcome(s, 0)
  {
    hide HandleBlocks, LinkedHistory, CompetesFrom, RevertToHeight, ApplyBatch, Consistent, NoCollision;
    var (from, to) := ForkRequest(s.chain.height);
    var batch := peer[from..];
    assert peer[from..to + 1] == batch;
    if peer[from - 1].hash == s.chain.disk.blocks[from - 1].hash {
      ForkBatchCompetes(env, s, peer);
      CompetingBatch(env, s, batch, from - 1, peerHeight);
    } else {
      LinkedIsConsecutive(env, peer, from);
      LinkedAt(env, peer, from);
      NothingAttaches(env, s.chain, batch);
      forall i | 0 <= i < |batch| ensures batch[i].header.index == from + i {
        LinkedAt(env, peer, from + i);
      }
      StrangerBatch(env, s, batch, from - 1, peerHeight);
    }
  }

  /** If the first block of a linked batch does not attach, none does. */
  lemma NothingAttaches(env: Env, c: Chain, batch: seq<Block>)
    requires Consistent(env, c) && Consecutive(env, batch) && NoCollision(c.Stored()[1..], batch)
    requires batch != [] && batch[0].header.index > 0 && !Attaches(c.disk.blocks, batch[0])
    ensures ForkPoint.ForkPoint(c.disk.blocks, batch) == None
  {
    hide Consistent, Consecutive, NoCollision, Attaches, ForkPoint.ForkPoint;
    forall b | b in batch ensures !Attaches(c.disk.blocks, b) {
      var n :| 0 <= n < |batch| && batch[n] == b;
      if Attaches(c.disk.blocks, b) { ForkPointIsFirstParent(env, c, batch, n); }
    }
    ForkPointNone(c.disk.blocks, batch);
  }

  /** Where the node goes back to for a batch that attaches nowhere: far behind, and young or very far behind. */
  function StrangerTarget(env: Env, h: u64, top: int, peerHeight: Option<u64>): Option<u64> {
    if top <= h + 10 then None
    else if h < 200 then (if Anchor(env.checkpoints, h) == 0 then Some(0) else None)
    else if (if peerHeight.Some? then peerHeight.value else top) <= h + 300 then None
    else if Anchor(env.checkpoints, h - 1) < Anchor(env.checkpoints, h) then None
    else Some(Anchor(env.checkpoints, h - 1))
  }

  /**
   * A batch from at or below our tip that attaches nowhere. It is ignored unless it reaches more than ten
   * blocks above us; then a node below height 200 goes back to genesis, a higher one to its checkpoint
   * below the tip if the peer is more than 300 ahead, and neither below a passed checkpoint. Going back
   * counts as progress.
   */
  lemma StrangerBatch(env: Env, s: Node, blocks: seq<Block>, fork: u64, peerHeight: Option<u64>)
    requires Consistent(env, s.chain) && blocks != [] && fork < s.chain.height
    requires forall i :: 0 <= i < |blocks| ==> blocks[i].header.index == fork + 1 + i
    requires ForkPoint.ForkPoint(s.chain.disk.blocks, blocks) == None
    ensures var o := HandleBlocks(env, s, blocks, peerHeight);
      match StrangerTarget(env, s.chain.height, fork + |blocks|, peerHeight)
      case None => o == BatchOutcome(s, 0)
      case Some(target) =>
        && o.applied == 1 && o.node.chain.Stored() == s.chain.Stored()[..target + 1]
        && (Synced(env, s) && s.chain.height <= MAX_HEIGHT ==> Synced(env, o.node))
  {
    hide HandleBlocks, StrangerTarget, RevertToHeight, Synced, Consistent, Anchor, MayRevertTo, ForkPoint.ForkPoint;
    StrangerReaction(env, s, blocks, fork, peerHeight);
    var target := StrangerTarget(env, s.chain.height, fork + |blocks|, peerHeight);
    if target.Some? {
      RevertToHeightCuts(env, s, target.value);
      if Synced(env, s) && s.chain.height <= MAX_HEIGHT { RevertToHeightSynced(env, s, target.value); }
    }
  }

  lemma StrangerReaction(env: Env, s: Node, blocks: seq<Block>, fork: u64, peerHeight: Option<u64>)
    requires Consistent(env, s.chain) && blocks != [] && fork < s.chain.height
    requires forall i :: 0 <= i < |blocks| ==> blocks[i].header.index == fork + 1 + i
    requires ForkPoint.ForkPoint(s.chain.disk.blocks, blocks) == None
    ensures var o := HandleBlocks(env, s, blocks, peerHeight);
      match StrangerTarget(env, s.chain.height, fork + |blocks|, peerHeight)
      case None => o == BatchOutcome(s, 0)
      case Some(target) =>
        target <= s.chain.height && MayRevertTo(env, s, target) && o == BatchOutcome(RevertToHeight(env, s, target), 1)
  {
    hide ApplyBatch, RevertDown, ResetAtGenesis, MaxIndex, AboveFork, ForkPoint.ForkPoint, Consistent;
    CompetingIsRefused(env, s, blocks);
    NumberedBatch(blocks, fork);
  }

  /** Up to height 10 a valid answer is adopted whole, unless a checkpoint was passed. */
  lemma ForkAnswerIsAdopted(env: Env, s: Node, peer: seq<Block>, peerHeight: Option<u64>)
    requires Synced(env, s) && ValidHistory(env, peer) && 0 < s.chain.height <= 10 && |peer| == s.chain.height + 2
    requires peer[0] == s.chain.Stored()[0]
    ensures var (from, to) := ForkRequest(s.chain.height);
      var o := HandleBlocks(env, s, peer[from..to + 1], peerHeight);
      if Anchor(env.checkpoints, s.chain.height) == 0 then Synced(env, o.node) && o.node.chain.Stored() == peer
      else o == BatchOutcome(s, 0)
  {
    hide HandleBlocks, CompetesFrom, RevertToHeight, ApplyBatch, Synced, LinkedHistory, FundedHistory, Anchor;
    var batch := peer[1..];
    assert ForkRequest(s.chain.height) == (1, |peer| - 1) && peer[1..|peer|] == batch;
    assert s.chain.disk.blocks[0] == peer[0];
    ForkBatchCompetes(env, s, peer);
    CompetingBatch(env, s, batch, 0, peerHeight);
    if Anchor(env.checkpoints, s.chain.height) == 0 {
      assert s.chain.Stored()[..1] + batch == peer;
      ReorgAdoptsBatch(env, s, batch, 0, peerHeight, []);
    }
  }

  /**
   * A valid competing batch is adopted if it is higher than our tip, starts at or above the last passed
   * checkpoint, and reaches more than five blocks above us or forks at most ten below; otherwise it
   * changes nothing. However deep it forks, a much longer chain above the checkpoint wins.
   */
  lemma ValidBatchDecided(env: Env, s: Node, blocks: seq<Block>, fork: u64, peerHeight: Option<u64>)
    requires Synced(env, s) && CompetesFrom(s, blocks, fork) && fork + |blocks| + 1 < MAX_HEIGHT
    requires ValidHistory(env, s.chain.Stored()[..fork + 1] + blocks)
    ensures var o, h, top := HandleBlocks(env, s, blocks, peerHeight), s.chain.height, fork + |blocks|;
      if top > h && fork >= Anchor(env.checkpoints, h) && (top > h + 5 || h - fork <= 10) then
        Synced(env, o.node) && o.node.chain.Stored() == s.chain.Stored()[..fork + 1] + blocks
      else o == BatchOutcome(s, 0)
  {
    hide ApplyBatch, RevertToHeight, HandleBlocks, ValidHistory, CompetesFrom, Synced, Anchor;
    CompetingBatch(env, s, blocks, fork, peerHeight);
    if WithinLimits(env, s, blocks, fork) { ReorgAdoptsBatch(env, s, blocks, fork, peerHeight, []); }
  }

  lemma CutAtFork(env: Env, s: Node, blocks: seq<Block>, fork: u64)
    requires Synced(env, s) && CompetesFrom(s, blocks, fork) && MayRevertTo(env, s, fork)
    requires s.chain.height <= MAX_HEIGHT
    ensures var r := RevertToHeight(env, s, fork);
      Synced(env, r) && r.chain.Stored() == s.chain.Stored()[..fork + 1] && r.chain.height == fork
  {
    hide Tracks, Diff, Snapshots, LinkedHistory, FundedHistory, RevertToHeight;
    RevertToHeightCuts(env, s, fork);
    RevertToHeightSynced(env, s, fork);
  }

  /** Any synced node has the balances and difficulty of a new node that downloads its blocks. */
  lemma SyncedEqualsReplay(env: Env, s: Node, k: Bytes)
    requires Synced(env, s) && s.chain.height < MAX_HEIGHT
    ensures var other := Replay(env, s.chain.Stored());
      && other.chain.Stored() == s.chain.Stored()
      && other.chain.difficulty == s.chain.difficulty
      && Bal(other.accounts, k) == Bal(s.accounts, k)
  {
    hide LinkedHistory, FundedHistory, Snapshots, Diff;
    var bs := s.chain.Stored();
    StoredBlocksSound(env, s.chain, 0);
    SyncedIsValid(env, s);
    ReplayAcceptsValid(env, bs);
    assert Bal(s.accounts, k) == NetBalance(env, bs, k) == Bal(Replay(env, bs).accounts, k);
  }

  /**
   * If only the first `valid` blocks of the competing batch are valid, the old tip is still given up:
   * the node ends on the prefix and those blocks, even where that is lower than before.
   */
  lemma ReorgKeepsOnlyValidPart(env: Env, s: Node, blocks: seq<Block>, fork: u64, peerHeight: Option<u64>, valid: nat)
    requires Synced(env, s) && CompetesFrom(s, blocks, fork) && WithinLimits(env, s, blocks, fork)
    requires fork + |blocks| + 1 < MAX_HEIGHT && valid < |blocks|
    requires ValidHistory(env, s.chain.Stored()[..fork + 1] + blocks[..valid])
    requires !ValidHistory(env, s.chain.Stored()[..fork + 1] + blocks[..valid + 1])
    ensures var o := HandleBlocks(env, s, blocks, peerHeight);
      && Consistent(env, o.node.chain)
      && o.node.chain.Stored() == s.chain.Stored()[..fork + 1] + blocks[..valid]
      && o.node.chain.height == fork + valid
      && var kept, b := s.chain.Stored()[..fork + 1] + blocks[..valid], blocks[valid];
      && (!HeaderOk(env, kept, b) ==> Synced(env, o.node))
      && (HeaderOk(env, kept, b) ==>
            var n := FundedCount(env, kept, b.header.miner, b.transactions);
            n < |b.transactions| && TracksInside(env, o.node.accounts, kept, b.header.miner, b.transactions[..n]))
  {
    hide ApplyBatch, RevertToHeight, HandleBlocks, ValidHistory, CompetesFrom, Synced, Apply, Consistent;
    var r := RevertToHeight(env, s, fork);
    CutAtFork(env, s, blocks, fork);
    CompetingBatch(env, s, blocks, fork, peerHeight);
    BatchStopsAtInvalid(env, r, blocks, valid);
    SyncedIsConsistent(env, r);
    BatchConsistent(env, r, blocks);
    ReadableHeight(ApplyBatch(env, r, blocks).node.chain, r.chain, blocks[..valid]);
    BatchResidue(env, r, blocks, valid);
  }

  /** What the first invalid block of a batch leaves in the ledger. */
  lemma BatchResidue(env: Env, s: Node, blocks: seq<Block>, k: nat)
    requires Synced(env, s) && s.chain.height + |blocks| < MAX_HEIGHT && k < |blocks|
    requires ValidHistory(env, s.chain.Stored() + blocks[..k])
    requires !ValidHistory(env, s.chain.Stored() + blocks[..k + 1])
    ensures var kept, b, l := s.chain.Stored() + blocks[..k], blocks[k], ApplyBatch(env, s, blocks).node.accounts;
      && (!HeaderOk(env, kept, b) ==> Synced(env, ApplyBatch(env, s, blocks).node))
      && (HeaderOk(env, kept, b) ==>
            var n := FundedCount(env, kept, b.header.miner, b.transactions);
            n < |b.transactions| && TracksInside(env, l, kept, b.header.miner, b.transactions[..n]))
  {
    hide ValidHistory, Synced, Consistent, Apply, Accepts, HeaderOk, FundedTxs, TracksInside;
    var kept, b := s.chain.Stored() + blocks[..k], blocks[k];
    BatchStopsAtInvalid(env, s, blocks, k);
    BatchAdoptsValid(env, s, blocks[..k]);
    BatchAdoptsValid(env, s, blocks[..k + 1]);
    var mid := ApplyBatch(env, s, blocks[..k]).node;
    assert Init(blocks[..k + 1]) == blocks[..k] && Last(blocks[..k + 1]) == b;
    BatchStops(env, s, blocks, k + 1);
    assert ApplyBatch(env, s, blocks).node == Apply(env, Ibd, mid, b);
    NotNext(env, kept, b);
    assert kept + [b] == s.chain.Stored() + blocks[..k + 1];
    ReadableHeight(mid.chain, s.chain, blocks[..k]);
    IbdRejection(env, mid, b);
  }

  lemma NotNext(env: Env, bs: seq<Block>, b: Block)
    requires ValidHistory(env, bs)
    ensures ValidHistory(env, bs + [b]) <==> ValidNext(env, bs, b)
  {
    assert Init(bs + [b]) == bs && Last(bs + [b]) == b;
  }

  lemma SyncedIsConsistent(env: Env, s: Node)
    requires Synced(env, s)
    ensures Consistent(env, s.chain)
  {
  }

  // ---- What the parts of the handler pick ----

  /** The highest index of a batch. */
  lemma {:induction false} MaxIndexIs(blocks: seq<Block>)
    ensures forall i :: 0 <= i < |blocks| ==> blocks[i].header.index <= MaxIndex(blocks)
    ensures blocks != [] ==> exists i :: 0 <= i < |blocks| && blocks[i].header.index == MaxIndex(blocks)
  {
    if blocks != [] {
      MaxIndexIs(Init(blocks));
      assert blocks[|blocks| - 1] == Last(blocks);
      forall i | 0 <= i < |blocks| ensures blocks[i].header.index <= MaxIndex(blocks) {
        if i < |blocks| - 1 { assert Init(blocks)[i] == blocks[i]; }
      }
      if MaxIndex(blocks) != Last(blocks).header.index {
        var i :| 0 <= i < |Init(blocks)| && Init(blocks)[i].header.index == MaxIndex(Init(blocks));
        assert blocks[i].header.index == MaxIndex(blocks);
      }
    }
  }

  /** Of a numbered batch exactly the blocks above the fork point are applied again, in order. */
  lemma {:induction false} AboveForkCuts(blocks: seq<Block>, first: u64, fork: u64)
    requires forall i :: 0 <= i < |blocks| ==> blocks[i].header.index == first + i
    ensures AboveFork(blocks, fork) == blocks[Min(Max(fork + 1 - first, 0), |blocks|)..]
  {
    if blocks != [] {
      AboveForkCuts(Init(blocks), first, fork);
      assert Init(blocks) + [Last(blocks)] == blocks;
      assert Last(blocks).header.index == first + |blocks| - 1;
    }
  }

  /** Requests continue after our tip, hold at most 25 blocks and stop at the announced height. */
  lemma RequestsAre(height: u64, peerHeight: u64)
    ensures NextRange(height, peerHeight).None? <==> peerHeight <= height
    ensures height < peerHeight ==>
      NextRange(height, peerHeight) == Some((height + 1, if peerHeight <= height + 25 then peerHeight else height + 25))
  {
  }

  // ---- Download ----

  /** A batch that continues our history validly is taken whole, whatever the peer announced. */
  lemma HandleAdoptsValid(env: Env, s: Node, blocks: seq<Block>, peerHeight: Option<u64>)
    requires Synced(env, s) && s.chain.height + |blocks| < MAX_HEIGHT
    requires ValidHistory(env, s.chain.Stored() + blocks)
    ensures var o := HandleBlocks(env, s, blocks, peerHeight);
      && o.applied == |blocks|
      && Synced(env, o.node)
      && o.node.chain.Stored() == s.chain.Stored() + blocks
      && o.node.chain.height == s.chain.height + |blocks|
  {
    hide ValidHistory, Synced, Consistent, ApplyBatch, Recover;
    BatchAdoptsValid(env, s, blocks);
    ReadableHeight(ApplyBatch(env, s, blocks).node.chain, s.chain, blocks);
  }

  lemma ValidPrefix(env: Env, bs: seq<Block>, n: nat)
    requires ValidHistory(env, bs) && 1 <= n <= |bs|
    ensures ValidHistory(env, bs[..n])
  {
    LinkedPrefix(env, bs, n);
    FundedPrefix(env, bs, n);
  }

  /** One exchange: a synced node whose blocks are a prefix of a valid peer chain moves exactly one chunk along it. */
  lemma ChunkAdvances(env: Env, s: Node, peer: seq<Block>, announced: u64, peerHeight: Option<u64>)
    requires Synced(env, s) && ValidHistory(env, peer) && s.chain.Stored() <= peer
    requires s.chain.height < announced < |peer| < MAX_HEIGHT
    ensures NextRange(s.chain.height, announced).Some?
    ensures var (from, to) := NextRange(s.chain.height, announced).value;
      && s.chain.height < from <= to < |peer|
      && var o := HandleBlocks(env, s, peer[from..to + 1], peerHeight);
         && o.applied == to + 1 - from
         && Synced(env, o.node)
         && o.node.chain.Stored() == peer[..to + 1]
         && o.node.chain.height == to
  {
    hide ValidHistory, Synced, Consistent, HandleBlocks;
    var (from, to) := NextRange(s.chain.height, announced).value;
    var chunk := peer[from..to + 1];
    assert s.chain.Stored() == peer[..from];
    assert peer[..from] + chunk == peer[..to + 1];
    ValidPrefix(env, peer, to + 1);
    HandleAdoptsValid(env, s, chunk, peerHeight);
  }
}
