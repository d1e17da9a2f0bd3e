/** Stopping between the writes of `apply_block`, and opening the database again. */
module Crash {
  import opened Primitives
  import opened Types
  import opened History
  import opened LedgerModel
  import opened ChainModel
  import opened ChainLaws

  /** The recomputation loop from `boundary` on; it stops early at a missing block. */
  function RecomputeFrom(c: Chain, boundary: nat, difficulty: u32): u32
    decreases c.height + 1 - boundary
  {
    if boundary > c.height || boundary < DAA_WINDOW then difficulty
    else if boundary !in c.disk.blocks || boundary - DAA_WINDOW !in c.disk.blocks then difficulty
    else
      RecomputeFrom(c, boundary + DAA_WINDOW,
        AdjustStep(difficulty,
          SatSub(c.disk.blocks[boundary].header.timestamp, c.disk.blocks[boundary - DAA_WINDOW].header.timestamp)))
  }

  function RecomputeDifficulty(c: Chain): u32 {
    if c.height < DAA_WINDOW then TESTNET_DIFFICULTY else RecomputeFrom(c, DAA_WINDOW, TESTNET_DIFFICULTY)
  }

  /** `load_or_create` on a database that already has a height. */
  function Reopen(d: Disk, difficulty: u32): Chain
    requires d.height.Some?
  {
    var h := d.height.value;
    var d1 := if h == 0 then d.(difficulty := Some(TESTNET_DIFFICULTY)) else d;
    var loaded := if d1.difficulty.Some? then d1.difficulty.value else difficulty;
    var c := Chain(d1, h, loaded);
    var canonical := RecomputeDifficulty(c);
    if canonical != loaded then Chain(d1.(difficulty := Some(canonical)), h, canonical) else c
  }

  /** The writes are what applying a block does to the database. */
  lemma WritesAreApply(c: Chain, b: Block)
    requires c.Readable() && b.header.index == WrapAdd(c.height, 1)
    ensures PerformAll(c.disk, ApplyWrites(c, b)) == Append(c, b).disk
  {
    var ws := ApplyWrites(c, b);
    PerformSteps(c.disk, ws);
  }

  /** Unrolls up to four writes. */
  lemma PerformSteps(d: Disk, ws: seq<Write>)
    requires |ws| <= 4
    ensures |ws| == 0 ==> PerformAll(d, ws) == d
    ensures |ws| == 1 ==> PerformAll(d, ws) == Perform(d, ws[0])
    ensures |ws| == 2 ==> PerformAll(d, ws) == Perform(Perform(d, ws[0]), ws[1])
    ensures |ws| == 3 ==> PerformAll(d, ws) == Perform(Perform(Perform(d, ws[0]), ws[1]), ws[2])
    ensures |ws| == 4 ==> PerformAll(d, ws) == Perform(Perform(Perform(Perform(d, ws[0]), ws[1]), ws[2]), ws[3])
    decreases |ws|
  {
    if ws != [] {
      PerformSteps(d, Init(ws));
    }
  }

  /** Between boundaries the difficulty of a history does not move. */
  lemma {:induction false} DiffFlat(bs: seq<Block>, n: nat, m: nat)
    requires 1 <= n <= m <= |bs|
    requires forall h :: n <= h < m ==> h % DAA_WINDOW != 0
    ensures Diff(bs[..m]) == Diff(bs[..n])
    decreases m
  {
    if n < m {
      DiffFlat(bs, n, m - 1);
      assert Init(bs[..m]) == bs[..m - 1];
    }
  }

  lemma DiffAtBoundary(c: Chain, boundary: u64)
    requires c.Readable() && boundary % DAA_WINDOW == 0 && DAA_WINDOW <= boundary <= c.height
    ensures Diff(c.Stored()[..boundary + 1]) == AdjustStep(Diff(c.Stored()[..boundary]),
      SatSub(c.disk.blocks[boundary].header.timestamp, c.disk.blocks[boundary - DAA_WINDOW].header.timestamp))
  {
    hide AdjustStep;
    var bs, upTo := c.Stored(), c.Stored()[..boundary + 1];
    assert Init(upTo) == bs[..boundary];
    assert Last(upTo) == c.disk.blocks[boundary];
    assert upTo[|upTo| - 1 - DAA_WINDOW] == c.disk.blocks[boundary - DAA_WINDOW];
  }

  /** The loop computes the canonical difficulty whatever difficulty the database recorded. */
  lemma {:induction false} RecomputeFromIsCanonical(c: Chain, boundary: nat, difficulty: u32)
    requires c.Readable() && boundary % DAA_WINDOW == 0 && DAA_WINDOW <= boundary
    requires difficulty == Diff(c.Stored()[..Min(boundary, c.height + 1)])
    ensures RecomputeFrom(c, boundary, difficulty) == Diff(c.Stored())
    decreases c.height + 1 - boundary
  {
    hide AdjustStep, Diff;
    var bs := c.Stored();
    if boundary > c.height {
      assert bs[..|bs|] == bs;
    } else {
      DiffAtBoundary(c, boundary);
      DiffFlat(bs, boundary + 1, Min(boundary + DAA_WINDOW, c.height + 1));
      RecomputeFromIsCanonical(c, boundary + DAA_WINDOW, Diff(bs[..boundary + 1]));
    }
  }

  lemma RecomputeIsCanonical(c: Chain)
    requires c.Readable()
    ensures RecomputeDifficulty(c) == Diff(c.Stored())
  {
    if c.height >= DAA_WINDOW {
      RecomputeFromIsCanonical(c, DAA_WINDOW, TESTNET_DIFFICULTY);
    }
  }

  /** Where a boundary block is missing, the recomputation ends with the difficulty of the blocks below it. */
  lemma RecomputeStopsAtGap(c: Chain, gap: u64)
    requires 0 < gap <= c.height && gap % DAA_WINDOW == 0 && gap !in c.disk.blocks
    requires Chain(c.disk, gap - 1, c.difficulty).Readable()
    ensures RecomputeDifficulty(c) == Diff(Chain(c.disk, gap - 1, c.difficulty).Stored())
  {
    var below := Chain(c.disk, gap - 1, c.difficulty);
    RecomputeIsCanonical(below);
    SameUpToGap(c, below, DAA_WINDOW, TESTNET_DIFFICULTY);
  }

  lemma {:induction false} SameUpToGap(c: Chain, below: Chain, boundary: nat, difficulty: u32)
    requires below.Readable() && below.disk == c.disk && below.height + 1 <= c.height
    requires (below.height + 1) % DAA_WINDOW == 0 && below.height + 1 !in c.disk.blocks
    requires boundary % DAA_WINDOW == 0 && DAA_WINDOW <= boundary <= below.height + 1
    ensures RecomputeFrom(c, boundary, difficulty) == RecomputeFrom(below, boundary, difficulty)
    decreases below.height + 1 - boundary
  {
    hide AdjustStep;
    if boundary <= below.height {
      var from, to := c.disk.blocks[boundary - DAA_WINDOW].header.timestamp, c.disk.blocks[boundary].header.timestamp;
      SameUpToGap(c, below, boundary + DAA_WINDOW, AdjustStep(difficulty, SatSub(to, from)));
    }
  }

  /** The incrementally kept difficulty of a node always equals the recomputed one. */
  lemma IncrementalEqualsRecomputed(env: Env, c: Chain)
    requires Consistent(env, c)
    ensures c.difficulty == RecomputeDifficulty(c)
    ensures Reopen(c.disk, TESTNET_DIFFICULTY) == c
  {
    RecomputeIsCanonical(c);
  }

  /** The database holds `bs` up to its recorded height, and possibly more above it. */
  ghost predicate Holds(d: Disk, bs: seq<Block>) {
    && d.height.Some? && d.height.value == |bs| - 1
    && forall i :: 0 <= i < |bs| ==> i in d.blocks && d.blocks[i] == bs[i] && bs[i].header.index == i
  }

  lemma ReopenIsCanonical(d: Disk, difficulty: u32, bs: seq<Block>)
    requires Holds(d, bs)
    ensures var c := Reopen(d, difficulty);
      && c.Readable() && c.Stored() == bs && c.difficulty == Diff(bs) && c.disk.height == d.height
      && c.disk.blocks == d.blocks && c.disk.prevDiff == d.prevDiff
  {
    hide Diff, RecomputeDifficulty;
    var h := d.height.value;
    var d1 := if h == 0 then d.(difficulty := Some(TESTNET_DIFFICULTY)) else d;
    var loaded := Chain(d1, h, if d1.difficulty.Some? then d1.difficulty.value else difficulty);
    StoredIs(loaded, bs);
    RecomputeIsCanonical(loaded);
    StoredIs(Reopen(d, difficulty), bs);
  }

  lemma LinkedIndices(env: Env, bs: seq<Block>, i: nat)
    requires LinkedHistory(env, bs) && i < |bs|
    ensures bs[i].header.index == i
  {
    if i == 0 { LinkedPrefix(env, bs, 1); } else { LinkedPrefix(env, bs, i); }
  }

  /** Opening any database whose blocks up to its height are a linked history gives a sound chain of that height. */
  lemma ReopenIsSound(env: Env, d: Disk, difficulty: u32, bs: seq<Block>)
    requires LinkedHistory(env, bs) && d.height.Some? && d.height.value == |bs| - 1
    requires forall i :: 0 <= i < |bs| ==> i in d.blocks && d.blocks[i] == bs[i]
    ensures Sound(env, Reopen(d, difficulty)) && Reopen(d, difficulty).Stored() == bs
  {
    hide Diff, LinkedHistory, Reopen;
    forall i | 0 <= i < |bs| ensures bs[i].header.index == i {
      LinkedIndices(env, bs, i);
    }
    ReopenIsCanonical(d, difficulty, bs);
  }

  /**
   * Stopped after any number of the writes of applying a block, then opened again: the node is at
   * the old or the new height with a linked history and the canonical difficulty. The stored
   * difficulty may have been stale, a block may dangle above the tip, snapshots may be missing.
   */
  lemma CrashDuringApply(env: Env, c: Chain, b: Block, done: nat, difficulty: u32)
    requires Sound(env, c) && HeaderOk(env, c.Stored(), b) && done <= |ApplyWrites(c, b)|
    ensures var d := PerformAll(c.disk, ApplyWrites(c, b)[..done]);
      && d.height.Some?
      && Sound(env, Reopen(d, difficulty))
      && Reopen(d, difficulty).Stored() == if done < 2 then c.Stored() else c.Stored() + [b]
  {
    hide Diff;
    AppendSound(env, c, b);
    WritesSoFar(c, b, done);
    var d := PerformAll(c.disk, ApplyWrites(c, b)[..done]);
    ReopenIsSound(env, d, difficulty, if done < 2 then c.Stored() else c.Stored() + [b]);
  }

  /** The height is written second: before that the old tip counts, afterwards the new one. */
  lemma WritesSoFar(c: Chain, b: Block, done: nat)
    requires c.Readable() && c.disk.height == Some(c.height) && b.header.index == c.height + 1
    requires done <= |ApplyWrites(c, b)|
    ensures var d := PerformAll(c.disk, ApplyWrites(c, b)[..done]);
      && d.height == Some(if done < 2 then c.height else c.height + 1)
      && (d.blocks == if done < 1 then c.disk.blocks else c.disk.blocks[b.header.index := b])
      && d.prevDiff == if done < 3 then c.disk.prevDiff else c.disk.prevDiff[c.height + 1 := c.difficulty]
  {
    hide NextDifficulty;
    PerformSteps(c.disk, ApplyWrites(c, b)[..done]);
  }

  // ---- Runs with crashes ----

  datatype CrashStep =
    | Complete(mode: Mode, block: Block)
    | Stopped(mode: Mode, block: Block, done: nat, difficulty: u32)

  /** Apply completely, or stop after some writes and open again; rejected blocks write nothing. */
  function NextWithCrash(env: Env, s: Node, step: CrashStep): Chain
    requires s.chain.Readable()
  {
    match step
    case Complete(mode, b) => Apply(env, mode, s, b).chain
    case Stopped(mode, b, done, difficulty) =>
      if Accepts(env, mode, s, b) && done <= |ApplyWrites(s.chain, b)| then
        var d := PerformAll(s.chain.disk, ApplyWrites(s.chain, b)[..done]);
        if d.height.Some? then Reopen(d, difficulty) else s.chain
      else s.chain
  }

  /** One apply or crash keeps the chain sound, with the blocks it had or one more. */
  lemma CrashKeepsBlocks(env: Env, s: Node, step: CrashStep)
    requires Sound(env, s.chain) && s.chain.height < U64_MAX
    ensures var c := NextWithCrash(env, s, step);
      && Sound(env, c)
      && (c.Stored() == s.chain.Stored() || c.Stored() == s.chain.Stored() + [step.block])
  {
    PrecheckMeaning(env, step.mode, s.chain, step.block);
    if Accepts(env, step.mode, s, step.block) {
      match step
      case Complete(mode, b) => AppendSound(env, s.chain, b);
      case Stopped(mode, b, done, difficulty) =>
        if done <= |ApplyWrites(s.chain, b)| { CrashDuringApply(env, s.chain, b, done, difficulty); }
    }
  }

  /**
   * Any run of applies and crashes, with whatever ledger the node had at each step. A store with
   * holes could not be read on; the run never gets there.
   */
  ghost function CrashRun(env: Env, c: Chain, steps: seq<(Accounts, CrashStep)>): Chain {
    if steps == [] then c
    else
      var r := CrashRun(env, c, Init(steps));
      if r.Readable() then NextWithCrash(env, Node(r, Last(steps).0), Last(steps).1) else r
  }

  /** However often a node crashes while applying, its chain stays sound and never loses a block it had. */
  lemma {:induction false} CrashesKeepBlocks(env: Env, c: Chain, steps: seq<(Accounts, CrashStep)>)
    requires Sound(env, c) && c.height + |steps| < U64_MAX
    ensures var r := CrashRun(env, c, steps);
      && Sound(env, r)
      && c.Stored() <= r.Stored() && r.height <= c.height + |steps|
  {
    hide Sound, NextWithCrash;
    if steps != [] {
      CrashesKeepBlocks(env, c, Init(steps));
      var before := CrashRun(env, c, Init(steps));
      CrashKeepsBlocks(env, Node(before, Last(steps).0), Last(steps).1);
      assert |before.Stored()| == before.height + 1;
      assert |CrashRun(env, c, steps).Stored()| == CrashRun(env, c, steps).height + 1;
    }
  }

  // ---- Reverting after a crash ----

  /**
   * What a revert of the last of `bs` needs: away from a boundary nothing; at one a right snapshot, or
   * none at the first boundary, or none where the window shifted by one block undoes the last step.
   */
  predicate RevertsCleanly(snapshots: map<u64, u32>, bs: seq<Block>)
    requires 1 < |bs| <= U64_MAX
  {
    var h: u64 := |bs| - 1;
    h % DAA_WINDOW == 0 ==>
      if h in snapshots then snapshots[h] == Diff(Init(bs))
      else h == DAA_WINDOW || AdjustStep(Diff(bs), WindowMs(Init(bs))) == Diff(Init(bs))
  }

  lemma TruncateSound(env: Env, c: Chain)
    requires Sound(env, c) && c.height > 0
    ensures var c', bs := Truncate(c), Init(c.Stored());
      && c'.Stored() == bs
      && (Sound(env, c') <==> c'.difficulty == Diff(bs))
  {
    hide Diff, HeaderOk, NextDifficulty;
    StoredTruncate(c);
    var bs := Init(c.Stored());
    LinkedPrefix(env, c.Stored(), |bs|);
    assert c.Stored()[..|bs|] == bs;
  }

  /** The difficulty that a revert restores where a snapshot is missing. */
  lemma RestoredWithoutSnapshot(c: Chain)
    requires c.Readable() && c.height > 0 && c.height % DAA_WINDOW == 0 && c.height !in c.disk.prevDiff
    ensures c.height == DAA_WINDOW ==> Truncate(c).difficulty == TESTNET_DIFFICULTY
    ensures c.height > DAA_WINDOW ==>
      Truncate(c).difficulty == AdjustStep(c.difficulty, WindowMs(Init(c.Stored())))
  {
    hide AdjustStep, Diff;
    var c', bs := Truncate(c), Init(c.Stored());
    StoredTruncate(c);
    if c.height > DAA_WINDOW {
      assert Last(bs) == c'.disk.blocks[c.height - 1];
      assert bs[|bs| - 1 - DAA_WINDOW] == c'.disk.blocks[c.height - 1 - DAA_WINDOW];
    }
  }

  /** Reverting the tip of a sound chain is sound again exactly if the snapshots allow it. */
  lemma SnapshotDecidesRevert(env: Env, c: Chain)
    requires Sound(env, c) && 0 < c.height < U64_MAX
    ensures Truncate(c).Stored() == Init(c.Stored())
    ensures Sound(env, Truncate(c)) <==> RevertsCleanly(c.disk.prevDiff, c.Stored())
  {
    hide AdjustStep, LinkedHistory, WindowMs, NextDifficulty;
    TruncateSound(env, c);
    if c.height % DAA_WINDOW != 0 {
      DifficultyMoves(c.Stored());
    } else if c.height !in c.disk.prevDiff {
      RestoredWithoutSnapshot(c);
    }
  }

  /**
   * What a crash while applying can cost. Stopped between height and snapshot of a boundary, the node
   * reopens sound, but its next revert goes by the snapshot that was there before: none, or one that
   * an abandoned fork left behind. Stopped anywhere else the next revert is sound.
   */
  lemma CrashThenRevert(env: Env, c: Chain, b: Block, done: nat, difficulty: u32)
    requires Consistent(env, c) && HeaderOk(env, c.Stored(), b) && done <= |ApplyWrites(c, b)|
    requires c.height < U64_MAX - 1
    ensures var d := PerformAll(c.disk, ApplyWrites(c, b)[..done]);
      && d.height.Some?
      && var c' := Reopen(d, difficulty);
      && Sound(env, c')
      && (c'.height > 0 ==>
            (Sound(env, Truncate(c')) <==> done != 2 || RevertsCleanly(c.disk.prevDiff, c.Stored() + [b])))
  {
    hide Diff, LinkedHistory, Truncate, Reopen, Snapshots;
    CrashDuringApply(env, c, b, done, difficulty);
    WritesSoFar(c, b, done);
    var d := PerformAll(c.disk, ApplyWrites(c, b)[..done]);
    ReopenKeepsSnapshots(d, difficulty);
    var c' := Reopen(d, difficulty);
    if c'.height > 0 { SnapshotDecidesRevert(env, c'); }
    CleanBefore(env, c, b);
  }

  lemma ReopenKeepsSnapshots(d: Disk, difficulty: u32)
    requires d.height.Some?
    ensures Reopen(d, difficulty).disk.prevDiff == d.prevDiff && Reopen(d, difficulty).height == d.height.value
  {
  }

  /**
   * With its own snapshots a consistent chain reverts cleanly, and so does the next tip once its snapshot
   * is written.
   */
  lemma CleanBefore(env: Env, c: Chain, b: Block)
    requires Consistent(env, c) && c.height < U64_MAX - 1
    ensures c.height > 0 ==> RevertsCleanly(c.disk.prevDiff, c.Stored())
    ensures RevertsCleanly(c.disk.prevDiff[c.height + 1 := c.difficulty], c.Stored() + [b])
  {
    hide Diff, LinkedHistory;
    if c.height > 0 { assert c.Stored()[..c.height] == Init(c.Stored()); }
    assert Init(c.Stored() + [b]) == c.Stored();
  }

  // ---- Whole lives: applies, crashes, reverts and restarts ----

  /** Sound but for the difficulty in memory, which a revert over a bad snapshot gets wrong. */
  ghost predicate Linked(env: Env, c: Chain)
    ensures Linked(env, c) ==> c.Readable()
  {
    c.Readable() && c.disk.height == Some(c.height) && LinkedHistory(env, c.Stored())
  }

  datatype LifeStep =
    | Applying(step: CrashStep)
    | Undo
    | Restart(difficulty: u32)

  function NextInLife(env: Env, s: Node, step: LifeStep): Chain
    requires s.chain.Readable()
  {
    match step
    case Applying(crash) => NextWithCrash(env, s, crash)
    case Undo => if s.chain.height == 0 then s.chain else Truncate(s.chain)
    case Restart(difficulty) => if s.chain.disk.height.Some? then Reopen(s.chain.disk, difficulty) else s.chain
  }

  /** Any mix of those steps, with whatever ledger the node had at each. */
  ghost function Life(env: Env, c: Chain, steps: seq<(Accounts, LifeStep)>): Chain {
    if steps == [] then c
    else
      var r := Life(env, c, Init(steps));
      if r.Readable() then NextInLife(env, Node(r, Last(steps).0), Last(steps).1) else r
  }

  /** The difficulty that a revert of the boundary at the tip restores, from whatever is in memory, is the right one. */
  ghost predicate BoundaryReverts(c: Chain)
    requires c.Readable() && 0 < c.height && c.height % DAA_WINDOW == 0
  {
    var before := Init(c.Stored());
    if c.height in c.disk.prevDiff then c.disk.prevDiff[c.height] == Diff(before)
    else c.height == DAA_WINDOW || AdjustStep(c.difficulty, WindowMs(before)) == Diff(before)
  }

  ghost predicate UndoLeavesSound(env: Env, c: Chain)
    requires c.Readable()
  {
    if c.height > 0 && c.height % DAA_WINDOW == 0 then BoundaryReverts(c) else Sound(env, c)
  }

  /**
   * The difficulty in memory is off: a boundary was reverted to a wrong one, and neither a restart nor
   * the revert of another boundary to the right one came after it.
   */
  ghost predicate OffDifficulty(env: Env, c: Chain, steps: seq<(Accounts, LifeStep)>) {
    steps != [] &&
    match Last(steps).1
    case Applying(_) => OffDifficulty(env, c, Init(steps))
    case Restart(_) => false
    case Undo =>
      var r := Life(env, c, Init(steps));
      if r.Readable() && r.height > 0 && r.height % DAA_WINDOW == 0 then !BoundaryReverts(r)
      else OffDifficulty(env, c, Init(steps))
  }

  /** No block is applied while the difficulty is off. */
  ghost predicate AppliesWhenRight(env: Env, c: Chain, steps: seq<(Accounts, LifeStep)>) {
    steps == [] ||
    (AppliesWhenRight(env, c, Init(steps)) && (Last(steps).1.Applying? ==> !OffDifficulty(env, c, Init(steps))))
  }

  lemma SoundIsLinked(env: Env, c: Chain)
    ensures Sound(env, c) ==> Linked(env, c)
  {
  }

  lemma TruncateLinked(env: Env, c: Chain)
    requires Linked(env, c) && c.height > 0
    ensures Linked(env, Truncate(c)) && Truncate(c).Stored() == Init(c.Stored())
  {
    hide Diff, HeaderOk, NextDifficulty;
    StoredTruncate(c);
    LinkedPrefix(env, c.Stored(), c.height);
    assert c.Stored()[..c.height] == Init(c.Stored());
  }

  /** Restarting repairs any wrong difficulty while the blocks are linked, and loses no block. */
  lemma RestartRepairs(env: Env, c: Chain, difficulty: u32)
    requires Linked(env, c)
    ensures Sound(env, Reopen(c.disk, difficulty)) && Reopen(c.disk, difficulty).Stored() == c.Stored()
  {
    hide LinkedHistory, Reopen;
    ReopenIsSound(env, c.disk, difficulty, c.Stored());
  }

  lemma {:induction false} RevertDownLinked(env: Env, s: Node, target: u64)
    requires Linked(env, s.chain)
    ensures var c := RevertDown(s, target).chain;
      Linked(env, c) && c.Stored() == s.chain.Stored()[..c.height + 1]
    decreases s.chain.height
  {
    hide LinkedHistory, Truncate;
    if s.chain.height > target {
      TruncateLinked(env, s.chain);
      RevertDownLinked(env, RevertTip(s), target);
    } else {
      assert s.chain.Stored()[..s.chain.height + 1] == s.chain.Stored();
    }
  }

  /** So does a deep revert that ends at genesis, whatever difficulty and snapshots it started from. */
  lemma GenesisRevertRepairs(env: Env, s: Node)
    requires Linked(env, s.chain) && Anchor(env.checkpoints, s.chain.height) == 0
    ensures var c := RevertToHeight(env, s, 0).chain;
      Sound(env, c) && c.height == 0 && c.difficulty == 14 && c.disk.difficulty == Some(14)
  {
    hide LinkedHistory;
    RevertDownLinked(env, s, 0);
  }

  /**
   * Reverting the tip of a linked chain makes it sound exactly if the boundary allows it, or elsewhere if
   * it was sound.
   */
  lemma UndoDecides(env: Env, c: Chain)
    requires Linked(env, c) && c.height > 0
    ensures Sound(env, Truncate(c)) <==> UndoLeavesSound(env, c)
  {
    hide AdjustStep, LinkedHistory, WindowMs, NextDifficulty;
    TruncateLinked(env, c);
    if c.height % DAA_WINDOW != 0 {
      DifficultyMoves(c.Stored());
    } else if c.height !in c.disk.prevDiff {
      RestoredWithoutSnapshot(c);
    }
  }

  lemma LifeStepKeeps(env: Env, s: Node, step: LifeStep)
    requires Linked(env, s.chain) && s.chain.height < U64_MAX - 1
    requires step.Applying? ==> Sound(env, s.chain)
    ensures var c := NextInLife(env, s, step);
      && Linked(env, c) && c.height <= s.chain.height + 1
      && (!step.Undo? ==> Sound(env, c))
      && (step.Undo? ==> (Sound(env, c) <==> UndoLeavesSound(env, s.chain)))
  {
    hide Sound, Linked, NextWithCrash, Truncate, Reopen, BoundaryReverts;
    var c := NextInLife(env, s, step);
    match step
    case Applying(crash) =>
      CrashKeepsBlocks(env, s, crash);
      SoundIsLinked(env, c);
      assert |c.Stored()| == c.height + 1 && |s.chain.Stored()| == s.chain.height + 1;
    case Undo =>
      if s.chain.height > 0 {
        TruncateLinked(env, s.chain);
        UndoDecides(env, s.chain);
      }
    case Restart(difficulty) =>
      HeightStored(env, s.chain);
      RestartRepairs(env, s.chain, difficulty);
      SoundIsLinked(env, c);
      ReopenKeepsSnapshots(s.chain.disk, difficulty);
  }

  lemma HeightStored(env: Env, c: Chain)
    requires Linked(env, c)
    ensures c.disk.height == Some(c.height)
  {
  }

  /**
   * Through any number of applies, crashes, reverts and restarts the blocks stay one linked history as
   * long as no block is applied while the difficulty is off, and the chain is sound exactly if it is
   * not off.
   */
  lemma {:induction false} LifeStaysLinked(env: Env, c: Chain, steps: seq<(Accounts, LifeStep)>)
    requires Sound(env, c) && c.height + |steps| < U64_MAX - 1 && AppliesWhenRight(env, c, steps)
    ensures var r := Life(env, c, steps);
      && Linked(env, r) && r.height <= c.height + |steps|
      && (Sound(env, r) <==> !OffDifficulty(env, c, steps))
  {
    hide Sound, Linked, NextInLife, BoundaryReverts;
    if steps == [] {
      SoundIsLinked(env, c);
    } else {
      LifeStaysLinked(env, c, Init(steps));
      LifeStepKeeps(env, Node(Life(env, c, Init(steps)), Last(steps).0), Last(steps).1);
    }
  }
}
