/** The blockchain object: a database written put by put, with height and difficulty cached in memory. */
module BlockchainObject {
  import opened Primitives
  import opened Types
  import opened Difficulty
  import opened History
  import opened LedgerModel
  import opened LedgerLaws
  import opened LedgerObject
  import opened ChainModel
  import opened Crash
  import ForkPoint

  class Blockchain {
    const env: Env
    var disk: Disk
    var height: u64
    var difficulty: u32
    ghost var writes: seq<Write>  // every write since the database was opened, in order

    ghost function Value(): Chain
      reads this
    {
      Chain(disk, height, difficulty)
    }

    method Put(w: Write)
      modifies this`disk, this`writes
      ensures disk == Perform(old(disk), w) && writes == old(writes) + [w]
    {
      disk := match w
        case PutBlock(i, b) => disk.(blocks := disk.blocks[i := b])
        case DeleteBlock(i) => disk.(blocks := disk.blocks - {i})
        case PutHeight(h) => disk.(height := Some(h))
        case PutPrevDiff(b, p) => disk.(prevDiff := disk.prevDiff[b := p])
        case PutDiff(x) => disk.(difficulty := Some(x));
      writes := writes + [w];
    }

    /** `load_or_create`: open a database that has a height, or start one with the genesis block. */
    constructor (env: Env, existing: Disk, difficulty: u32)
      ensures this.env == env
      ensures existing.height.Some? ==> Value() == Reopen(existing, difficulty)
      ensures existing.height.None? ==> (
        && height == 0 && this.difficulty == difficulty
        && disk == existing.(
             blocks := existing.blocks[0 := Genesis(env)], height := Some(0), difficulty := Some(difficulty)))
    {
      this.env := env;
      this.disk := existing;
      this.height := if existing.height.Some? then existing.height.value else 0;
      this.difficulty := difficulty;
      this.writes := [];
      new;
      if existing.height.Some? {
        if height == 0 {
          Put(PutDiff(TESTNET_DIFFICULTY));
          this.difficulty := TESTNET_DIFFICULTY;
        } else if disk.difficulty.Some? {
          this.difficulty := disk.difficulty.value;
        }
        var canonical := RecomputeDifficultyFromChain();
        if canonical != this.difficulty {
          this.difficulty := canonical;
          Put(PutDiff(canonical));
        }
      } else {
        Put(PutBlock(0, Genesis(env)));
        Put(PutHeight(0));
        Put(PutDiff(difficulty));
      }
    }

    method ComputeNextDifficulty() returns (next: u32)
      requires Value().Readable()
      ensures next == NextDifficulty(Value())
      ensures height < 10 ==> next == 14
      ensures height >= 10 && 1 <= difficulty <= 30 ==>
        var first, last := disk.blocks[height - 10].header.timestamp, disk.blocks[height].header.timestamp;
        Retargets(difficulty, SatSub(last, first), next)
    {
      if height < DAA_WINDOW {
        return TESTNET_DIFFICULTY;
      }
      var windowEnd := disk.blocks[height];
      var windowStart := disk.blocks[height - DAA_WINDOW];
      var actualMs := SatSub(windowEnd.header.timestamp, windowStart.header.timestamp);
      var targetMs := TARGET_BLOCK_MS * DAA_WINDOW;
      if actualMs == 0 {
        return Min((difficulty + 1) % 0x1_0000_0000, 30);
      }
      var newDiff: int := difficulty;
      if actualMs < targetMs / 4 {
        newDiff := Min(difficulty + 2, 0xFFFF_FFFF);
      } else if actualMs < targetMs {
        newDiff := Min(difficulty + 1, 0xFFFF_FFFF);
      } else if actualMs > targetMs * 4 {
        newDiff := Max(difficulty - 2, 0);
      } else if actualMs > targetMs {
        newDiff := Max(difficulty - 1, 0);
      }
      return Min(Max(newDiff, 1), 30);
    }

    method RecomputeDifficultyFromChain() returns (diff: u32)
      ensures diff == RecomputeDifficulty(Value())
      ensures Value().Readable() ==> diff == Diff(Value().Stored())
    {
      hide Diff;
      if Value().Readable() { RecomputeIsCanonical(Value()); }
      if height < DAA_WINDOW {
        return TESTNET_DIFFICULTY;
      }
      diff := TESTNET_DIFFICULTY;
      var boundary: nat := DAA_WINDOW;
      while boundary <= height
        invariant boundary >= DAA_WINDOW
        invariant RecomputeFrom(Value(), boundary, diff) == RecomputeDifficulty(Value())
        decreases height + DAA_WINDOW - boundary
      {
        if boundary !in disk.blocks || boundary - DAA_WINDOW !in disk.blocks {
          break;
        }
        var windowStart := disk.blocks[boundary - DAA_WINDOW];
        var actualMs := SatSub(disk.blocks[boundary].header.timestamp, windowStart.header.timestamp);
        diff := AdjustStep(diff, actualMs);
        boundary := boundary + DAA_WINDOW;
      }
    }

    /** The tail shared by both ways of applying: store the block, then retarget at a boundary. */
    method StoreTip(block: Block)
      requires Value().Readable() && block.header.index == WrapAdd(height, 1)
      modifies this
      ensures Value() == Append(old(Value()), block)
      ensures writes == old(writes) + ApplyWrites(old(Value()), block)
    {
      Put(PutBlock(block.header.index, block));
      height := block.header.index;
      Put(PutHeight(height));
      if height > 0 && height % DAA_WINDOW == 0 {
        var oldDiff := difficulty;
        difficulty := ComputeNextDifficulty();
        Put(PutPrevDiff(height, oldDiff));
        Put(PutDiff(difficulty));
      }
    }

    /** `validate_inner`. */
    method Validate(block: Block, prev: Block, mode: Mode) returns (ok: bool)
      ensures ok == ValidHeader(env, prev, difficulty, block, mode)
    {
      if block.header.index != WrapAdd(prev.header.index, 1) {
        return false;
      }
      if block.header.prevHash != prev.hash {
        return false;
      }
      if block.hash != HeaderHash(env, block.header) {
        return false;
      }
      var meets := MeetsDifficultyLoop(block.hash, difficulty);
      if !meets {
        return false;
      }
      if mode.Live? {
        var delta := if block.header.timestamp > mode.now then block.header.timestamp - mode.now
                     else mode.now - block.header.timestamp;
        if delta > BLOCK_TIMESTAMP_TOLERANCE_MS {
          return false;
        }
      }
      return true;
    }

    /** Every check that precedes the first ledger change. */
    method PassesPrecheck(block: Block, mode: Mode) returns (ok: bool)
      requires Value().Readable()
      ensures ok == Precheck(env, mode, Value(), block)
    {
      var listed := CheckpointHash(env.checkpoints, block.header.index);
      if listed.Some? && block.hash != listed.value {
        return false;
      }
      var valid := Validate(block, disk.blocks[height], mode);
      if !valid || block.header.reward != TESTNET_REWARD {
        return false;
      }
      for i := 0 to |block.transactions|
        invariant forall j :: 0 <= j < i ==> SigOk(env, block.transactions[j])
      {
        if !SigOk(env, block.transactions[i]) {
          return false;
        }
      }
      return true;
    }

    method ApplyBlock(block: Block, ledger: Ledger, now: u64) returns (ok: bool)
      requires Value().Readable() && ledger.env == env
      modifies this, ledger
      ensures Node(Value(), ledger.accounts) == Apply(env, Live(now), old(Node(Value(), ledger.accounts)), block)
      ensures ok == Accepts(env, Live(now), old(Node(Value(), ledger.accounts)), block)
      ensures writes == old(writes) + if ok then ApplyWrites(old(Value()), block) else []
    {
      hide ApplyWrites, Append, MeetsDifficulty, CheckpointOk, Transfer;
      ok := PassesPrecheck(block, Live(now));
      if !ok {
        return false;
      }
      ledger.ApplyCoinbase(block.header.miner, block.header.reward);
      ghost var start := ledger.accounts;
      for i := 0 to |block.transactions|
        modifies ledger
        invariant ApplyTxs(env, Live(now), start, block.transactions[..i]) == TxsOutcome(i, ledger.accounts)
      {
        ApplyTxsNext(env, Live(now), start, block.transactions, i);
        var error := ledger.ApplyTx(block.transactions[i]);
        if error.Some? {
          return false;
        }
      }
      assert block.transactions[..|block.transactions|] == block.transactions;
      StoreTip(block);
      return true;
    }

    method ApplyBlockIbd(block: Block, ledger: Ledger) returns (ok: bool)
      requires Value().Readable() && ledger.env == env
      modifies this, ledger
      ensures Node(Value(), ledger.accounts) == Apply(env, Ibd, old(Node(Value(), ledger.accounts)), block)
      ensures ok == Accepts(env, Ibd, old(Node(Value(), ledger.accounts)), block)
      ensures writes == old(writes) + if ok then ApplyWrites(old(Value()), block) else []
    {
      hide ApplyWrites, Append, MeetsDifficulty, CheckpointOk, Transfer;
      ok := PassesPrecheck(block, Ibd);
      if !ok {
        return false;
      }
      ledger.ApplyCoinbase(block.header.miner, block.header.reward);
      ghost var start := ledger.accounts;
      for i := 0 to |block.transactions|
        modifies ledger
        invariant ApplyTxs(env, Ibd, start, block.transactions[..i]) == TxsOutcome(i, ledger.accounts)
      {
        ApplyTxsNext(env, Ibd, start, block.transactions, i);
        var error := ledger.ApplyTxIbd(block.transactions[i]);
        if error.Some? {
          return false;
        }
      }
      assert block.transactions[..|block.transactions|] == block.transactions;
      StoreTip(block);
      return true;
    }

    method UndoBlock(tip: Block, ledger: Ledger)
      modifies ledger
      ensures ledger.accounts == RevertLedger(old(ledger.accounts), tip)
    {
      var txs := tip.transactions;
      assert txs[..|txs|] == txs;
      for i := |txs| downto 0
        invariant RevertTxs(ledger.accounts, txs[..i]) == RevertTxs(old(ledger.accounts), txs)
      {
        assert Init(txs[..i + 1]) == txs[..i];
        ledger.RevertTx(txs[i]);
      }
      ledger.RevertCoinbase(tip.header.miner, tip.header.reward);
    }

    method RevertTip(ledger: Ledger) returns (reverted: Option<Block>)
      requires Value().Readable() && ledger.env == env
      modifies this, ledger
      ensures old(height) == 0 ==>
        reverted == None && Value() == old(Value()) && ledger.accounts == old(ledger.accounts)
      ensures old(height) > 0 ==>
        && reverted == Some(old(Value().Tip()))
        && Node(Value(), ledger.accounts) == ChainModel.RevertTip(old(Node(Value(), ledger.accounts)))
        && disk.blocks == old(disk).blocks - {old(height)}
    {
      hide RevertLedger, NextDifficulty;
      if height == 0 {
        return None;
      }
      var tip := disk.blocks[height];
      UndoBlock(tip, ledger);
      Put(DeleteBlock(height));
      height := height - 1;
      Put(PutHeight(height));
      if (height + 1) % DAA_WINDOW == 0 {
        var boundary := height + 1;
        if boundary in disk.prevDiff {
          difficulty := disk.prevDiff[boundary];
        } else {
          difficulty := ComputeNextDifficulty();
        }
        Put(PutDiff(difficulty));
      }
      return Some(tip);
    }

    /** Refuses below the last passed checkpoint; otherwise reverts tip by tip and returns the blocks, newest first. */
    method RevertToHeight(target: u64, ledger: Ledger) returns (reverted: Option<seq<Block>>)
      requires Value().Readable() && ledger.env == env
      modifies this, ledger
      ensures Node(Value(), ledger.accounts)
           == ChainModel.RevertToHeight(env, old(Node(Value(), ledger.accounts)), target)
      ensures reverted.Some? <==> MayRevertTo(env, old(Node(Value(), ledger.accounts)), target)
      ensures reverted.Some? ==> (
        && |reverted.value| == Max(old(height) - target, 0)
        && forall i :: 0 <= i < |reverted.value| ==> reverted.value[i] == old(disk).blocks[old(height) - i])
    {
      hide RevertLedger, Truncate, Anchor;
      if target < Anchor(env.checkpoints, height) {
        return None;
      }
      var blocks: seq<Block> := [];
      while height > target
        invariant Value().Readable()
        invariant RevertDown(Node(Value(), ledger.accounts), target)
               == RevertDown(old(Node(Value(), ledger.accounts)), target)
        invariant height == old(height) - |blocks| && height >= Min(target, old(height))
        invariant forall i :: 0 <= i < |blocks| ==> blocks[i] == old(disk).blocks[old(height) - i]
        invariant forall i :: 0 <= i <= height ==> disk.blocks[i] == old(disk).blocks[i]
        decreases height
      {
        var block := RevertTip(ledger);
        blocks := blocks + [block.value];
      }
      if height == 0 {
        difficulty := TESTNET_DIFFICULTY;
        Put(PutDiff(difficulty));
      }
      return Some(blocks);
    }

    method FindForkPoint(incoming: seq<Block>) returns (fork: Option<u64>)
      ensures fork == ForkPoint.ForkPoint(disk.blocks, incoming)
    {
      fork := ForkPoint.FindForkPoint(disk.blocks, incoming);
    }

    /** `blocks_range`: the stored blocks in the range, cut at the tip. */
    method BlocksRange(from: u64, to: u64) returns (blocks: seq<Block>)
      requires Value().Readable()
      ensures blocks == if from <= Min(to, height) then Value().Stored()[from..Min(to, height) + 1] else []
    {
      var last := Min(to, height);
      blocks := [];
      var i: nat := from;
      while i <= last
        invariant from <= i <= Max(from, last + 1)
        invariant blocks == if from <= last then Value().Stored()[from..i] else []
      {
        blocks := blocks + [disk.blocks[i]];
        i := i + 1;
      }
    }
  }

  /** One more transaction of a block: either it extends the outcome or it is where the whole block stops. */
  lemma ApplyTxsNext(env: Env, mode: Mode, l: Accounts, txs: seq<Transaction>, i: nat)
    requires i < |txs| && ApplyTxs(env, mode, l, txs[..i]).applied == i
    ensures var mid := ApplyTxs(env, mode, l, txs[..i]).ledger;
      match ApplyTx(env, mode, mid, txs[i])
      case Ok(next) => ApplyTxs(env, mode, l, txs[..i + 1]) == TxsOutcome(i + 1, next)
      case Err(_) => ApplyTxs(env, mode, l, txs) == TxsOutcome(i, mid)
  {
    assert Init(txs[..i + 1]) == txs[..i];
    if ApplyTxs(env, mode, l, txs[..i + 1]).applied == i {
      ApplyTxsStops(env, mode, l, txs, i + 1);
    }
  }
}
