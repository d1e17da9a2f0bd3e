/** The synchronisation branches of the node's message loop, acting on a chain and a ledger in place. */
module NodeObject {
  import opened Primitives
  import opened Types
  import opened History
  import opened LedgerModel
  import opened LedgerObject
  import opened ChainModel
  import opened ChainLaws
  import opened BlockchainObject
  import opened Sync
  import opened TipRace

  class Syncer {
    const env: Env
    const chain: Blockchain
    const ledger: Ledger
    var peerHeight: Option<u64>  // as last announced by the peer of this connection

    constructor (chain: Blockchain, ledger: Ledger)
      requires chain.env == ledger.env
      ensures this.chain == chain && this.ledger == ledger && env == chain.env && peerHeight == None
      ensures Ready()
    {
      this.env := chain.env;
      this.chain := chain;
      this.ledger := ledger;
      this.peerHeight := None;
    }

    ghost predicate Ready() {
      chain.env == env && ledger.env == env
    }

    ghost function Value(): Node
      reads chain, ledger
    {
      Node(chain.Value(), ledger.accounts)
    }

    /** `ChainHeight`: remember it and ask for the first chunk if the peer is ahead. */
    method OnChainHeight(announced: u64) returns (request: Option<(int, int)>)
      modifies this
      ensures peerHeight == Some(announced) && request == NextRange(chain.height, announced)
    {
      peerHeight := Some(announced);
      var height := chain.height;
      if announced > height {
        var from := height + 1;
        var to := Min(from + IBD_CHUNK_SIZE - 1, announced);
        return Some((from, to));
      }
      return None;
    }

    /** Apply blocks in order until one is rejected. */
    method ApplyUntilRejected(blocks: seq<Block>) returns (applied: nat)
      requires Ready() && chain.Value().Readable()
      modifies chain, ledger
      ensures BatchOutcome(Value(), applied) == ApplyBatch(env, old(Value()), blocks)
    {
      hide Apply, Accepts;
      applied := 0;
      while applied < |blocks|
        invariant applied <= |blocks| && chain.Value().Readable()
        invariant ApplyBatch(env, old(Value()), blocks[..applied]) == BatchOutcome(Value(), applied)
        decreases |blocks| - applied
      {
        assert Init(blocks[..applied + 1]) == blocks[..applied];
        var ok := chain.ApplyBlockIbd(blocks[applied], ledger);
        if !ok {
          BatchStops(env, old(Value()), blocks, applied + 1);
          return;
        }
        applied := applied + 1;
      }
      assert blocks[..|blocks|] == blocks;
    }

    /** Roll back to an anchor; returns the progress count to continue with. */
    method RollBack(anchor: u64, applied: nat) returns (progress: nat)
      requires Ready() && chain.Value().Readable()
      modifies chain, ledger
      ensures BatchOutcome(Value(), progress) == BackTo(env, old(Value()), anchor, applied)
    {
      var reverted := chain.RevertToHeight(anchor, ledger);
      progress := if reverted.Some? then 1 else applied;
    }

    method OnRejected(blocks: seq<Block>, applied: nat) returns (progress: nat)
      requires Ready() && chain.Value().Readable()
      modifies chain, ledger
      ensures BatchOutcome(Value(), progress) == Recover(env, old(Value()), blocks, applied, peerHeight)
    {
      hide RevertDown, ResetAtGenesis, ApplyBatch, Anchor, BackTo, AboveFork, ForkPoint.ForkPoint;
      var incomingMax := 0;
      for i := 0 to |blocks|
        invariant incomingMax == MaxIndex(blocks[..i])
      {
        assert Init(blocks[..i + 1]) == blocks[..i];
        incomingMax := Max(incomingMax, blocks[i].header.index);
      }
      assert blocks[..|blocks|] == blocks;
      var height := chain.height;
      if incomingMax <= height {
        return applied;
      }
      var fork := chain.FindForkPoint(blocks);
      if fork.Some? {
        var anchor := Anchor(env.checkpoints, SatSub(height, 1));
        if fork.value == height && applied == 0 && incomingMax > height + 50 && anchor < height {
          progress := RollBack(anchor, applied);
          return;
        }
        var depth := (height - fork.value) % TWO64;
        var maxReorg: int := 10;
        if incomingMax > height + 5 {
          maxReorg := height;
        }
        if depth > maxReorg {
          return applied;
        }
        var reverted := chain.RevertToHeight(fork.value, ledger);
        if reverted.None? {
          return applied;
        }
        var more := Reapply(blocks, fork.value);
        return applied + more;
      }
      var announced := if peerHeight.Some? then peerHeight.value else incomingMax;
      if incomingMax > height + 10 && (height < 200 || announced > height + 300) {
        var anchor := if height < 200 then 0 else Anchor(env.checkpoints, SatSub(height, 1));
        progress := RollBack(anchor, applied);
        return;
      }
      return applied;
    }

    /** After a revert, apply the incoming blocks above the fork point until one fails. */
    method Reapply(blocks: seq<Block>, fork: u64) returns (applied: nat)
      requires Ready() && chain.Value().Readable()
      modifies chain, ledger
      ensures BatchOutcome(Value(), applied) == ApplyBatch(env, old(Value()), AboveFork(blocks, fork))
    {
      hide Apply, Accepts;
      applied := 0;
      for i := 0 to |blocks|
        modifies chain, ledger
        invariant chain.Value().Readable() && applied == |AboveFork(blocks[..i], fork)|
        invariant ApplyBatch(env, old(Value()), AboveFork(blocks[..i], fork)) == BatchOutcome(Value(), applied)
      {
        assert Init(blocks[..i + 1]) == blocks[..i];
        ghost var before := AboveFork(blocks[..i], fork);
        if blocks[i].header.index <= fork {
          assert before + [] == before;
          continue;
        }
        ghost var rest := before + [blocks[i]];
        assert rest == AboveFork(blocks[..i + 1], fork) && Init(rest) == before;
        var ok := chain.ApplyBlockIbd(blocks[i], ledger);
        if !ok {
          AboveForkPrefix(blocks, i + 1, fork);
          BatchStops(env, old(Value()), AboveFork(blocks, fork), applied + 1);
          return;
        }
        applied := applied + 1;
      }
      assert blocks[..|blocks|] == blocks;
    }

    /** `Blocks`: apply the batch, recover if it is rejected, and ask for the next chunk after progress. */
    method OnBlocks(blocks: seq<Block>) returns (applied: nat, request: Option<(int, int)>)
      requires Ready() && chain.Value().Readable()
      modifies chain, ledger
      ensures BatchOutcome(Value(), applied) == HandleBlocks(env, old(Value()), blocks, peerHeight)
      ensures request ==
        if applied > 0 && peerHeight.Some? then NextRange(chain.height, peerHeight.value) else None
    {
      hide Recover, ApplyBatch;
      applied := ApplyUntilRejected(blocks);
      if applied < |blocks| {
        applied := OnRejected(blocks, applied);
      }
      request := None;
      if applied > 0 && peerHeight.Some? {
        var height := chain.height;
        if height < peerHeight.value {
          var from := height + 1;
          request := Some((from, Min(from + IBD_CHUNK_SIZE - 1, peerHeight.value)));
        }
      }
    }

    /**
     * `NewBlock` at our own height: the lower hash takes the tip; the three times are successive readings
     * of the clock.
     */
    method OnCompetingBlock(block: Block, seen: u64, applied: u64, restored: u64)
      requires Ready() && chain.Value().Readable()
      modifies chain, ledger
      ensures Value() == ReplaceTip(env, seen, applied, restored, old(Value()), block)
    {
      hide Apply, RevertLedger, Truncate, Accepts, Less, ValidHeader;
      if chain.height == 0 || block.header.index != chain.height {
        return;
      }
      var tip := chain.disk.blocks[chain.height];
      if !Less(block.hash, tip.hash) {
        return;
      }
      var parent := chain.disk.blocks[chain.height - 1];
      var valid := chain.Validate(block, parent, Live(seen));
      if !valid || block.header.reward != TESTNET_REWARD {
        return;
      }
      var reverted := chain.RevertTip(ledger);
      var won := chain.ApplyBlock(block, ledger, applied);
      if !won {
        var _ := chain.ApplyBlock(reverted.value, ledger, restored);
      }
    }

    /**
     * The whole download from one peer that announced a height: it terminates, because every
     * exchange brings our height closer, and leaves us with the peer's blocks up to that height.
     */
    method Download(peer: Blockchain, announced: u64) returns (exchanges: nat)
      requires Ready() && Synced(env, Value()) && peer != chain
      requires Consistent(env, peer.Value()) && FundedHistory(env, peer.Value().Stored())
      requires chain.Value().Stored() <= peer.Value().Stored()
      requires announced <= peer.height && peer.height + 1 < MAX_HEIGHT
      modifies this, chain, ledger
      ensures Synced(env, Value())
      ensures chain.Value().Stored() == peer.Value().Stored()[..Max(announced, old(chain.height)) + 1]
      ensures exchanges == (Max(announced - old(chain.height), 0) + IBD_CHUNK_SIZE - 1) / IBD_CHUNK_SIZE
    {
      hide Synced, Consistent, HandleBlocks, LinkedHistory, FundedHistory, Diff;
      ghost var theirs := peer.Value().Stored();
      SoundPeer(env, peer.Value());
      exchanges := 0;
      var request := OnChainHeight(announced);
      while request.Some?
        invariant Synced(env, Value()) && peerHeight == Some(announced)
        invariant chain.Value().Stored() <= theirs
        invariant request == NextRange(chain.height, announced)
        invariant old(chain.height) <= chain.height <= Max(announced, old(chain.height))
        invariant chain.height == Min(Max(announced, old(chain.height)), old(chain.height) + IBD_CHUNK_SIZE * exchanges)
        invariant exchanges > 0 ==> old(chain.height) + IBD_CHUNK_SIZE * (exchanges - 1) < announced
        decreases announced - chain.height
      {
        var (from, to) := request.value;
        var blocks := peer.BlocksRange(from, to);
        ChunkAdvances(env, Value(), theirs, announced, peerHeight);
        var applied: nat;
        applied, request := OnBlocks(blocks);
        exchanges := exchanges + 1;
      }
    }
  }

  lemma SoundPeer(env: Env, c: Chain)
    requires Consistent(env, c)
    ensures LinkedHistory(env, c.Stored())
  {
  }

  lemma {:induction false} AboveForkPrefix(blocks: seq<Block>, n: nat, fork: u64)
    requires n <= |blocks|
    ensures var part := AboveFork(blocks[..n], fork);
      |part| <= |AboveFork(blocks, fork)| && AboveFork(blocks, fork)[..|part|] == part
    decreases |blocks|
  {
    if n < |blocks| {
      assert Init(blocks)[..n] == blocks[..n];
      AboveForkPrefix(Init(blocks), n, fork);
    } else {
      assert blocks[..n] == blocks;
    }
  }
}
