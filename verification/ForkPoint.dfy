/** Where a batch of incoming blocks attaches to the stored chain. */
module ForkPoint {
  import opened Primitives
  import opened Types
  import opened History
  import opened ChainModel
  import opened ChainLaws

  /** `b` starts at genesis, or its parent hash is the hash we store one below it. */
  predicate Attaches(blocks: map<u64, Block>, b: Block) {
    b.header.index == 0 ||
    (b.header.index - 1 in blocks && blocks[b.header.index - 1].hash == b.header.prevHash)
  }

  /** The height below the first block of the batch that attaches. */
  function ForkPoint(blocks: map<u64, Block>, incoming: seq<Block>): Option<u64> {
    if incoming == [] then None
    else if Attaches(blocks, incoming[0]) then Some(SatSub(incoming[0].header.index, 1))
    else ForkPoint(blocks, incoming[1..])
  }

  function FirstAt(incoming: seq<Block>, index: u64): (b: Option<Block>)
    ensures b.Some? ==> b.value in incoming && b.value.header.index == index
  {
    if incoming == [] then None
    else if incoming[0].header.index == index then Some(incoming[0])
    else FirstAt(incoming[1..], index)
  }

  lemma {:induction false} ForkPointNone(blocks: map<u64, Block>, incoming: seq<Block>)
    ensures ForkPoint(blocks, incoming) == None <==> forall b :: b in incoming ==> !Attaches(blocks, b)
  {
    if incoming != [] && !Attaches(blocks, incoming[0]) {
      ForkPointNone(blocks, incoming[1..]);
      forall b | b in incoming ensures b == incoming[0] || b in incoming[1..] {
      }
    }
  }

  /** The result is the parent height of an attaching block with only non-attaching blocks before it. */
  lemma {:induction false} ForkPointFirst(blocks: map<u64, Block>, incoming: seq<Block>, n: nat)
    requires n < |incoming| && Attaches(blocks, incoming[n])
    requires forall i :: 0 <= i < n ==> !Attaches(blocks, incoming[i])
    ensures ForkPoint(blocks, incoming) == Some(SatSub(incoming[n].header.index, 1))
  {
    if n > 0 {
      ForkPointFirst(blocks, incoming[1..], n - 1);
    }
  }

  /** The block is genesis and `fork` is 0, or its parent is the block we store under `fork`. */
  predicate HooksAt(blocks: map<u64, Block>, b: Block, fork: u64) {
    (b.header.index == 0 && fork == 0)
    || (b.header.index == fork + 1 && fork in blocks && blocks[fork].hash == b.header.prevHash)
  }

  predicate FirstHook(blocks: map<u64, Block>, incoming: seq<Block>, n: int, fork: u64) {
    && 0 <= n < |incoming| && HooksAt(blocks, incoming[n], fork)
    && forall i, f :: 0 <= i < n ==> !HooksAt(blocks, incoming[i], f)
  }

  /** The answer is where the first block that hooks anywhere does; there is none exactly if no block hooks. */
  lemma {:induction false} ForkPointHooks(blocks: map<u64, Block>, incoming: seq<Block>)
    ensures var fork := ForkPoint(blocks, incoming);
      && (fork == None ==> forall b, f :: b in incoming ==> !HooksAt(blocks, b, f))
      && (fork.Some? ==> exists n :: FirstHook(blocks, incoming, n, fork.value))
  {
    if incoming != [] {
      ForkPointHooks(blocks, incoming[1..]);
      var fork := ForkPoint(blocks, incoming);
      if Attaches(blocks, incoming[0]) {
        assert FirstHook(blocks, incoming, 0, fork.value);
      } else if fork.Some? {
        var n :| FirstHook(blocks, incoming[1..], n, fork.value);
        forall i, f | 0 <= i < n + 1 ensures !HooksAt(blocks, incoming[i], f) {
          if i > 0 { assert incoming[i] == incoming[1..][i - 1]; }
        }
        assert FirstHook(blocks, incoming, n + 1, fork.value);
      }
    }
  }

  /**
   * The search as the node runs it: a scan of the batch, then a walk backwards through the batch.
   * The walk only ever re-checks blocks the scan has refused, so the scan alone decides.
   */
  method FindForkPoint(blocks: map<u64, Block>, incoming: seq<Block>) returns (fork: Option<u64>)
    ensures fork == ForkPoint(blocks, incoming)
  {
    if incoming == [] {
      return None;
    }
    for n := 0 to |incoming|
      invariant forall i :: 0 <= i < n ==> !Attaches(blocks, incoming[i])
    {
      var block := incoming[n];
      if Attaches(blocks, block) {
        ForkPointFirst(blocks, incoming, n);
      }
      if block.header.index == 0 {
        return Some(0);
      }
      var parentHeight := block.header.index - 1;
      if parentHeight in blocks && blocks[parentHeight].hash == block.header.prevHash {
        return Some(parentHeight);
      }
    }
    ForkPointNone(blocks, incoming);

    fork := None;
    var probeHeight := SatSub(incoming[0].header.index, 1);
    var probeHash := incoming[0].header.prevHash;
    ghost var probed := incoming[0];
    for _ := 0 to |incoming|
      invariant fork == None && probed in incoming
      invariant probed.header.index > 0 && probeHeight == SatSub(probed.header.index, 1)
      invariant probeHash == probed.header.prevHash
    {
      if probeHeight in blocks && blocks[probeHeight].hash == probeHash {
        fork := Some(probeHeight);
        break;
      }
      if probeHeight == 0 {
        break;
      }
      var previous := FirstAt(incoming, probeHeight);
      if previous.None? {
        break;
      }
      probed := previous.value;
      probeHash := previous.value.header.prevHash;
      probeHeight := SatSub(probeHeight, 1);
    }
  }

  /** A batch of consecutive, hash-linked blocks with their own header hashes. */
  predicate Consecutive(env: Env, incoming: seq<Block>) {
    && (forall i :: 0 <= i < |incoming| ==> incoming[i].hash == HeaderHash(env, incoming[i].header))
    && (forall i :: 0 < i < |incoming| ==>
          && incoming[i].header.index == incoming[i - 1].header.index + 1
          && incoming[i].header.prevHash == incoming[i - 1].hash)
  }

  /** No two of our blocks and theirs share a hash without sharing a header. */
  predicate NoCollision(ours: seq<Block>, theirs: seq<Block>) {
    forall x, y :: x in ours && y in theirs && x.hash == y.hash ==> x.header == y.header
  }

  /** If a block of such a batch attaches above its first block, the block before it attaches as well. */
  lemma AttachesEarlier(env: Env, c: Chain, incoming: seq<Block>, n: nat)
    requires Consistent(env, c) && Consecutive(env, incoming) && NoCollision(c.Stored()[1..], incoming)
    requires 0 < n < |incoming| && incoming[0].header.index > 0 && Attaches(c.disk.blocks, incoming[n])
    ensures Attaches(c.disk.blocks, incoming[n - 1])
  {
    hide Diff, HeaderOk, LinkedHistory, Snapshots;
    var theirs := incoming[n - 1];
    IndicesGrow(env, incoming, n - 1);
    var i := theirs.header.index;
    var ours := c.disk.blocks[i];
    assert c.Stored()[1..][i - 1] == ours;
    assert ours.header == theirs.header;
    OurParent(env, c, i);
  }

  lemma OurParent(env: Env, c: Chain, i: u64)
    requires Consistent(env, c) && 0 < i <= c.height
    ensures c.disk.blocks[i].header.prevHash == c.disk.blocks[i - 1].hash
  {
    LinkedPrefix(env, c.Stored(), i);
    assert Last(c.Stored()[..i]) == c.disk.blocks[i - 1];
  }

  lemma {:induction false} IndicesGrow(env: Env, incoming: seq<Block>, n: nat)
    requires Consecutive(env, incoming) && n < |incoming|
    ensures incoming[n].header.index == incoming[0].header.index + n
  {
    if n > 0 { IndicesGrow(env, incoming, n - 1); }
  }

  /**
   * For a linked batch above genesis the answer is the parent of its first block whenever there is
   * any: a common ancestor.
   */
  lemma {:induction false} ForkPointIsFirstParent(env: Env, c: Chain, incoming: seq<Block>, n: nat)
    requires Consistent(env, c) && Consecutive(env, incoming) && NoCollision(c.Stored()[1..], incoming)
    requires n < |incoming| && incoming[0].header.index > 0 && Attaches(c.disk.blocks, incoming[n])
    ensures Attaches(c.disk.blocks, incoming[0])
    ensures ForkPoint(c.disk.blocks, incoming) == Some(incoming[0].header.index - 1)
  {
    hide Consistent, Consecutive, NoCollision;
    if n > 0 {
      AttachesEarlier(env, c, incoming, n);
      ForkPointIsFirstParent(env, c, incoming, n - 1);
    } else {
      ForkPointFirst(c.disk.blocks, incoming, 0);
    }
  }

  // ---- The last common ancestor ----

  /** We store a block with the hash of `b` at the index of `b`. */
  predicate StoredAt(blocks: map<u64, Block>, b: Block) {
    b.header.index in blocks && blocks[b.header.index].hash == b.hash
  }

  /** How many blocks at the head of the batch we already store. */
  function Repeated(blocks: map<u64, Block>, incoming: seq<Block>): (n: nat)
    ensures n <= |incoming|
  {
    if incoming == [] || !StoredAt(blocks, incoming[0]) then 0 else 1 + Repeated(blocks, incoming[1..])
  }

  /** Storing a block of a linked batch means storing the one before it. */
  lemma StoredEarlier(env: Env, c: Chain, incoming: seq<Block>, n: nat)
    requires Consistent(env, c) && Consecutive(env, incoming) && NoCollision(c.Stored()[1..], incoming)
    requires n < |incoming| && incoming[0].header.index > 0 && StoredAt(c.disk.blocks, incoming[n])
    ensures Attaches(c.disk.blocks, incoming[n])
    ensures n > 0 ==> StoredAt(c.disk.blocks, incoming[n - 1])
  {
    hide Diff, HeaderOk, LinkedHistory, Snapshots;
    IndicesGrow(env, incoming, n);
    var i := incoming[n].header.index;
    var ours := c.disk.blocks[i];
    assert c.Stored()[1..][i - 1] == ours;
    assert ours.header == incoming[n].header;
    OurParent(env, c, i);
  }

  /** What we store of a linked batch is a head of it, and nothing else. */
  lemma {:induction false} RepeatedIsHead(env: Env, c: Chain, incoming: seq<Block>, n: nat)
    requires Consistent(env, c) && Consecutive(env, incoming) && NoCollision(c.Stored()[1..], incoming)
    requires n < |incoming| && incoming[0].header.index > 0
    ensures StoredAt(c.disk.blocks, incoming[n]) <==> n < Repeated(c.disk.blocks, incoming)
    decreases n
  {
    hide Consistent, NoCollision;
    if n > 0 {
      RepeatedIsHead(env, c, incoming, n - 1);
      if n - 1 < Repeated(c.disk.blocks, incoming) { RepeatedStep(c.disk.blocks, incoming, n); }
      if StoredAt(c.disk.blocks, incoming[n]) { StoredEarlier(env, c, incoming, n); }
    }
  }

  lemma {:induction false} RepeatedStep(blocks: map<u64, Block>, incoming: seq<Block>, n: nat)
    requires 0 < n < |incoming| && n - 1 < Repeated(blocks, incoming)
    ensures n < Repeated(blocks, incoming) <==> StoredAt(blocks, incoming[n])
  {
    if n > 1 { RepeatedStep(blocks, incoming[1..], n - 1); }
  }

  /** No block of the batch above height `h` is stored, and `h` is the height of one that both sides have. */
  predicate LastCommon(blocks: map<u64, Block>, incoming: seq<Block>, h: u64)
    requires incoming != []
  {
    && (h == incoming[0].header.index - 1 || exists b :: b in incoming && b.header.index == h && StoredAt(blocks, b))
    && forall b :: b in incoming && b.header.index > h ==> !StoredAt(blocks, b)
  }

  /**
   * The answer is the last common ancestor exactly if the first block of the batch is new to us. In
   * general the last common ancestor lies higher by the number of repeated blocks.
   */
  lemma LastCommonAncestor(env: Env, c: Chain, incoming: seq<Block>)
    requires Consistent(env, c) && Consecutive(env, incoming) && NoCollision(c.Stored()[1..], incoming)
    requires incoming != [] && incoming[0].header.index > 0 && Attaches(c.disk.blocks, incoming[0])
    ensures var fork, repeated := ForkPoint(c.disk.blocks, incoming), Repeated(c.disk.blocks, incoming);
      && fork == Some(incoming[0].header.index - 1)
      && (forall h :: LastCommon(c.disk.blocks, incoming, h) <==> h == fork.value + repeated)
      && (LastCommon(c.disk.blocks, incoming, fork.value) <==> !StoredAt(c.disk.blocks, incoming[0]))
  {
    hide Consistent, Consecutive, NoCollision, LastCommon;
    ForkPointIsFirstParent(env, c, incoming, 0);
    forall h ensures LastCommon(c.disk.blocks, incoming, h) <==>
      h == incoming[0].header.index - 1 + Repeated(c.disk.blocks, incoming)
    {
      LastCommonIs(env, c, incoming, h);
    }
  }

  lemma LastCommonIs(env: Env, c: Chain, incoming: seq<Block>, h: u64)
    requires Consistent(env, c) && Consecutive(env, incoming) && NoCollision(c.Stored()[1..], incoming)
    requires incoming != [] && incoming[0].header.index > 0
    ensures LastCommon(c.disk.blocks, incoming, h) <==>
      h == incoming[0].header.index - 1 + Repeated(c.disk.blocks, incoming)
  {
    hide Consistent, Consecutive, NoCollision, Repeated, StoredAt;
    var r := Repeated(c.disk.blocks, incoming);
    forall n | 0 <= n < |incoming|
      ensures incoming[n].header.index == incoming[0].header.index + n
      ensures StoredAt(c.disk.blocks, incoming[n]) <==> n < r
    {
      IndicesGrow(env, incoming, n);
      RepeatedIsHead(env, c, incoming, n);
    }
    if r > 0 { assert incoming[r - 1] in incoming; }
    if r < |incoming| { assert incoming[r] in incoming; }
  }

  /** On a consistent chain the fork point is never above the tip. */
  lemma ForkPointWithinChain(env: Env, c: Chain, incoming: seq<Block>)
    requires Consistent(env, c) && ForkPoint(c.disk.blocks, incoming).Some?
    ensures ForkPoint(c.disk.blocks, incoming).value <= c.height
  {
    hide Diff, LinkedHistory, Snapshots;
    if !Attaches(c.disk.blocks, incoming[0]) {
      ForkPointWithinChain(env, c, incoming[1..]);
    }
  }
}
