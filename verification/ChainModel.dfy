/** The chain store as a value, and what each chain operation does to store and ledger. */
module ChainModel {
  import opened Primitives
  import opened Types
  import opened Difficulty
  import opened History
  import opened LedgerModel

  /** The key/value database: blocks by index, difficulty snapshots by boundary, and two scalars. */
  datatype Disk = Disk(
    blocks: map<u64, Block>,
    height: Option<u64>,
    difficulty: Option<u32>,
    prevDiff: map<u64, u32>)

  datatype Write =
    | PutBlock(index: u64, block: Block)
    | DeleteBlock(index: u64)
    | PutHeight(height: u64)
    | PutPrevDiff(boundary: u64, previous: u32)
    | PutDiff(difficulty: u32)

  function Perform(d: Disk, w: Write): Disk {
    match w
    case PutBlock(i, b) => d.(blocks := d.blocks[i := b])
    case DeleteBlock(i) => d.(blocks := d.blocks - {i})
    case PutHeight(h) => d.(height := Some(h))
    case PutPrevDiff(b, p) => d.(prevDiff := d.prevDiff[b := p])
    case PutDiff(x) => d.(difficulty := Some(x))
  }

  function PerformAll(d: Disk, ws: seq<Write>): Disk {
    if ws == [] then d else Perform(PerformAll(d, Init(ws)), Last(ws))
  }

  /** The database together with the height and difficulty cached in memory. */
  datatype Chain = Chain(disk: Disk, height: u64, difficulty: u32)
  {
    /** The store holds a block under each height up to the tip, and each block knows its index. */
    ghost predicate Readable() {
      forall i :: 0 <= i <= height ==> i in disk.blocks && disk.blocks[i].header.index == i
    }

    /** The stored blocks from genesis to the tip. */
    ghost function Stored(): (bs: seq<Block>)
      requires Readable()
      ensures |bs| == height + 1
      ensures forall i :: 0 <= i <= height ==> bs[i] == disk.blocks[i]
    {
      seq(height + 1, i requires 0 <= i <= height => disk.blocks[i])
    }

    function Tip(): Block
      requires Readable()
    {
      disk.blocks[height]
    }
  }

  /** The difficulty the node computes when the tip sits on a boundary, from the two window ends. */
  function NextDifficulty(c: Chain): u32
    requires c.Readable()
  {
    if c.height < DAA_WINDOW then TESTNET_DIFFICULTY
    else
      AdjustStep(c.difficulty,
        SatSub(c.disk.blocks[c.height].header.timestamp, c.disk.blocks[c.height - DAA_WINDOW].header.timestamp))
  }

  /** `validate_inner` against a predecessor. */
  predicate ValidHeader(env: Env, prev: Block, difficulty: u32, b: Block, mode: Mode) {
    && b.header.index == WrapAdd(prev.header.index, 1)
    && b.header.prevHash == prev.hash
    && b.hash == HeaderHash(env, b.header)
    && MeetsDifficulty(b.hash, difficulty)
    && (mode.Live? ==>
          SatSub(b.header.timestamp, mode.now) + SatSub(mode.now, b.header.timestamp) <= BLOCK_TIMESTAMP_TOLERANCE_MS)
  }

  /** Everything checked before the ledger is touched. */
  predicate Precheck(env: Env, mode: Mode, c: Chain, b: Block)
    requires c.Readable()
  {
    && CheckpointOk(env, b)
    && ValidHeader(env, c.Tip(), c.difficulty, b, mode)
    && b.header.reward == TESTNET_REWARD
    && forall i :: 0 <= i < |b.transactions| ==> SigOk(env, b.transactions[i])
  }

  /** The chain with `b` as its new tip. */
  function Append(c: Chain, b: Block): (c': Chain)
    requires c.Readable() && b.header.index == WrapAdd(c.height, 1)
    ensures c'.Readable()
  {
    var d := c.disk.(blocks := c.disk.blocks[b.header.index := b], height := Some(b.header.index));
    var c1 := Chain(d, b.header.index, c.difficulty);
    if c1.height > 0 && c1.height % DAA_WINDOW == 0 then
      var next := NextDifficulty(c1);
      Chain(d.(prevDiff := d.prevDiff[c1.height := c.difficulty], difficulty := Some(next)), c1.height, next)
    else c1
  }

  /** The separate database writes of applying `b`, in order. */
  function ApplyWrites(c: Chain, b: Block): seq<Write>
    requires c.Readable() && b.header.index == WrapAdd(c.height, 1)
  {
    [PutBlock(b.header.index, b), PutHeight(b.header.index)] +
    if b.header.index > 0 && b.header.index % DAA_WINDOW == 0 then
      [PutPrevDiff(b.header.index, c.difficulty), PutDiff(Append(c, b).difficulty)]
    else []
  }

  /** A node: its chain and its ledger. */
  datatype Node = Node(chain: Chain, accounts: Accounts)

  /** The ledger part of applying a block that passed the precheck. */
  function ApplyLedger(env: Env, mode: Mode, l: Accounts, b: Block): TxsOutcome {
    ApplyTxs(env, mode, ApplyCoinbase(env, l, b.header.miner, b.header.reward), b.transactions)
  }

  predicate Accepts(env: Env, mode: Mode, s: Node, b: Block)
    requires s.chain.Readable()
  {
    Precheck(env, mode, s.chain, b) && ApplyLedger(env, mode, s.accounts, b).applied == |b.transactions|
  }

  /** Rejected after the reward was credited: the ledger keeps what was done so far. */
  predicate RejectsLate(env: Env, mode: Mode, s: Node, b: Block)
    requires s.chain.Readable()
  {
    Precheck(env, mode, s.chain, b) && ApplyLedger(env, mode, s.accounts, b).applied < |b.transactions|
  }

  function Apply(env: Env, mode: Mode, s: Node, b: Block): (s': Node)
    requires s.chain.Readable()
    ensures s'.chain.Readable()
  {
    if !Precheck(env, mode, s.chain, b) then s
    else
      var o := ApplyLedger(env, mode, s.accounts, b);
      if o.applied < |b.transactions| then Node(s.chain, o.ledger)
      else Node(Append(s.chain, b), o.ledger)
  }

  function RevertLedger(l: Accounts, b: Block): Accounts {
    RevertCoinbase(RevertTxs(l, b.transactions), b.header.miner, b.header.reward)
  }

  /** The chain without its tip, with the difficulty that preceded a boundary restored. */
  function Truncate(c: Chain): (c': Chain)
    requires c.Readable() && c.height > 0
    ensures c'.Readable() && c'.height == c.height - 1
  {
    var h := c.height - 1;
    var d := c.disk.(blocks := c.disk.blocks - {c.height}, height := Some(h));
    var c1 := Chain(d, h, c.difficulty);
    if (h + 1) % DAA_WINDOW == 0 then
      var restored := if h + 1 in d.prevDiff then d.prevDiff[h + 1] else NextDifficulty(c1);
      Chain(d.(difficulty := Some(restored)), h, restored)
    else c1
  }

  function RevertTip(s: Node): (s': Node)
    requires s.chain.Readable() && s.chain.height > 0
    ensures s'.chain.Readable() && s'.chain.height == s.chain.height - 1
  {
    Node(Truncate(s.chain), RevertLedger(s.accounts, s.chain.Tip()))
  }

  function RevertDown(s: Node, target: u64): (s': Node)
    requires s.chain.Readable()
    ensures s'.chain.Readable() && s'.chain.height == Min(s.chain.height, target)
    decreases s.chain.height
  {
    if s.chain.height <= target then s else RevertDown(RevertTip(s), target)
  }

  /** At genesis the difficulty is forced back to its initial value. */
  function ResetAtGenesis(c: Chain): Chain {
    if c.height == 0 then Chain(c.disk.(difficulty := Some(TESTNET_DIFFICULTY)), 0, TESTNET_DIFFICULTY) else c
  }

  predicate MayRevertTo(env: Env, s: Node, target: u64) {
    target >= Anchor(env.checkpoints, s.chain.height)
  }

  function RevertToHeight(env: Env, s: Node, target: u64): (s': Node)
    requires s.chain.Readable()
    ensures s'.chain.Readable()
  {
    if !MayRevertTo(env, s, target) then s
    else
      var r := RevertDown(s, target);
      r.(chain := ResetAtGenesis(r.chain))
  }

  function FreshDisk(env: Env, difficulty: u32): Disk {
    Disk(map[0 := Genesis(env)], Some(0), Some(difficulty), map[])
  }

  /** A new node on the test network. */
  function FreshNode(env: Env): (s: Node)
    ensures s.chain.Readable()
  {
    Node(Chain(FreshDisk(env, TESTNET_DIFFICULTY), 0, TESTNET_DIFFICULTY), GenesisLedger(env))
  }
}
