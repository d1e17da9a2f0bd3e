/** Transactions, blocks, network constants, and the primitives of the node that stay uninterpreted. */
module Types {
  import opened Primitives

  const TESTNET_DIFFICULTY: u32 := 14
  const TESTNET_REWARD: u64 := 15_850_000
  const PREMINE_BALANCE: u64 := 20_000_000_000_000
  const BLOCK_TIMESTAMP_TOLERANCE_MS: u64 := 120_000
  const DAA_WINDOW: u64 := 10
  const TARGET_BLOCK_MS: u64 := 30_000
  const POSC_STEPS: u32 := 2_000
  const GENESIS_TIMESTAMP: u64 := 1_772_975_700_000

  /** The greatest height at which premine plus all rewards is still below 2^64 - 1. */
  const MAX_HEIGHT: int := (U64_MAX - 1 - PREMINE_BALANCE) / TESTNET_REWARD

  datatype Transaction = Transaction(
    version: byte,
    sender: Bytes,
    recipient: Bytes,
    amount: u64,
    fee: u64,
    sequence: u64,
    timestampMs: u64,
    prevTxHash: Bytes,
    data: Bytes,
    poscProof: Bytes,
    poscSteps: u32,
    signature: Bytes)
  {
    /** What the sender is debited. */
    function TotalCost(): u64 {
      SatAdd(amount, fee)
    }
  }

  /** The fields that `hash_header` covers: everything in a block except its hash and its transactions. */
  datatype Header = Header(index: u64, prevHash: Bytes, timestamp: u64, miner: Bytes, nonce: u64, reward: u64)

  datatype Block = Block(header: Header, hash: Bytes, transactions: seq<Transaction>)

  /**
   * The world the node runs in: hashes and signatures as arbitrary functions, the sentinel hash of
   * the genesis block, the premine key, and the checkpoint table as (height, hash) pairs.
   */
  datatype Env = Env(
    hashHeader: Header -> Bytes,
    sigOk: Transaction -> bool,
    txHash: Transaction -> Bytes,
    coinbaseHash: (Bytes, u64) -> Bytes,
    genesisHash: Bytes,
    premineKey: Bytes,
    checkpoints: seq<(u64, Bytes)>)

  function HeaderHash(env: Env, h: Header): Bytes {
    env.hashHeader(h)
  }

  predicate SigOk(env: Env, tx: Transaction) {
    env.sigOk(tx)
  }

  function TxHash(env: Env, tx: Transaction): Bytes {
    env.txHash(tx)
  }

  function CoinbaseHash(env: Env, key: Bytes, amount: u64): Bytes {
    env.coinbaseHash(key, amount)
  }

  function Genesis(env: Env): Block {
    Block(Header(0, ZERO_HASH, GENESIS_TIMESTAMP, ZERO_HASH, 0, 0), env.genesisHash, [])
  }
}
