/** The test network's own hash and signature functions, as one instance of the world the chain is proved over. */
module Network {
  import opened Primitives
  import opened Types
  import opened Encoding
  import opened Sequal
  import opened History
  import opened LedgerModel
  import opened ChainModel
  import opened Runs

  const PREMINE_PUBKEY: Bytes := [
    0x0c, 0x27, 0x5d, 0xcf, 0xdd, 0x97, 0x76, 0xdc, 0xb8, 0x47, 0x58, 0x4a, 0xfe, 0x31, 0x7e, 0x1e,
    0x68, 0x58, 0xf7, 0x64, 0xd4, 0xed, 0xeb, 0xfa, 0x4a, 0x1b, 0x8c, 0xb8, 0xdd, 0xea, 0xf8, 0xe8]

  function Ascii(s: string): Bytes {
    seq(|s|, i requires 0 <= i < |s| => s[i] as int % 256)
  }

  /** SHA3-256 and Ed25519 verification stay parameters, as does the checkpoint table. */
  function TestnetEnv(sha3: Bytes -> Digest, verify: (Bytes, Bytes, Bytes) -> bool, checkpoints: seq<(u64,
      Bytes)>): Env {
    Env(
      (h: Header) => Hash256(sha3, HeaderBytes(h), MINING_STEPS, MINING_SCRATCHPAD_U64S),
      (tx: Transaction) => verify(tx.sender, SigningBytes(tx), tx.signature),
      (tx: Transaction) => sha3(HashBytes(tx)),
      (key: Bytes, amount: u64) => sha3(key + LittleEndian(amount, 8) + Ascii("coinbase")),
      sha3(Ascii("TARON_GENESIS_V2_2026_PREMINE")),
      PREMINE_PUBKEY,
      checkpoints)
  }

  /** What a mining thread computes for a header, in its reused scratchpad, is the hash the chain checks. */
  method HashHeader(thread: MiningThread, sha3: Bytes -> Digest, verify: (Bytes, Bytes, Bytes) -> bool,
      checkpoints: seq<(u64, Bytes)>, h: Header) returns (hash: Bytes)
    requires thread.scratchpad.Length == MINING_SCRATCHPAD_U64S
    modifies thread.scratchpad
    ensures hash == HeaderHash(TestnetEnv(sha3, verify, checkpoints), h) == Hash256(sha3, HeaderBytes(h), 1_000, 32_768)
  {
    hide Hash256, Ascii, HeaderBytes;
    var data := HashInput(h);
    hash := thread.HashFast(sha3, data, MINING_STEPS);
  }

  /** `Transaction::hash`. */
  method HashTransaction(sha3: Bytes -> Digest, verify: (Bytes, Bytes, Bytes) -> bool,
      checkpoints: seq<(u64, Bytes)>, tx: Transaction) returns (hash: Bytes)
    ensures hash == TxHash(TestnetEnv(sha3, verify, checkpoints), tx) == sha3(HashBytes(tx))
  {
    hide Ascii, HashBytes;
    var bytes := ToBytesForHash(tx);
    hash := sha3(bytes);
  }

  /** `Transaction::verify_signature`: the sender's key over the signing bytes. */
  method VerifySignature(sha3: Bytes -> Digest, verify: (Bytes, Bytes, Bytes) -> bool,
      checkpoints: seq<(u64, Bytes)>, tx: Transaction) returns (ok: bool)
    ensures ok == SigOk(TestnetEnv(sha3, verify, checkpoints), tx)
  {
    hide Ascii, SigningBytes;
    var bytes := ToBytesForSigning(tx);
    ok := verify(tx.sender, bytes, tx.signature);
  }

  // ---- Signatures, over every run ----

  /**
   * Nothing verifies under a key but signatures over the transactions that its owner signed: `signed`
   * gives those, whatever signatures they carry.
   */
  ghost predicate Unforgeable(verify: (Bytes, Bytes, Bytes) -> bool, signed: Bytes -> iset<Transaction>) {
    forall key, bytes, signature :: verify(key, bytes, signature) ==>
      exists t :: t in signed(key) && SizedTx(t) && bytes == SigningBytes(t)
  }

  /** A transaction with a good signature is one that its sender signed, unchanged in every other field. */
  lemma SignedBySender(sha3: Bytes -> Digest, verify: (Bytes, Bytes, Bytes) -> bool,
      checkpoints: seq<(u64, Bytes)>, signed: Bytes -> iset<Transaction>, tx: Transaction)
    requires Unforgeable(verify, signed) && SizedTx(tx) && SigOk(TestnetEnv(sha3, verify, checkpoints), tx)
    ensures exists t :: t in signed(tx.sender) && tx == t.(signature := tx.signature)
  {
    hide Ascii, SigningBytes;
    assert verify(tx.sender, SigningBytes(tx), tx.signature);
    var t :| t in signed(tx.sender) && SizedTx(t) && SigningBytes(tx) == SigningBytes(t);
    TxBytesInjective(tx, t);
  }

  /** Whatever run brought it there, every stored transaction was signed by its sender as it stands. */
  lemma StoredTxsWereSigned(sha3: Bytes -> Digest, verify: (Bytes, Bytes, Bytes) -> bool,
      checkpoints: seq<(u64, Bytes)>, signed: Bytes -> iset<Transaction>, steps: seq<Step>, i: u64, n: nat)
    requires Unforgeable(verify, signed)
    requires var env := TestnetEnv(sha3, verify, checkpoints); Below(env, FreshNode(env), steps, U64_MAX)
    requires var env := TestnetEnv(sha3, verify, checkpoints);
      var c := Run(env, FreshNode(env), steps).chain;
      && i <= c.height && n < |c.Stored()[i].transactions| && SizedTx(c.Stored()[i].transactions[n])
    ensures var env := TestnetEnv(sha3, verify, checkpoints);
      var tx := Run(env, FreshNode(env), steps).chain.Stored()[i].transactions[n];
      exists t :: t in signed(tx.sender) && tx == t.(signature := tx.signature)
  {
    hide TestnetEnv;
    var env := TestnetEnv(sha3, verify, checkpoints);
    RunStaysConsistent(env, steps);
    var c := Run(env, FreshNode(env), steps).chain;
    StoredBlocksSound(env, c, i);
    SignedBySender(sha3, verify, checkpoints, signed, c.Stored()[i].transactions[n]);
  }

  /**
   * Nobody spends without a signature: after any run without late rejections, an account under whose key
   * nothing verifies holds at least what any shorter part of the stored chain gave it.
   */
  lemma OnlyOwnersSpend(sha3: Bytes -> Digest, verify: (Bytes, Bytes, Bytes) -> bool,
      checkpoints: seq<(u64, Bytes)>, steps: seq<Step>, k: Bytes, n: nat)
    requires forall bytes, signature :: !verify(k, bytes, signature)
    requires var env := TestnetEnv(sha3, verify, checkpoints);
      Below(env, FreshNode(env), steps, MAX_HEIGHT) && NoLateRejection(env, FreshNode(env), steps)
    requires var env := TestnetEnv(sha3, verify, checkpoints);
      1 <= n <= |Run(env, FreshNode(env), steps).chain.Stored()|
    ensures var env := TestnetEnv(sha3, verify, checkpoints);
      var s := Run(env, FreshNode(env), steps);
      NetBalance(env, s.chain.Stored()[..n], k) <= Bal(s.accounts, k)
  {
    hide TestnetEnv, Run, Below, NoLateRejection, LinkedHistory, FundedHistory, Diff, NetBalance;
    var env := TestnetEnv(sha3, verify, checkpoints);
    var s := Run(env, FreshNode(env), steps);
    var bs := s.chain.Stored();
    RunStaysSynced(env, steps);
    forall i, j | n <= i < |bs| && 0 <= j < |bs[i].transactions| ensures bs[i].transactions[j].sender != k {
      StoredBlocksSound(env, s.chain, i);
      SenderVerifies(sha3, verify, checkpoints, bs[i].transactions[j]);
    }
    NothingSpent(env, bs, n, k);
  }

  lemma SenderVerifies(sha3: Bytes -> Digest, verify: (Bytes, Bytes, Bytes) -> bool,
      checkpoints: seq<(u64, Bytes)>, tx: Transaction)
    requires SigOk(TestnetEnv(sha3, verify, checkpoints), tx)
    ensures verify(tx.sender, SigningBytes(tx), tx.signature)
  {
  }

  // ---- Collisions ----

  /**
   * Two different headers can share a header hash only if SEQUAL-256 itself collides on two
   * different 96-byte inputs; two different transactions only if SHA3-256 does.
   */
  lemma HashesSeparateUnlessColliding(sha3: Bytes -> Digest, verify: (Bytes, Bytes, Bytes) -> bool,
      checkpoints: seq<(u64, Bytes)>, h1: Header, h2: Header, t1: Transaction, t2: Transaction)
    requires SizedHeader(h1) && SizedHeader(h2) && SizedTx(t1) && SizedTx(t2)
    ensures var env := TestnetEnv(sha3, verify, checkpoints);
      && (h1 != h2 && HeaderHash(env, h1) == HeaderHash(env, h2) ==>
            && HeaderBytes(h1) != HeaderBytes(h2) && |HeaderBytes(h1)| == |HeaderBytes(h2)| == 96
            && Hash256(sha3, HeaderBytes(h1), MINING_STEPS, MINING_SCRATCHPAD_U64S)
            == Hash256(sha3, HeaderBytes(h2), MINING_STEPS, MINING_SCRATCHPAD_U64S))
      && (t1 != t2 && TxHash(env, t1) == TxHash(env, t2) ==>
            HashBytes(t1) != HashBytes(t2) && sha3(HashBytes(t1)) == sha3(HashBytes(t2)))
  {
    hide Hash256, Ascii, HeaderBytes, HashBytes, SigningBytes;
    HeaderRoundTrip(h1);
    HeaderRoundTrip(h2);
    if HeaderBytes(h1) == HeaderBytes(h2) { HeaderBytesInjective(h1, h2); }
    TxBytesInjective(t1, t2);
  }
}
