/** The account ledger as a value: what each ledger operation does to the account map. */
module LedgerModel {
  import opened Primitives
  import opened Types

  datatype Account = Account(balance: u64, sequence: u64, lastTxHash: Bytes)

  type Accounts = map<Bytes, Account>

  datatype TxError =
    | InsufficientBalance(have: u64, need: u64)
    | InvalidSequence(expected: u64, got: u64)

  /** Live validation reads the clock; initial block download skips the clock and the sequence check. */
  datatype Mode = Live(now: u64) | Ibd

  /** The entry for `k`, or the empty account that the node would insert. */
  function Entry(l: Accounts, k: Bytes): Account {
    if k in l then l[k] else Account(0, 0, ZERO_HASH)
  }

  function Bal(l: Accounts, k: Bytes): u64 {
    Entry(l, k).balance
  }

  function Seq(l: Accounts, k: Bytes): u64 {
    Entry(l, k).sequence
  }

  /** The hash of what last changed the account. */
  function Mark(l: Accounts, k: Bytes): Bytes {
    Entry(l, k).lastTxHash
  }

  function GenesisLedger(env: Env): Accounts {
    map[env.premineKey := Account(PREMINE_BALANCE, 0, ZERO_HASH)]
  }

  /** Debit the sender, who continues at `sequence`, then credit the recipient. */
  function Transfer(env: Env, l: Accounts, tx: Transaction, sequence: u64): Accounts
    requires Bal(l, tx.sender) >= tx.TotalCost()
  {
    var s := Entry(l, tx.sender);
    var debited := l[tx.sender := Account(s.balance - tx.TotalCost(), sequence, TxHash(env, tx))];
    var r := Entry(debited, tx.recipient);
    debited[tx.recipient := Account(WrapAdd(r.balance, tx.amount), r.sequence, TxHash(env, tx))]
  }

  function ApplyTxLive(env: Env, l: Accounts, tx: Transaction): Result<Accounts, TxError> {
    if tx.sender !in l then
      Err(InsufficientBalance(0, tx.TotalCost()))
    else if l[tx.sender].balance < tx.TotalCost() then
      Err(InsufficientBalance(l[tx.sender].balance, tx.TotalCost()))
    else if tx.sequence != WrapAdd(l[tx.sender].sequence, 1) then
      Err(InvalidSequence(WrapAdd(l[tx.sender].sequence, 1), tx.sequence))
    else
      Ok(Transfer(env, l, tx, WrapAdd(l[tx.sender].sequence, 1)))
  }

  function ApplyTxIbd(env: Env, l: Accounts, tx: Transaction): Result<Accounts, TxError> {
    if Bal(l, tx.sender) < tx.TotalCost() then
      Err(InsufficientBalance(Bal(l, tx.sender), tx.TotalCost()))
    else
      Ok(Transfer(env, l, tx, tx.sequence))
  }

  function ApplyTx(env: Env, mode: Mode, l: Accounts, tx: Transaction): Result<Accounts, TxError> {
    if mode.Live? then ApplyTxLive(env, l, tx) else ApplyTxIbd(env, l, tx)
  }

  function RevertTx(l: Accounts, tx: Transaction): Accounts {
    var r := Entry(l, tx.recipient);
    var undone := l[tx.recipient := r.(balance := SatSub(r.balance, tx.amount))];
    var s := Entry(undone, tx.sender);
    undone[tx.sender := s.(balance := WrapAdd(s.balance, tx.TotalCost()), sequence := SatSub(s.sequence, 1))]
  }

  function ApplyCoinbase(env: Env, l: Accounts, miner: Bytes, amount: u64): Accounts {
    var a := Entry(l, miner);
    l[miner := Account(WrapAdd(a.balance, amount), a.sequence, CoinbaseHash(env, miner, amount))]
  }

  function RevertCoinbase(l: Accounts, miner: Bytes, amount: u64): Accounts {
    var a := Entry(l, miner);
    l[miner := a.(balance := SatSub(a.balance, amount))]
  }

  /** How many leading transactions of a block were applied, and the ledger they left. */
  datatype TxsOutcome = TxsOutcome(applied: nat, ledger: Accounts)

  function ApplyTxs(env: Env, mode: Mode, l: Accounts, txs: seq<Transaction>): (o: TxsOutcome)
    ensures o.applied <= |txs|
  {
    if txs == [] then TxsOutcome(0, l)
    else
      var o := ApplyTxs(env, mode, l, Init(txs));
      if o.applied < |txs| - 1 then o
      else
        match ApplyTx(env, mode, o.ledger, Last(txs))
        case Ok(l') => TxsOutcome(|txs|, l')
        case Err(_) => o
  }

  /** Undo `txs` from the last to the first. */
  function RevertTxs(l: Accounts, txs: seq<Transaction>): Accounts
    decreases |txs|
  {
    if txs == [] then l else RevertTxs(RevertTx(l, Last(txs)), Init(txs))
  }

  /** Sum of all balances. */
  ghost function Supply(l: Accounts): nat {
    if l == map[] then 0
    else
      var k :| k in l;
      l[k].balance + Supply(l - {k})
  }
}
