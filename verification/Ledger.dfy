/** The ledger object: an account map updated in place. */
module LedgerObject {
  import opened Primitives
  import opened Types
  import opened LedgerModel
  import opened Rebuild

  class Ledger {
    const env: Env
    var accounts: Accounts

    constructor (env: Env)
      ensures this.env == env && accounts == GenesisLedger(env)
    {
      this.env := env;
      accounts := map[env.premineKey := Account(PREMINE_BALANCE, 0, ZERO_HASH)];
    }

    /** Credit an account, inserting it if it is missing, and record the cause. */
    method Credit(key: Bytes, amount: u64, cause: Bytes)
      modifies this
      ensures var a := Entry(old(accounts), key);
        accounts == old(accounts)[key := Account(WrapAdd(a.balance, amount), a.sequence, cause)]
    {
      var a := Entry(accounts, key);
      a := a.(balance := WrapAdd(a.balance, amount));
      a := a.(lastTxHash := cause);
      accounts := accounts[key := a];
    }

    /** `AccountState::spend` on an account that can afford it. */
    method Spend(key: Bytes, amount: u64, cause: Bytes)
      requires Bal(accounts, key) >= amount
      modifies this
      ensures var a := Entry(old(accounts), key);
        accounts == old(accounts)[key := Account(a.balance - amount, WrapAdd(a.sequence, 1), cause)]
    {
      var a := Entry(accounts, key);
      a := a.(balance := a.balance - amount);
      a := a.(sequence := WrapAdd(a.sequence, 1));
      a := a.(lastTxHash := cause);
      accounts := accounts[key := a];
    }

    method ApplyTx(tx: Transaction) returns (error: Option<TxError>)
      modifies this
      ensures match ApplyTxLive(env, old(accounts), tx)
        case Ok(l) => error == None && accounts == l
        case Err(e) => error == Some(e) && accounts == old(accounts)
    {
      var txHash := TxHash(env, tx);
      var totalCost := tx.TotalCost();
      if tx.sender !in accounts {
        return Some(InsufficientBalance(0, totalCost));
      }
      var balance := accounts[tx.sender].balance;
      if balance < totalCost {
        return Some(InsufficientBalance(balance, totalCost));
      }
      var expected := WrapAdd(accounts[tx.sender].sequence, 1);
      if tx.sequence != expected {
        return Some(InvalidSequence(expected, tx.sequence));
      }
      Spend(tx.sender, totalCost, txHash);
      Credit(tx.recipient, tx.amount, txHash);
      return None;
    }

    method ApplyTxIbd(tx: Transaction) returns (error: Option<TxError>)
      modifies this
      ensures match LedgerModel.ApplyTxIbd(env, old(accounts), tx)
        case Ok(l) => error == None && accounts == l
        case Err(e) => error == Some(e) && accounts == old(accounts)
    {
      var txHash := TxHash(env, tx);
      var totalCost := tx.TotalCost();
      var balance := Bal(accounts, tx.sender);
      if balance < totalCost {
        return Some(InsufficientBalance(balance, totalCost));
      }
      Spend(tx.sender, totalCost, txHash);
      accounts := accounts[tx.sender := accounts[tx.sender].(sequence := tx.sequence)];
      Credit(tx.recipient, tx.amount, txHash);
      return None;
    }

    method RevertTx(tx: Transaction)
      modifies this
      ensures accounts == LedgerModel.RevertTx(old(accounts), tx)
    {
      var totalCost := tx.TotalCost();
      var recipient := Entry(accounts, tx.recipient);
      recipient := recipient.(balance := SatSub(recipient.balance, tx.amount));
      accounts := accounts[tx.recipient := recipient];
      var sender := Entry(accounts, tx.sender);
      sender := sender.(balance := WrapAdd(sender.balance, totalCost));
      sender := sender.(sequence := SatSub(sender.sequence, 1));
      accounts := accounts[tx.sender := sender];
    }

    method ApplyCoinbase(key: Bytes, amount: u64)
      modifies this
      ensures accounts == LedgerModel.ApplyCoinbase(env, old(accounts), key, amount)
    {
      Credit(key, amount, CoinbaseHash(env, key, amount));
    }

    method RevertCoinbase(key: Bytes, amount: u64)
      modifies this
      ensures accounts == LedgerModel.RevertCoinbase(old(accounts), key, amount)
    {
      var a := Entry(accounts, key);
      accounts := accounts[key := a.(balance := SatSub(a.balance, amount))];
    }

    /** Replay the rewards of the stored blocks onto the genesis ledger. */
    method RebuildFrom(blocks: seq<Block>)
      requires accounts == GenesisLedger(env) && blocks != []
      modifies this
      ensures accounts == RebuildFromChain(env, blocks)
    {
      for i := 1 to |blocks|
        invariant accounts == RebuildFromChain(env, blocks[..i])
      {
        assert Init(blocks[..i + 1]) == blocks[..i];
        ApplyCoinbase(blocks[i].header.miner, blocks[i].header.reward);
      }
      assert blocks[..|blocks|] == blocks;
    }
  }
}
