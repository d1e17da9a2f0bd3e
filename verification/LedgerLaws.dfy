/** How ledger operations relate to the history they are driven by. */
module LedgerLaws {
  import opened Primitives
  import opened Types
  import opened History
  import opened LedgerModel

  /** Balances and supply are those of the history. */
  ghost predicate Tracks(env: Env, l: Accounts, bs: seq<Block>)
    requires bs != []
  {
    && (forall k :: Bal(l, k) == NetBalance(env, bs, k))
    && Supply(l) == Circulating(bs)
  }

  /** The ledger in the middle of the block after `bs`: reward credited, `txs` applied. */
  ghost predicate TracksInside(env: Env, l: Accounts, bs: seq<Block>, miner: Bytes, txs: seq<Transaction>)
    requires bs != []
  {
    && (forall k :: Bal(l, k) == Available(env, bs, miner, txs, k))
    && Supply(l) == Circulating(bs) + TESTNET_REWARD - Fees(txs)
  }

  /** Sequence numbers count the transactions sent. */
  ghost predicate Counts(l: Accounts, bs: seq<Block>, txs: seq<Transaction>) {
    forall k :: Seq(l, k) == Sent(bs, k) + SentIn(txs, k)
  }

  // ---- Blocks ----

  /** A rejected transaction ends the block: what follows it has no effect. */
  lemma {:induction false} ApplyTxsStops(env: Env, mode: Mode, l: Accounts, txs: seq<Transaction>, n: nat)
    requires n <= |txs| && ApplyTxs(env, mode, l, txs[..n]).applied < n
    ensures ApplyTxs(env, mode, l, txs) == ApplyTxs(env, mode, l, txs[..n])
    decreases |txs|
  {
    if n < |txs| {
      assert Init(txs)[..n] == txs[..n];
      ApplyTxsStops(env, mode, l, Init(txs), n);
    } else {
      assert txs[..n] == txs;
    }
  }

  // ---- Supply ----

  lemma {:induction false} SupplyRemove(l: Accounts, k: Bytes)
    requires k in l
    ensures Supply(l) == l[k].balance + Supply(l - {k})
  {
    var p :| p in l && Supply(l) == l[p].balance + Supply(l - {p});
    if p != k {
      SupplyRemove(l - {p}, k);
      SupplyRemove(l - {k}, p);
      assert l - {p} - {k} == l - {k} - {p};
    }
  }

  lemma SupplyUpdate(l: Accounts, k: Bytes, a: Account)
    ensures Supply(l[k := a]) == Supply(l) - Bal(l, k) + a.balance
  {
    var l' := l[k := a];
    SupplyRemove(l', k);
    assert l' - {k} == l - {k};
    if k in l {
      SupplyRemove(l, k);
    } else {
      assert l - {k} == l;
    }
  }

  lemma BalanceWithinSupply(l: Accounts, k: Bytes)
    ensures Bal(l, k) <= Supply(l)
  {
    if k in l { SupplyRemove(l, k); }
  }

  lemma Drop(l: Accounts, k: Bytes)
    ensures Supply(l - {k}) == Supply(l) - Bal(l, k)
    ensures |l - {k}| == if k in l then |l| - 1 else |l|
  {
    hide Supply;
    if k in l {
      SupplyRemove(l, k);
      assert (l - {k}).Keys == l.Keys - {k};
    } else {
      assert l - {k} == l;
    }
  }

  lemma DropView(l: Accounts, k: Bytes, j: Bytes)
    ensures Bal(l - {k}, j) == if j == k then 0 else Bal(l, j)
  {
  }

  lemma {:induction false} SameBalancesSameSupply(l1: Accounts, l2: Accounts)
    requires forall k :: Bal(l1, k) == Bal(l2, k)
    ensures Supply(l1) == Supply(l2)
    decreases |l1| + |l2|
  {
    if l1 != map[] || l2 != map[] {
      var k :| k in l1 || k in l2;
      hide Supply, Bal;
      Drop(l1, k);
      Drop(l2, k);
      forall j ensures Bal(l1 - {k}, j) == Bal(l2 - {k}, j) {
        DropView(l1, k, j);
        DropView(l2, k, j);
      }
      SameBalancesSameSupply(l1 - {k}, l2 - {k});
    }
  }

  // ---- One transaction ----

  /**
   * Below the u64 limit neither the cost nor the credit of a covered transaction overflows, and only the
   * fee is lost.
   */
  lemma TransferSupply(env: Env, l: Accounts, tx: Transaction, sequence: u64)
    requires Bal(l, tx.sender) >= tx.TotalCost() && Supply(l) < U64_MAX
    ensures tx.TotalCost() == tx.amount + tx.fee
    ensures Supply(Transfer(env, l, tx, sequence)) == Supply(l) - tx.fee
    ensures tx.recipient != tx.sender ==> Bal(l, tx.recipient) + tx.amount < U64_MAX
  {
    hide Supply;
    BalanceWithinSupply(l, tx.sender);
    var s := Entry(l, tx.sender);
    var debit := Account(s.balance - tx.TotalCost(), sequence, TxHash(env, tx));
    var debited := l[tx.sender := debit];
    SupplyUpdate(l, tx.sender, debit);
    BalanceWithinSupply(debited, tx.recipient);
    var r := Entry(debited, tx.recipient);
    SupplyUpdate(debited, tx.recipient, Account(WrapAdd(r.balance, tx.amount), r.sequence, TxHash(env, tx)));
  }

  /**
   * An accepted transaction moves exactly its delta, burns exactly its fee, touches no other sequence and
   * leaves its hash with both parties and nobody else.
   */
  lemma TransferEffect(env: Env, l: Accounts, tx: Transaction, sequence: u64)
    requires Bal(l, tx.sender) >= tx.TotalCost() && Supply(l) < U64_MAX
    ensures tx.TotalCost() == tx.amount + tx.fee
    ensures var l' := Transfer(env, l, tx, sequence);
      && (forall k :: Bal(l', k) == Bal(l, k) + TxDelta(tx, k))
      && (forall k :: Seq(l', k) == if k == tx.sender then sequence else Seq(l, k))
      && (forall k :: Mark(l', k) == if k == tx.sender || k == tx.recipient then TxHash(env, tx) else Mark(l, k))
      && Supply(l') == Supply(l) - tx.fee
  {
    TransferSupply(env, l, tx, sequence);
    BalanceWithinSupply(l, tx.sender);
  }

  /** Undoing a transaction takes its delta back, and saturates nowhere, when the recipient still holds the amount. */
  lemma RevertEffect(l: Accounts, tx: Transaction)
    requires Bal(l, tx.recipient) >= tx.amount && Supply(l) + tx.fee < U64_MAX
    requires tx.amount + tx.fee < U64_MAX
    ensures var l' := RevertTx(l, tx);
      && (forall k :: Bal(l', k) == Bal(l, k) - TxDelta(tx, k))
      && (forall k :: Seq(l', k) == if k == tx.sender then SatSub(Seq(l, k), 1) else Seq(l, k))
      && (forall k :: Mark(l', k) == Mark(l, k))
      && Supply(l') == Supply(l) + tx.fee
  {
    var r := Entry(l, tx.recipient);
    var undo := r.(balance := SatSub(r.balance, tx.amount));
    var undone := l[tx.recipient := undo];
    SupplyUpdate(l, tx.recipient, undo);
    BalanceWithinSupply(undone, tx.sender);
    var s := Entry(undone, tx.sender);
    var back := s.(balance := WrapAdd(s.balance, tx.TotalCost()), sequence := SatSub(s.sequence, 1));
    SupplyUpdate(undone, tx.sender, back);
  }

  lemma CoinbaseEffect(env: Env, l: Accounts, miner: Bytes, amount: u64)
    requires Supply(l) + amount < U64_MAX
    ensures var l' := ApplyCoinbase(env, l, miner, amount);
      && (forall k :: Bal(l', k) == Bal(l, k) + if k == miner then amount else 0)
      && (forall k :: Seq(l', k) == Seq(l, k))
      && (forall k :: Mark(l', k) == if k == miner then CoinbaseHash(env, miner, amount) else Mark(l, k))
      && Supply(l') == Supply(l) + amount
  {
    BalanceWithinSupply(l, miner);
    var a := Entry(l, miner);
    SupplyUpdate(l, miner, Account(WrapAdd(a.balance, amount), a.sequence, CoinbaseHash(env, miner, amount)));
  }

  lemma RevertCoinbaseEffect(l: Accounts, miner: Bytes, amount: u64)
    requires Bal(l, miner) >= amount
    ensures var l' := RevertCoinbase(l, miner, amount);
      && (forall k :: Bal(l', k) == Bal(l, k) - if k == miner then amount else 0)
      && (forall k :: Seq(l', k) == Seq(l, k))
      && (forall k :: Mark(l', k) == Mark(l, k))
      && Supply(l') == Supply(l) - amount
  {
    var a := Entry(l, miner);
    SupplyUpdate(l, miner, a.(balance := SatSub(a.balance, amount)));
  }

  /**
   * Undo after do restores every balance, and the sequence too unless the sender's counter wrapped; the
   * hash of the undone transaction stays with both parties.
   */
  lemma RevertInvertsApply(env: Env, mode: Mode, l: Accounts, tx: Transaction)
    requires Supply(l) < U64_MAX && ApplyTx(env, mode, l, tx).Ok?
    ensures var l' := RevertTx(ApplyTx(env, mode, l, tx).value, tx);
      && (forall k :: Bal(l', k) == Bal(l, k))
      && Supply(l') == Supply(l)
      && ((forall k :: Seq(l', k) == Seq(l, k)) <==> SatSub(tx.sequence, 1) == Seq(l, tx.sender))
      && (forall k :: Mark(l', k) == if k == tx.sender || k == tx.recipient then TxHash(env, tx) else Mark(l, k))
  {
    TransferEffect(env, l, tx, tx.sequence);
    var applied := ApplyTx(env, mode, l, tx).value;
    BalanceWithinSupply(l, tx.sender);
    assert Bal(applied, tx.recipient) >= tx.amount by {
      assert Bal(applied, tx.recipient) == Bal(l, tx.recipient) + TxDelta(tx, tx.recipient);
    }
    RevertEffect(applied, tx);
    assert Seq(RevertTx(applied, tx), tx.sender) == SatSub(tx.sequence, 1);
  }

  /** What makes a transaction fail, and with which error; anything else applies. */
  lemma TxDecides(env: Env, l: Accounts, tx: Transaction)
    requires Supply(l) < U64_MAX
    ensures var cost, have, expected := tx.amount + tx.fee, Bal(l, tx.sender), (Seq(l, tx.sender) + 1) % TWO64;
      && (match ApplyTxLive(env, l, tx)
          case Err(InsufficientBalance(h, need)) =>
            (tx.sender !in l || have < cost) && h == have && need == Min(cost, U64_MAX)
          case Err(InvalidSequence(e, got)) =>
            tx.sender in l && have >= cost && tx.sequence != expected && e == expected && got == tx.sequence
          case Ok(l') =>
            tx.sender in l && have >= cost && tx.sequence == expected && Seq(l', tx.sender) == tx.sequence)
      && (match ApplyTxIbd(env, l, tx)
          case Err(InsufficientBalance(h, need)) => have < cost && h == have && need == Min(cost, U64_MAX)
          case Err(InvalidSequence(_, _)) => false
          case Ok(l') => have >= cost && Seq(l', tx.sender) == tx.sequence)
  {
    hide Supply;
    BalanceWithinSupply(l, tx.sender);
  }

  // ---- Blocks against histories ----

  lemma FeesCirculate(bs: seq<Block>)
    requires bs != [] && |bs| <= MAX_HEIGHT
    ensures Circulating(bs) + TESTNET_REWARD < U64_MAX
  {
  }

  lemma CoinbaseTracks(env: Env, l: Accounts, bs: seq<Block>, miner: Bytes)
    requires bs != [] && |bs| <= MAX_HEIGHT && Tracks(env, l, bs)
    ensures TracksInside(env, ApplyCoinbase(env, l, miner, TESTNET_REWARD), bs, miner, [])
  {
    FeesCirculate(bs);
    CoinbaseEffect(env, l, miner, TESTNET_REWARD);
  }

  lemma TransferTracks(env: Env, l: Accounts, bs: seq<Block>, miner: Bytes, txs: seq<Transaction>,
      tx: Transaction, sequence: u64)
    requires bs != [] && |bs| <= MAX_HEIGHT && TracksInside(env, l, bs, miner, txs)
    requires Bal(l, tx.sender) >= tx.TotalCost()
    ensures TracksInside(env, Transfer(env, l, tx, sequence), bs, miner, txs + [tx])
  {
    hide Transfer, NetBalance, TxDelta, Supply;
    FeesCirculate(bs);
    var txs' := txs + [tx];
    assert Init(txs') == txs && Last(txs') == tx;
    TransferEffect(env, l, tx, sequence);
    var l' := Transfer(env, l, tx, sequence);
    forall k ensures Bal(l', k) == Available(env, bs, miner, txs', k) {
      assert TxsDelta(txs', k) == TxsDelta(txs, k) + TxDelta(tx, k);
    }
  }

  /** Inside a block, having the funds in the ledger and being funded by the history are the same thing. */
  lemma TxTracks(env: Env, l: Accounts, bs: seq<Block>, miner: Bytes, txs: seq<Transaction>, tx: Transaction)
    requires bs != [] && |bs| <= MAX_HEIGHT && TracksInside(env, l, bs, miner, txs)
    ensures Bal(l, tx.sender) >= tx.TotalCost() <==>
      tx.amount + tx.fee <= Available(env, bs, miner, txs, tx.sender)
    ensures Bal(l, tx.sender) >= tx.TotalCost() ==> forall sequence: u64 ::
      TracksInside(env, Transfer(env, l, tx, sequence), bs, miner, txs + [tx])
  {
    hide Available, Supply;
    FeesCirculate(bs);
    BalanceWithinSupply(l, tx.sender);
    if Bal(l, tx.sender) >= tx.TotalCost() {
      forall sequence: u64
        ensures TracksInside(env, Transfer(env, l, tx, sequence), bs, miner, txs + [tx])
      {
        TransferTracks(env, l, bs, miner, txs, tx, sequence);
      }
    }
  }

  /** The outcome of applying `txs`: it stopped exactly where funding stops, with the ledger of the funded part. */
  ghost predicate StopsAtFunding(env: Env, o: TxsOutcome, bs: seq<Block>, miner: Bytes, txs: seq<Transaction>)
    requires bs != []
  {
    && o.applied <= |txs|
    && (o.applied == |txs| <==> FundedTxs(env, bs, miner, txs))
    && FundedTxs(env, bs, miner, txs[..o.applied])
    && TracksInside(env, o.ledger, bs, miner, txs[..o.applied])
  }

  lemma {:induction false} IbdTxsTrack(env: Env, l: Accounts, bs: seq<Block>, miner: Bytes, txs: seq<Transaction>)
    requires bs != [] && |bs| <= MAX_HEIGHT && TracksInside(env, l, bs, miner, [])
    ensures StopsAtFunding(env, ApplyTxs(env, Ibd, l, txs), bs, miner, txs)
  {
    if txs == [] {
      assert txs[..0] == [];
    } else {
      IbdTxsTrack(env, l, bs, miner, Init(txs));
      IbdTxStep(env, ApplyTxs(env, Ibd, l, Init(txs)), bs, miner, Init(txs), Last(txs));
      assert Init(txs) + [Last(txs)] == txs;
    }
  }

  /** Download applies exactly the funded transactions at the head of the block. */
  lemma {:induction false} IbdAppliesFunded(env: Env, l: Accounts, bs: seq<Block>, miner: Bytes, txs: seq<Transaction>)
    requires bs != [] && |bs| <= MAX_HEIGHT && TracksInside(env, l, bs, miner, [])
    ensures ApplyTxs(env, Ibd, l, txs).applied == FundedCount(env, bs, miner, txs)
    decreases |txs|
  {
    hide TracksInside, FundedTxs;
    IbdTxsTrack(env, l, bs, miner, txs);
    if ApplyTxs(env, Ibd, l, txs).applied < |txs| {
      IbdAppliesFunded(env, l, bs, miner, Init(txs));
    }
  }

  lemma IbdTxStep(env: Env, o: TxsOutcome, bs: seq<Block>, miner: Bytes, txs: seq<Transaction>, tx: Transaction)
    requires bs != [] && |bs| <= MAX_HEIGHT && StopsAtFunding(env, o, bs, miner, txs)
    ensures var r := ApplyTxIbd(env, o.ledger, tx);
      var next := if o.applied == |txs| && r.Ok? then TxsOutcome(|txs| + 1, r.value) else o;
      StopsAtFunding(env, next, bs, miner, txs + [tx])
  {
    var txs' := txs + [tx];
    assert Init(txs') == txs;
    if o.applied < |txs| {
      assert txs'[..o.applied] == txs[..o.applied];
    } else {
      assert txs[..|txs|] == txs == txs'[..|txs|] && txs'[..|txs'|] == txs';
      TxTracks(env, o.ledger, bs, miner, txs, tx);
    }
  }

  /** Undoing the transactions of a funded block walks back through the same states. */
  lemma {:induction false} RevertTxsTrack(env: Env, l: Accounts, bs: seq<Block>, miner: Bytes, txs: seq<Transaction>)
    requires bs != [] && |bs| <= MAX_HEIGHT && FundedHistory(env, bs)
    requires FundedTxs(env, bs, miner, txs) && TracksInside(env, l, bs, miner, txs)
    ensures TracksInside(env, RevertTxs(l, txs), bs, miner, [])
    decreases |txs|
  {
    if txs != [] {
      var tx, rest := Last(txs), Init(txs);
      RevertIsSafe(env, l, bs, miner, txs);
      RevertEffect(l, tx);
      RevertTxsTrack(env, RevertTx(l, tx), bs, miner, rest);
    }
  }

  /** The recipient of a block's last transaction still holds what it received, self-transfers included. */
  lemma RevertIsSafe(env: Env, l: Accounts, bs: seq<Block>, miner: Bytes, txs: seq<Transaction>)
    requires bs != [] && |bs| <= MAX_HEIGHT && FundedHistory(env, bs) && txs != []
    requires FundedTxs(env, bs, miner, txs) && TracksInside(env, l, bs, miner, txs)
    ensures Bal(l, Last(txs).recipient) >= Last(txs).amount
    ensures Supply(l) + Last(txs).fee < U64_MAX
    ensures Last(txs).amount + Last(txs).fee < U64_MAX
  {
    var tx, rest := Last(txs), Init(txs);
    FeesCirculate(bs);
    AvailableNonNegative(env, bs, miner, rest, tx.recipient);
    assert Available(env, bs, miner, txs, tx.recipient)
        == Available(env, bs, miner, rest, tx.recipient) + TxDelta(tx, tx.recipient);
    BalanceWithinSupply(l, tx.recipient);
  }

  /** Undoing `tx` neither saturates a balance nor wraps one. */
  ghost predicate UndoesExactly(l: Accounts, tx: Transaction) {
    && Bal(l, tx.recipient) >= tx.amount
    && tx.TotalCost() == tx.amount + tx.fee
    && Bal(l, tx.sender) - (if tx.sender == tx.recipient then tx.amount else 0) + tx.TotalCost() < TWO64
  }

  /** The order of undoing: the first transaction comes last. */
  lemma {:induction false} RevertFirstLast(l: Accounts, txs: seq<Transaction>)
    requires txs != []
    ensures RevertTxs(l, txs) == RevertTx(RevertTxs(l, txs[1..]), txs[0])
    decreases |txs|
  {
    hide RevertTx;
    if |txs| == 1 {
      assert Init(txs) == [] && txs[1..] == [];
      assert RevertTxs(RevertTx(l, txs[0]), []) == RevertTx(l, txs[0]);
    } else {
      RevertFirstLast(RevertTx(l, Last(txs)), Init(txs));
      assert Init(txs)[1..] == Init(txs[1..]) && Last(txs) == Last(txs[1..]);
    }
  }

  /**
   * Half-way through undoing a block, down to its first `n` transactions, the ledger is the one they were
   * applied in.
   */
  lemma {:induction false} UndoneTo(env: Env, l: Accounts, bs: seq<Block>, miner: Bytes, txs: seq<Transaction>, n: nat)
    requires bs != [] && |bs| <= MAX_HEIGHT && FundedHistory(env, bs) && n <= |txs|
    requires FundedTxs(env, bs, miner, txs) && TracksInside(env, l, bs, miner, txs)
    ensures TracksInside(env, RevertTxs(l, txs[n..]), bs, miner, txs[..n])
    ensures n > 0 ==> UndoesExactly(RevertTxs(l, txs[n..]), txs[n - 1])
    decreases |txs| - n
  {
    hide TracksInside, FundedHistory;
    if n == |txs| {
      assert txs[n..] == [] && txs[..n] == txs;
    } else {
      UndoneTo(env, l, bs, miner, txs, n + 1);
      FundedTxsPrefix(env, bs, miner, txs, n + 1);
      assert Init(txs[..n + 1]) == txs[..n] && txs[n..][1..] == txs[n + 1..];
      UndoOne(env, RevertTxs(l, txs[n + 1..]), bs, miner, txs[..n + 1]);
      RevertFirstLast(l, txs[n..]);
    }
    if n > 0 {
      FundedTxsPrefix(env, bs, miner, txs, n);
      UndoOne(env, RevertTxs(l, txs[n..]), bs, miner, txs[..n]);
    }
  }

  lemma {:induction false} FundedTxsPrefix(env: Env, bs: seq<Block>, miner: Bytes, txs: seq<Transaction>, n: nat)
    requires FundedTxs(env, bs, miner, txs) && n <= |txs|
    ensures FundedTxs(env, bs, miner, txs[..n])
    decreases |txs|
  {
    if n < |txs| {
      assert Init(txs)[..n] == txs[..n];
      FundedTxsPrefix(env, bs, miner, Init(txs), n);
    } else {
      assert txs[..n] == txs;
    }
  }

  lemma UndoOne(env: Env, l: Accounts, bs: seq<Block>, miner: Bytes, txs: seq<Transaction>)
    requires bs != [] && |bs| <= MAX_HEIGHT && FundedHistory(env, bs) && txs != []
    requires FundedTxs(env, bs, miner, txs) && TracksInside(env, l, bs, miner, txs)
    ensures UndoesExactly(l, Last(txs))
    ensures TracksInside(env, RevertTx(l, Last(txs)), bs, miner, Init(txs))
  {
    var tx := Last(txs);
    RevertIsSafe(env, l, bs, miner, txs);
    RevertEffect(l, tx);
    BalanceWithinSupply(RevertTx(l, tx), tx.sender);
  }

  // ---- Sequence numbers ----

  lemma TransferSequences(env: Env, l: Accounts, tx: Transaction, sequence: u64)
    requires Bal(l, tx.sender) >= tx.TotalCost()
    ensures forall k :: Seq(Transfer(env, l, tx, sequence), k) == if k == tx.sender then sequence else Seq(l, k)
  {
  }

  /**
   * If all of `txs` were applied on a ledger that counts, the ledger still counts when they are
   * consecutive; live validation accepts only consecutive ones, unless a counter wraps to zero.
   */
  lemma {:induction false} TxsCount(env: Env, mode: Mode, l: Accounts, bs: seq<Block>, txs: seq<Transaction>)
    requires Counts(l, bs, []) && ApplyTxs(env, mode, l, txs).applied == |txs|
    ensures ConsecutiveTxs(bs, txs) ==> Counts(ApplyTxs(env, mode, l, txs).ledger, bs, txs)
    ensures mode.Live? && (forall i :: 0 <= i < |txs| ==> txs[i].sequence != 0) ==> ConsecutiveTxs(bs, txs)
    decreases |txs|
  {
    if txs != [] {
      var rest, tx := Init(txs), Last(txs);
      TxsCount(env, mode, l, bs, rest);
      var mid := ApplyTxs(env, mode, l, rest).ledger;
      assert Bal(mid, tx.sender) >= tx.TotalCost();
      TransferSequences(env, mid, tx, tx.sequence);
      assert ApplyTxs(env, mode, l, txs).ledger == Transfer(env, mid, tx, tx.sequence);
      assert mode.Live? ==> tx.sequence == WrapAdd(Seq(mid, tx.sender), 1);
      assert Last(txs) == txs[|txs| - 1];
    }
  }

  /** Undoing a block's transactions takes every count back exactly: no counter is at zero when it is decremented. */
  lemma {:induction false} RevertTxsCount(l: Accounts, bs: seq<Block>, txs: seq<Transaction>)
    requires Counts(l, bs, txs)
    ensures Counts(RevertTxs(l, txs), bs, [])
    decreases |txs|
  {
    if txs != [] {
      var rest, tx := Init(txs), Last(txs);
      var l' := RevertTx(l, tx);
      forall k ensures Seq(l', k) == Sent(bs, k) + SentIn(rest, k) {
        assert Seq(l, k) == Sent(bs, k) + SentIn(txs, k);
      }
      RevertTxsCount(l', bs, rest);
    }
  }

  // ---- When a counter saturates ----

  lemma {:induction false} SentInSplit(xs: seq<Transaction>, ys: seq<Transaction>, k: Bytes)
    ensures SentIn(xs + ys, k) == SentIn(xs, k) + SentIn(ys, k)
    decreases |ys|
  {
    if ys == [] {
      assert xs + ys == xs;
    } else {
      SentInSplit(xs, Init(ys), k);
      assert Init(xs + ys) == xs + Init(ys);
    }
  }

  /** Undoing takes a counter down by one per transaction, and stops at zero. */
  lemma {:induction false} UndoneCounter(l: Accounts, txs: seq<Transaction>, k: Bytes)
    ensures Seq(RevertTxs(l, txs), k) == Max(Seq(l, k) - SentIn(txs, k), 0)
    decreases |txs|
  {
    if txs != [] {
      UndoneCounter(RevertTx(l, Last(txs)), Init(txs), k);
    }
  }

  lemma {:induction false} FirstSent(txs: seq<Transaction>, k: Bytes) returns (n: nat)
    requires SentIn(txs, k) > 0
    ensures 0 < n <= |txs| && txs[n - 1].sender == k && SentIn(txs[n..], k) == SentIn(txs, k) - 1
    decreases |txs|
  {
    SentInSplit([txs[0]], txs[1..], k);
    assert [txs[0]] + txs[1..] == txs && Init([txs[0]]) == [];
    if txs[0].sender == k {
      n := 1;
      assert SentIn([txs[0]], k) == 1;
    } else {
      assert SentIn([txs[0]], k) == 0;
      n := FirstSent(txs[1..], k);
      assert txs[1..][n..] == txs[n + 1..];
      n := n + 1;
    }
  }

  /**
   * No decrement of the undo meets a counter at zero exactly if every sender's counter is at least what it
   * sent in the block.
   */
  lemma CountersSurviveUndo(l: Accounts, txs: seq<Transaction>)
    ensures (forall n :: 0 < n <= |txs| ==> Seq(RevertTxs(l, txs[n..]), txs[n - 1].sender) > 0) <==>
      (forall k :: SentIn(txs, k) <= Seq(l, k))
  {
    hide Seq, RevertTxs;
    if forall k :: SentIn(txs, k) <= Seq(l, k) {
      forall n | 0 < n <= |txs| ensures Seq(RevertTxs(l, txs[n..]), txs[n - 1].sender) > 0 {
        var k := txs[n - 1].sender;
        UndoneCounter(l, txs[n..], k);
        SentInSplit(txs[..n], txs[n..], k);
        assert txs[..n] + txs[n..] == txs && Last(txs[..n]) == txs[n - 1];
        assert SentIn(txs, k) <= Seq(l, k);
      }
    } else {
      var k :| SentIn(txs, k) > Seq(l, k);
      var n := FirstSent(txs, k);
      UndoneCounter(l, txs[n..], k);
      assert Seq(RevertTxs(l, txs[n..]), txs[n - 1].sender) == 0;
    }
  }
}
