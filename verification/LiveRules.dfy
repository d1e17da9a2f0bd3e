/** Which blocks strict apply accepts, and which it rejects too late, decided from ledger and block alone. */
module LiveRules {
  import opened Primitives
  import opened Types
  import opened Difficulty
  import opened History
  import opened LedgerModel
  import opened LedgerLaws
  import opened ChainModel
  import opened ChainLaws

  /** The timestamp lies within two minutes of the clock. */
  predicate OnTime(now: u64, b: Block) {
    now - 120_000 <= b.header.timestamp <= now + 120_000
  }

  /** `k` has an account entry, possibly an empty one, after the reward and `txs`. */
  predicate HasEntry(l: Accounts, miner: Bytes, txs: seq<Transaction>, k: Bytes) {
    if txs == [] then k in l || k == miner
    else HasEntry(l, miner, Init(txs), k) || Last(txs).recipient == k
  }

  /**
   * What strict apply asks of transactions beyond their funds: each counts on from its sender's
   * sequence in the ledger `l` before the block, modulo 2^64, and the sender of a free one has an entry.
   */
  predicate InOrder(l: Accounts, miner: Bytes, txs: seq<Transaction>) {
    txs == [] ||
    (&& InOrder(l, miner, Init(txs))
     && Last(txs).sequence == (Seq(l, Last(txs).sender) + SentIn(txs, Last(txs).sender)) % TWO64
     && (Last(txs).amount + Last(txs).fee > 0 || HasEntry(l, miner, Init(txs), Last(txs).sender)))
  }

  /** Each transaction is covered by what its sender holds in `l`, after the reward and those before it. */
  predicate Covered(l: Accounts, miner: Bytes, txs: seq<Transaction>) {
    txs == [] ||
    (&& Covered(l, miner, Init(txs))
     && Last(txs).amount + Last(txs).fee <=
          Bal(l, Last(txs).sender) + Mint(miner, Last(txs).sender) + TxsDelta(Init(txs), Last(txs).sender))
  }

  /** All the rules for the transactions of a live block on the ledger `l`. */
  predicate LiveTxsOk(l: Accounts, miner: Bytes, txs: seq<Transaction>) {
    Covered(l, miner, txs) && InOrder(l, miner, txs)
  }

  /** The ledger that the reward and `txs` make of `l`. */
  ghost predicate LiveInside(now: Accounts, l: Accounts, miner: Bytes, txs: seq<Transaction>) {
    && (forall k :: Bal(now, k) == Bal(l, k) + Mint(miner, k) + TxsDelta(txs, k))
    && Supply(now) == Supply(l) + TESTNET_REWARD - Fees(txs)
    && (forall k :: Seq(now, k) == (Seq(l, k) + SentIn(txs, k)) % TWO64)
    && (forall k :: k in now <==> HasEntry(l, miner, txs, k))
  }

  /** Strict apply stopped exactly where the rules end. */
  ghost predicate StopsAtRules(o: TxsOutcome, l: Accounts, miner: Bytes, txs: seq<Transaction>) {
    && o.applied <= |txs|
    && (o.applied == |txs| <==> LiveTxsOk(l, miner, txs))
    && LiveTxsOk(l, miner, txs[..o.applied])
    && (o.applied < |txs| ==> !LiveTxsOk(l, miner, txs[..o.applied + 1]))
    && LiveInside(o.ledger, l, miner, txs[..o.applied])
  }

  /** One more transaction is accepted exactly if it keeps the rules. */
  lemma LiveTxAllowed(env: Env, now: Accounts, l: Accounts, miner: Bytes, txs: seq<Transaction>, tx: Transaction)
    requires Supply(l) + TESTNET_REWARD < U64_MAX && LiveTxsOk(l, miner, txs) && LiveInside(now, l, miner, txs)
    ensures ApplyTxLive(env, now, tx).Ok? <==> LiveTxsOk(l, miner, txs + [tx])
  {
    hide Supply, Seq, Bal, ApplyTxLive, WrapAdd;
    var txs' := txs + [tx];
    assert Init(txs') == txs && Last(txs') == tx;
    BalanceWithinSupply(now, tx.sender);
    assert HasEntry(l, miner, txs, tx.sender) <==> tx.sender in now;
    SequenceSteps(Seq(l, tx.sender) + SentIn(txs, tx.sender));
    LiveOkMeans(env, now, tx);
  }

  lemma LiveOkMeans(env: Env, l: Accounts, tx: Transaction)
    ensures ApplyTxLive(env, l, tx).Ok? <==>
      tx.sender in l && Bal(l, tx.sender) >= tx.TotalCost() && tx.sequence == WrapAdd(Seq(l, tx.sender), 1)
    ensures tx.sender !in l && Bal(l, tx.sender) >= tx.TotalCost() ==> tx.amount + tx.fee == 0
  {
  }

  lemma LiveTxEffect(env: Env, now: Accounts, l: Accounts, miner: Bytes, txs: seq<Transaction>, tx: Transaction)
    requires Supply(l) + TESTNET_REWARD < U64_MAX && LiveInside(now, l, miner, txs)
    requires ApplyTxLive(env, now, tx).Ok?
    ensures LiveInside(ApplyTxLive(env, now, tx).value, l, miner, txs + [tx])
  {
    hide Supply, Transfer, Seq, Bal, TxDelta;
    var txs' := txs + [tx];
    assert Init(txs') == txs && Last(txs') == tx;
    SequenceChecked(env, now, tx);
    TransferEffect(env, now, tx, tx.sequence);
    TransferEntries(env, now, tx, tx.sequence);
    SequenceSteps(Seq(l, tx.sender) + SentIn(txs, tx.sender));
    assert HasEntry(l, miner, txs, tx.sender);
  }

  lemma SequenceChecked(env: Env, l: Accounts, tx: Transaction)
    requires ApplyTxLive(env, l, tx).Ok?
    ensures tx.sender in l && Bal(l, tx.sender) >= tx.TotalCost() && tx.sequence == WrapAdd(Seq(l, tx.sender), 1)
    ensures ApplyTxLive(env, l, tx).value == Transfer(env, l, tx, tx.sequence)
  {
  }

  lemma SequenceSteps(n: nat)
    ensures WrapAdd(n % TWO64, 1) == (n + 1) % TWO64
  {
  }

  lemma TransferEntries(env: Env, l: Accounts, tx: Transaction, sequence: u64)
    requires Bal(l, tx.sender) >= tx.TotalCost()
    ensures forall k :: k in Transfer(env, l, tx, sequence) <==> k in l || k == tx.sender || k == tx.recipient
  {
  }

  lemma {:induction false} LiveTxsTrack(env: Env, time: u64, start: Accounts, l: Accounts, miner: Bytes,
      txs: seq<Transaction>)
    requires Supply(l) + TESTNET_REWARD < U64_MAX && LiveInside(start, l, miner, [])
    ensures StopsAtRules(ApplyTxs(env, Live(time), start, txs), l, miner, txs)
    decreases |txs|
  {
    hide LiveInside, LiveTxsOk, Supply;
    if txs == [] {
      assert txs[..0] == [];
      NothingToBreak(l, miner);
    } else {
      var rest, tx := Init(txs), Last(txs);
      LiveTxsTrack(env, time, start, l, miner, rest);
      var o := ApplyTxs(env, Live(time), start, rest);
      assert rest + [tx] == txs && txs[..|txs|] == txs && rest[..|rest|] == rest && txs[..|rest|] == rest;
      if o.applied < |rest| {
        assert txs[..o.applied] == rest[..o.applied] && txs[..o.applied + 1] == rest[..o.applied + 1];
        RulesArePrefixClosed(l, miner, rest, tx);
      } else {
        LiveTxAllowed(env, o.ledger, l, miner, rest, tx);
        if ApplyTxLive(env, o.ledger, tx).Ok? { LiveTxEffect(env, o.ledger, l, miner, rest, tx); }
      }
    }
  }

  lemma NothingToBreak(l: Accounts, miner: Bytes)
    ensures LiveTxsOk(l, miner, [])
  {
  }

  lemma RulesArePrefixClosed(l: Accounts, miner: Bytes, txs: seq<Transaction>, tx: Transaction)
    ensures LiveTxsOk(l, miner, txs + [tx]) ==> LiveTxsOk(l, miner, txs)
  {
    assert Init(txs + [tx]) == txs;
  }

  lemma CoinbaseStartsLive(env: Env, l: Accounts, miner: Bytes)
    requires Supply(l) + TESTNET_REWARD < U64_MAX
    ensures LiveInside(ApplyCoinbase(env, l, miner, TESTNET_REWARD), l, miner, [])
  {
    hide Supply;
    CoinbaseEffect(env, l, miner, TESTNET_REWARD);
  }

  lemma LivePrecheck(env: Env, now: u64, c: Chain, b: Block)
    requires Sound(env, c) && c.height < U64_MAX
    ensures Precheck(env, Live(now), c, b) <==> HeaderOk(env, c.Stored(), b) && OnTime(now, b)
  {
    assert Last(c.Stored()) == c.Tip();
  }

  /**
   * What is asked of a block before the ledger is touched, rule by rule; the download asks for the same
   * without the clock.
   */
  lemma BlockRules(env: Env, now: u64, c: Chain, b: Block)
    requires Sound(env, c) && c.height < U64_MAX
    ensures var bs := c.Stored();
      var follows :=
        && b.header.index == |bs| && b.header.prevHash == bs[|bs| - 1].hash && b.header.reward == 15_850_000
        && b.hash == HeaderHash(env, b.header) && MeetsDifficulty(b.hash, Diff(bs))
        && (forall tx :: tx in b.transactions ==> SigOk(env, tx))
        && (forall i :: Lists(env.checkpoints, i, |bs|) ==> b.hash == env.checkpoints[i].1);
      && (Precheck(env, Ibd, c, b) <==> follows)
      && (Precheck(env, Live(now), c, b) <==> follows && OnTime(now, b))
  {
    hide MeetsDifficulty, Diff, LinkedHistory, CheckpointHash;
    assert Last(c.Stored()) == c.Tip();
    CheckpointListed(env.checkpoints, b.header.index);
  }

  /** Entry `i` is the first of the table for `height`. */
  predicate Lists(table: seq<(u64, Bytes)>, i: int, height: int) {
    0 <= i < |table| && table[i].0 == height && forall j :: 0 <= j < i ==> table[j].0 != height
  }

  lemma {:induction false} CheckpointListed(table: seq<(u64, Bytes)>, height: u64)
    ensures forall i :: Lists(table, i, height) ==> CheckpointHash(table, height) == Some(table[i].1)
    ensures CheckpointHash(table, height).Some? ==> exists i :: Lists(table, i, height)
  {
    forall i | Lists(table, i, height) ensures CheckpointHash(table, height) == Some(table[i].1) {
      CheckpointHashIsFirst(table, i);
    }
    if CheckpointHash(table, height).Some? {
      if table[0].0 == height {
        assert Lists(table, 0, height);
      } else {
        CheckpointListed(table[1..], height);
        var i :| Lists(table[1..], i, height);
        assert Lists(table, i + 1, height) by {
          assert forall j :: 0 < j <= i + 1 ==> table[j] == table[1..][j - 1];
        }
      }
    }
  }

  /**
   * Strict apply on any ledger, even one that its own blocks do not explain, decided beforehand for
   * every block: it is accepted exactly if its header follows, it is on time and its transactions are
   * covered and in order. With a right header and clock it is otherwise rejected late, at the first
   * transaction that breaks a rule, with the reward and those before it in the ledger.
   */
  lemma LiveDecides(env: Env, now: u64, s: Node, b: Block)
    requires Sound(env, s.chain) && s.chain.height < U64_MAX && Supply(s.accounts) + TESTNET_REWARD < U64_MAX
    ensures var bs, l, miner, txs := s.chain.Stored(), s.accounts, b.header.miner, b.transactions;
      && (Accepts(env, Live(now), s, b) <==> HeaderOk(env, bs, b) && OnTime(now, b) && LiveTxsOk(l, miner, txs))
      && (RejectsLate(env, Live(now), s, b) <==> HeaderOk(env, bs, b) && OnTime(now, b) && !LiveTxsOk(l, miner, txs))
      && (HeaderOk(env, bs, b) && OnTime(now, b) ==>
            && StopsAtRules(ApplyLedger(env, Live(now), l, b), l, miner, txs)
            && Apply(env, Live(now), s, b).accounts == ApplyLedger(env, Live(now), l, b).ledger)
  {
    hide LiveTxsOk, LinkedHistory, ApplyTxs, LiveInside, Diff, Supply;
    LivePrecheck(env, now, s.chain, b);
    if HeaderOk(env, s.chain.Stored(), b) {
      CoinbaseStartsLive(env, s.accounts, b.header.miner);
      LiveTxsTrack(env, now, ApplyCoinbase(env, s.accounts, b.header.miner, TESTNET_REWARD), s.accounts, b.header.miner,
        b.transactions);
    }
  }

  /** On the ledger of its own history, being covered is being funded by that history. */
  lemma {:induction false} CoveredIsFunded(env: Env, l: Accounts, bs: seq<Block>, miner: Bytes, txs: seq<Transaction>)
    requires forall k :: Bal(l, k) == NetBalance(env, bs, k)
    ensures Covered(l, miner, txs) <==> FundedTxs(env, bs, miner, txs)
    decreases |txs|
  {
    hide NetBalance, Bal;
    if txs != [] { CoveredIsFunded(env, l, bs, miner, Init(txs)); }
  }

  /**
   * Strict apply on a synced node: a block is accepted exactly if it is a valid continuation of the
   * history, on time, with its transactions in order, and rejected late exactly if its header and the
   * clock are right but its transactions are not.
   */
  lemma LiveAcceptsExactly(env: Env, now: u64, s: Node, b: Block)
    requires Synced(env, s) && s.chain.height < MAX_HEIGHT
    ensures var bs, miner, txs := s.chain.Stored(), b.header.miner, b.transactions;
      var ok := FundedTxs(env, bs, miner, txs) && InOrder(s.accounts, miner, txs);
      && (Accepts(env, Live(now), s, b) <==> ValidNext(env, bs, b) && OnTime(now, b) && InOrder(s.accounts, miner, txs))
      && (RejectsLate(env, Live(now), s, b) <==> HeaderOk(env, bs, b) && OnTime(now, b) && !ok)
      && (RejectsLate(env, Live(now), s, b) ==>
            StopsAtRules(ApplyLedger(env, Live(now), s.accounts, b), s.accounts, miner, txs))
  {
    hide InOrder, Covered, FundedTxs, FundedHistory, Snapshots, HeaderOk, LinkedHistory, Diff, Supply, StopsAtRules,
      Accepts, RejectsLate;
    FeesCirculate(s.chain.Stored());
    LiveDecides(env, now, s, b);
    CoveredIsFunded(env, s.accounts, s.chain.Stored(), b.header.miner, b.transactions);
  }

  /**
   * While the ledger's sequences count the stored transactions, ordinary transactions, which cost
   * something and stay clear of wrap-around, are in order exactly if they are consecutive.
   */
  lemma {:induction false} OrdinaryTxsInOrder(l: Accounts, bs: seq<Block>, miner: Bytes, txs: seq<Transaction>)
    requires Counts(l, bs, [])
    requires forall i :: 0 <= i < |txs| ==> txs[i].sequence != 0 && txs[i].amount + txs[i].fee > 0
    ensures InOrder(l, miner, txs) <==> ConsecutiveTxs(bs, txs)
    ensures InOrder(l, miner, txs) ==> forall k :: Sent(bs, k) + SentIn(txs, k) < TWO64
    decreases |txs|
  {
    hide Sent, Seq;
    if txs == [] {
      forall k ensures Sent(bs, k) + SentIn(txs, k) < TWO64 {
        CountIs(l, bs, k);
      }
    } else {
      OrdinaryTxsInOrder(l, bs, miner, Init(txs));
      CountIs(l, bs, Last(txs).sender);
      assert Last(txs) == txs[|txs| - 1];
      if InOrder(l, miner, txs) {
        forall k ensures Sent(bs, k) + SentIn(txs, k) < TWO64 {
          assert Sent(bs, k) + SentIn(Init(txs), k) < TWO64;
        }
      }
    }
  }

  lemma CountIs(l: Accounts, bs: seq<Block>, k: Bytes)
    requires Counts(l, bs, [])
    ensures Seq(l, k) == Sent(bs, k)
  {
    assert Seq(l, k) == Sent(bs, k) + SentIn([], k);
  }

  /**
   * For a node that kept its counts and a block of ordinary transactions, the rules are those of a
   * consecutive history.
   */
  lemma LiveAcceptsOrdinary(env: Env, now: u64, s: Node, b: Block)
    requires SyncedWithCounts(env, s) && s.chain.height < MAX_HEIGHT
    requires forall i :: 0 <= i < |b.transactions| ==>
      b.transactions[i].sequence != 0 && b.transactions[i].amount + b.transactions[i].fee > 0
    ensures Accepts(env, Live(now), s, b) <==>
      && ValidNext(env, s.chain.Stored(), b) && OnTime(now, b)
      && ConsecutiveTxs(s.chain.Stored(), b.transactions)
  {
    hide InOrder, Synced, ConsecutiveTxs, Accepts, ConsecutiveHistory;
    LiveAcceptsExactly(env, now, s, b);
    OrdinaryTxsInOrder(s.accounts, s.chain.Stored(), b.header.miner, b.transactions);
  }
}
