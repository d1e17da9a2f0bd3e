/** The acknowledgement tracker that declares transactions final, as a state machine over its events. */
module Finality {
  import opened Primitives

  datatype Status =
    | Pending(acks: u32, quorum: u32)
    | Confirmed(acks: u32, finalityMs: nat)
    | Rejected(reason: string)

  datatype Ack = Ack(txHash: Bytes, peer: Bytes, signature: Bytes, timestampMs: u64)

  datatype PendingTx = PendingTx(submittedAt: nat, acks: map<Bytes, Ack>, quorum: u32)

  /**
   * The tracker, with two histories added: the quorum each hash was registered with, and every call
   * of the finality callback.
   */
  datatype Tracker = Tracker(
    pending: map<Bytes, PendingTx>,
    finalized: map<Bytes, Status>,
    defaultQuorum: u32,
    timeout: nat,
    registered: map<Bytes, u32>,
    fired: seq<(Bytes, Status)>)

  datatype Event =
    | Register(txHash: Bytes, quorum: Option<u32>, now: nat)
    | RecordAck(ack: Ack, now: nat)
    | Reject(txHash: Bytes, reason: string)
    | Cleanup(now: nat)
    | SetQuorum(newQuorum: u32)

  function AtLeastOne(quorum: u32): u32 {
    if quorum == 0 then 1 else quorum
  }

  function Start(defaultQuorum: u32, timeout: nat): Tracker {
    Tracker(map[], map[], AtLeastOne(defaultQuorum), timeout, map[], [])
  }

  function RegisterTx(t: Tracker, h: Bytes, quorum: u32, now: nat): Tracker {
    if h in t.pending || h in t.finalized then t
    else t.(pending := t.pending[h := PendingTx(now, map[], quorum)], registered := t.registered[h := quorum])
  }

  /** `len() as u32`. */
  function Count(acks: map<Bytes, Ack>): u32 {
    |acks| % 0x1_0000_0000
  }

  /** The pending entry once `ack` is counted. */
  function WithAck(p: PendingTx, ack: Ack): PendingTx {
    p.(acks := p.acks[ack.peer := ack])
  }

  function Confirm(t: Tracker, h: Bytes, acks: u32, finalityMs: nat): Tracker {
    var status := Confirmed(acks, finalityMs);
    t.(pending := t.pending - {h}, finalized := t.finalized[h := status], fired := t.fired + [(h, status)])
  }

  function Elapsed(since: nat, now: nat): nat {
    if now >= since then now - since else 0
  }

  function CountAck(t: Tracker, ack: Ack, now: nat): Tracker
    requires ack.txHash in t.pending
  {
    var h, p := ack.txHash, WithAck(t.pending[ack.txHash], ack);
    if Count(p.acks) >= p.quorum then Confirm(t, h, Count(p.acks), Elapsed(p.submittedAt, now))
    else t.(pending := t.pending[h := p])
  }

  function TimedOut(t: Tracker, now: nat): set<Bytes> {
    set h | h in t.pending && now - t.pending[h].submittedAt > t.timeout
  }

  function Expire(t: Tracker, expired: set<Bytes>): Tracker {
    t.(pending := t.pending - expired, finalized := t.finalized + map h | h in expired :: Rejected("timeout"))
  }

  /** One event; `valid` says whether an acknowledgement carries a good signature. */
  function Step(valid: Ack -> bool, t: Tracker, e: Event): Tracker {
    match e
    case Register(h, q, now) => RegisterTx(t, h, if q.Some? then AtLeastOne(q.value) else t.defaultQuorum, now)
    case RecordAck(ack, now) =>
      if valid(ack) && ack.txHash !in t.finalized && ack.txHash in t.pending
         && ack.peer !in t.pending[ack.txHash].acks
      then CountAck(t, ack, now) else t
    case Reject(h, reason) => t.(pending := t.pending - {h}, finalized := t.finalized[h := Rejected(reason)])
    case Cleanup(now) => Expire(t, TimedOut(t, now))
    case SetQuorum(q) => t.(defaultQuorum := AtLeastOne(q))
  }

  function Run(valid: Ack -> bool, t: Tracker, events: seq<Event>): Tracker {
    if events == [] then t else Step(valid, Run(valid, t, Init(events)), Last(events))
  }

  function StatusOf(t: Tracker, h: Bytes): Option<Status> {
    if h in t.finalized then Some(t.finalized[h])
    else if h in t.pending then Some(Pending(Count(t.pending[h].acks), t.pending[h].quorum))
    else None
  }

  // ---- What every run keeps ----

  /** A pending transaction still lacks acknowledgements, and those it has are valid, its own, and one per peer. */
  ghost predicate PendingOk(valid: Ack -> bool, t: Tracker) {
    && t.pending.Keys !! t.finalized.Keys
    && (forall h :: h in t.pending ==>
          && |t.pending[h].acks| < t.pending[h].quorum
          && h in t.registered && t.registered[h] == t.pending[h].quorum)
    && (forall h :: h in t.pending ==> AcksOk(valid, h, t.pending[h].acks))
  }

  ghost predicate AcksOk(valid: Ack -> bool, h: Bytes, acks: map<Bytes, Ack>) {
    forall p :: p in acks ==> valid(acks[p]) && acks[p].txHash == h && acks[p].peer == p
  }

  /** A confirmation carries exactly the quorum fixed at registration, and is the one the callback announced. */
  ghost predicate FinalizedOk(t: Tracker) {
    && t.defaultQuorum >= 1
    && (forall h :: h in t.registered ==> t.registered[h] >= 1 && (h in t.pending || h in t.finalized))
    && (forall h :: h in t.finalized ==> !t.finalized[h].Pending?)
    && (forall h :: h in t.finalized && t.finalized[h].Confirmed? ==>
          && h in t.registered && t.finalized[h].acks == t.registered[h]
          && (h, t.finalized[h]) in t.fired)
  }

  /** The callback fires at most once per hash, with the registered quorum, and only for finalized hashes. */
  ghost predicate FiredOk(t: Tracker) {
    && (forall i :: 0 <= i < |t.fired| ==>
          && t.fired[i].0 in t.finalized && t.fired[i].0 in t.registered
          && t.fired[i].1.Confirmed? && t.fired[i].1.acks == t.registered[t.fired[i].0])
    && (forall i, j :: 0 <= i < j < |t.fired| ==> t.fired[i].0 != t.fired[j].0)
  }

  ghost predicate TrackerOk(valid: Ack -> bool, t: Tracker) {
    PendingOk(valid, t) && FinalizedOk(t) && FiredOk(t)
  }

  lemma RegisterKeepsPending(valid: Ack -> bool, t: Tracker, h: Bytes, quorum: u32, now: nat)
    requires PendingOk(valid, t) && quorum >= 1
    ensures PendingOk(valid, RegisterTx(t, h, quorum, now))
  {
    assert AcksOk(valid, h, map[]);
  }

  lemma RegisterKeepsOk(valid: Ack -> bool, t: Tracker, h: Bytes, quorum: u32, now: nat)
    requires TrackerOk(valid, t) && quorum >= 1
    ensures TrackerOk(valid, RegisterTx(t, h, quorum, now))
  {
    hide PendingOk;
    RegisterKeepsPending(valid, t, h, quorum, now);
  }

  /** A new acknowledgement adds one, and completes the registered quorum exactly when the count reaches it. */
  lemma OneMoreAck(p: PendingTx, ack: Ack)
    requires |p.acks| < p.quorum && ack.peer !in p.acks
    ensures |WithAck(p, ack).acks| == |p.acks| + 1 == Count(WithAck(p, ack).acks)
  {
    assert WithAck(p, ack).acks.Keys == p.acks.Keys + {ack.peer};
    assert |WithAck(p, ack).acks| == |p.acks| + 1;
  }

  lemma ConfirmKeepsOk(valid: Ack -> bool, t: Tracker, h: Bytes, finalityMs: nat)
    requires TrackerOk(valid, t) && h in t.pending
    ensures TrackerOk(valid, Confirm(t, h, t.pending[h].quorum, finalityMs))
  {
    ConfirmKeepsPending(valid, t, h, t.pending[h].quorum, finalityMs);
    ConfirmKeepsFinalized(t, h, t.pending[h].quorum, finalityMs);
    ConfirmKeepsFired(t, h, t.pending[h].quorum, finalityMs);
  }

  lemma ConfirmKeepsPending(valid: Ack -> bool, t: Tracker, h: Bytes, acks: u32, finalityMs: nat)
    requires PendingOk(valid, t)
    ensures PendingOk(valid, Confirm(t, h, acks, finalityMs))
  {
  }

  lemma ConfirmKeepsFinalized(t: Tracker, h: Bytes, acks: u32, finalityMs: nat)
    requires FinalizedOk(t) && h in t.registered && t.registered[h] == acks
    ensures FinalizedOk(Confirm(t, h, acks, finalityMs))
  {
    var t' := Confirm(t, h, acks, finalityMs);
    assert forall x :: x in t.fired ==> x in t'.fired;
    assert t'.fired[|t.fired|] == (h, t'.finalized[h]);
  }

  lemma ConfirmKeepsFired(t: Tracker, h: Bytes, acks: u32, finalityMs: nat)
    requires FiredOk(t) && h !in t.finalized && h in t.registered && t.registered[h] == acks
    ensures FiredOk(Confirm(t, h, acks, finalityMs))
  {
    forall i | 0 <= i < |t.fired| ensures t.fired[i].0 != h {
      assert t.fired[i].0 in t.finalized;
    }
  }

  lemma ProgressKeepsOk(valid: Ack -> bool, t: Tracker, ack: Ack)
    requires TrackerOk(valid, t) && valid(ack) && ack.txHash in t.pending
    requires |WithAck(t.pending[ack.txHash], ack).acks| < t.pending[ack.txHash].quorum
    ensures TrackerOk(valid, t.(pending := t.pending[ack.txHash := WithAck(t.pending[ack.txHash], ack)]))
  {
    hide FinalizedOk, FiredOk, AcksOk;
    var h, p := ack.txHash, WithAck(t.pending[ack.txHash], ack);
    var t' := t.(pending := t.pending[h := p]);
    AckStored(valid, h, t.pending[h].acks, ack);
    assert PendingOk(valid, t');
    SameFinalized(t, t');
    SameFired(t, t');
  }

  lemma AckStored(valid: Ack -> bool, h: Bytes, acks: map<Bytes, Ack>, ack: Ack)
    requires AcksOk(valid, h, acks) && valid(ack) && ack.txHash == h
    ensures AcksOk(valid, h, acks[ack.peer := ack])
  {
  }

  lemma SameFinalized(t: Tracker, t': Tracker)
    requires FinalizedOk(t) && t'.pending.Keys == t.pending.Keys && t' == t.(pending := t'.pending)
    ensures FinalizedOk(t')
  {
  }

  lemma SameFired(t: Tracker, t': Tracker)
    requires FiredOk(t) && t.fired == t'.fired && t.finalized == t'.finalized && t.registered == t'.registered
    ensures FiredOk(t')
  {
  }

  lemma CountAckKeepsOk(valid: Ack -> bool, t: Tracker, ack: Ack, now: nat)
    requires TrackerOk(valid, t) && valid(ack)
    requires ack.txHash in t.pending && ack.peer !in t.pending[ack.txHash].acks
    ensures TrackerOk(valid, CountAck(t, ack, now))
    ensures ack.txHash !in CountAck(t, ack, now).pending <==>
      |t.pending[ack.txHash].acks| + 1 == t.pending[ack.txHash].quorum
  {
    hide FinalizedOk, FiredOk, Count;
    var h, p := ack.txHash, t.pending[ack.txHash];
    OneMoreAck(p, ack);
    if |p.acks| + 1 == p.quorum {
      ConfirmKeepsOk(valid, t, h, Elapsed(p.submittedAt, now));
    } else {
      ProgressKeepsOk(valid, t, ack);
    }
  }

  lemma RejectKeepsOk(valid: Ack -> bool, t: Tracker, h: Bytes, reason: string)
    requires TrackerOk(valid, t)
    ensures TrackerOk(valid, Step(valid, t, Reject(h, reason)))
  {
  }

  lemma ExpireKeepsOk(valid: Ack -> bool, t: Tracker, expired: set<Bytes>)
    requires TrackerOk(valid, t) && expired <= t.pending.Keys
    ensures TrackerOk(valid, Expire(t, expired))
  {
  }

  lemma StepKeepsOk(valid: Ack -> bool, t: Tracker, e: Event)
    requires TrackerOk(valid, t)
    ensures TrackerOk(valid, Step(valid, t, e))
  {
    match e
    case Register(h, q, now) =>
      RegisterKeepsOk(valid, t, h, if q.Some? then AtLeastOne(q.value) else t.defaultQuorum, now);
    case RecordAck(ack, now) =>
      if valid(ack) && ack.txHash in t.pending && ack.peer !in t.pending[ack.txHash].acks {
        CountAckKeepsOk(valid, t, ack, now);
      }
    case Reject(h, reason) => RejectKeepsOk(valid, t, h, reason);
    case Cleanup(now) => ExpireKeepsOk(valid, t, TimedOut(t, now));
    case SetQuorum(q) =>
  }

  /** Over any run of events from the start, the tracker's invariant holds. */
  lemma {:induction false} RunKeepsOk(valid: Ack -> bool, defaultQuorum: u32, timeout: nat, events: seq<Event>)
    ensures TrackerOk(valid, Run(valid, Start(defaultQuorum, timeout), events))
  {
    if events != [] {
      RunKeepsOk(valid, defaultQuorum, timeout, Init(events));
      StepKeepsOk(valid, Run(valid, Start(defaultQuorum, timeout), Init(events)), Last(events));
    }
  }

  /** A final status stands through any run that does not explicitly reject its hash, and no callback repeats. */
  lemma {:induction false} FinalStatusStands(valid: Ack -> bool, t: Tracker, events: seq<Event>, h: Bytes)
    requires TrackerOk(valid, t) && h in t.finalized
    requires forall i :: 0 <= i < |events| ==> !(events[i].Reject? && events[i].txHash == h)
    ensures var t' := Run(valid, t, events);
      && TrackerOk(valid, t')
      && h in t'.finalized && t'.finalized[h] == t.finalized[h]
      && StatusOf(t', h) == StatusOf(t, h)
  {
    hide TrackerOk;
    if events != [] {
      FinalStatusStands(valid, t, Init(events), h);
      var mid := Run(valid, t, Init(events));
      StepKeepsOk(valid, mid, Last(events));
      FinalIsNotPending(valid, mid, h);
      StatusStandsOneStep(valid, mid, Last(events), h);
    }
  }

  lemma FinalIsNotPending(valid: Ack -> bool, t: Tracker, h: Bytes)
    requires TrackerOk(valid, t) && h in t.finalized
    ensures h !in t.pending
  {
  }

  lemma StatusStandsOneStep(valid: Ack -> bool, t: Tracker, e: Event, h: Bytes)
    requires h !in t.pending && h in t.finalized && !(e.Reject? && e.txHash == h)
    ensures h in Step(valid, t, e).finalized && Step(valid, t, e).finalized[h] == t.finalized[h]
  {
    hide Count;
    match e
    case Register(_, _, _) =>
    case RecordAck(ack, _) => assert ack.txHash in t.pending ==> ack.txHash != h;
    case Reject(_, _) =>
    case Cleanup(now) => assert h !in TimedOut(t, now);
    case SetQuorum(_) =>
  }

  /** The status of every hash after every event, from its status before. */
  lemma StatusTable(valid: Ack -> bool, t: Tracker, e: Event, h: Bytes)
    requires TrackerOk(valid, t)
    ensures var now, next := StatusOf(t, h), StatusOf(Step(valid, t, e), h);
      match e
      case Register(g, q, _) =>
        next == if g != h || now != None then now
                else Some(Pending(0, if q.None? then t.defaultQuorum else if q.value == 0 then 1 else q.value))
      case RecordAck(ack, time) =>
        if h in t.pending && valid(ack) && ack.txHash == h && ack.peer !in t.pending[h].acks then
          var n, q, since := |t.pending[h].acks| + 1, t.pending[h].quorum, t.pending[h].submittedAt;
          && (n < q ==> next == Some(Pending(n, q)))
          && (n >= q ==> next == Some(Confirmed(q, if time < since then 0 else time - since)))
        else next == now
      case Reject(g, reason) => next == if g == h then Some(Rejected(reason)) else now
      case Cleanup(time) =>
        next == if h in t.pending && time > t.pending[h].submittedAt + t.timeout then Some(Rejected("timeout")) else now
      case SetQuorum(_) => next == now
  {
    hide FinalizedOk, FiredOk, AcksOk, CountAck, Count;
    match e
    case Register(_, _, _) => CountsNothing();
    case RecordAck(ack, time) =>
      if ack.txHash in t.pending && ack.peer !in t.pending[ack.txHash].acks { AckStatus(valid, t, ack, time, h); }
    case Reject(_, _) =>
    case Cleanup(_) =>
    case SetQuorum(_) =>
  }

  lemma CountsNothing()
    ensures Count(map[]) == 0
  {
  }

  lemma AckStatus(valid: Ack -> bool, t: Tracker, ack: Ack, time: nat, h: Bytes)
    requires PendingOk(valid, t) && ack.txHash in t.pending && ack.peer !in t.pending[ack.txHash].acks
    ensures var p := t.pending[ack.txHash];
      StatusOf(CountAck(t, ack, time), h) ==
        if h != ack.txHash then StatusOf(t, h)
        else if |p.acks| + 1 < p.quorum then Some(Pending(|p.acks| + 1, p.quorum))
        else Some(Confirmed(p.quorum, if time < p.submittedAt then 0 else time - p.submittedAt))
    ensures ack.txHash !in t.finalized
  {
    hide Count, WithAck, AcksOk;
    OneMoreAck(t.pending[ack.txHash], ack);
    AckKeeps(t.pending[ack.txHash], ack);
  }

  lemma AckKeeps(p: PendingTx, ack: Ack)
    ensures WithAck(p, ack).quorum == p.quorum && WithAck(p, ack).submittedAt == p.submittedAt
  {
  }

  /** Events that neither acknowledge nor reject `h`. */
  predicate LeavesAlone(e: Event, h: Bytes) {
    (e.RecordAck? ==> e.ack.txHash != h) && (e.Reject? ==> e.txHash != h)
  }

  /** A cleanup later than `deadline`. */
  predicate Passes(e: Event, deadline: nat) {
    e.Cleanup? && e.now > deadline
  }

  ghost predicate Waits(t: Tracker, h: Bytes, p: PendingTx) {
    h !in t.finalized && h in t.pending && t.pending[h] == p
  }

  ghost predicate GaveUp(t: Tracker, h: Bytes) {
    h !in t.pending && h in t.finalized && t.finalized[h] == Rejected("timeout")
  }

  lemma SilentStep(valid: Ack -> bool, t: Tracker, e: Event, h: Bytes, p: PendingTx)
    requires LeavesAlone(e, h)
    ensures Waits(t, h, p) ==>
      if Passes(e, p.submittedAt + t.timeout) then GaveUp(Step(valid, t, e), h) else Waits(Step(valid, t, e), h, p)
    ensures GaveUp(t, h) ==> GaveUp(Step(valid, t, e), h)
    ensures Step(valid, t, e).timeout == t.timeout
  {
    hide Count;
  }

  lemma SilentStart(valid: Ack -> bool, t: Tracker, h: Bytes, quorum: u32, since: nat)
    requires StatusOf(t, h) == None && quorum > 0
    ensures var t' := Step(valid, t, Register(h, Some(quorum), since));
      t'.timeout == t.timeout && Waits(t', h, PendingTx(since, map[], quorum))
  {
  }

  /**
   * A transaction that nobody acknowledges or rejects times out exactly if some cleanup comes later than
   * its timeout after registration, whatever else happens; until then it is pending.
   */
  lemma {:induction false} SilentTxTimesOut(valid: Ack -> bool, t: Tracker, h: Bytes, quorum: u32, since: nat,
      events: seq<Event>)
    requires StatusOf(t, h) == None && quorum > 0
    requires forall e :: e in events ==> LeavesAlone(e, h)
    ensures var t' := Run(valid, Step(valid, t, Register(h, Some(quorum), since)), events);
      && t'.timeout == t.timeout
      && if exists e :: e in events && Passes(e, since + t.timeout) then GaveUp(t', h)
         else Waits(t', h, PendingTx(since, map[], quorum))
  {
    hide Step, Waits, GaveUp, LeavesAlone, Passes, StatusOf;
    if events == [] {
      SilentStart(valid, t, h, quorum, since);
    } else {
      SilentTxTimesOut(valid, t, h, quorum, since, Init(events));
      var start := Step(valid, t, Register(h, Some(quorum), since));
      SilentStep(valid, Run(valid, start, Init(events)), Last(events), h, PendingTx(since, map[], quorum));
      assert forall e :: e in events <==> e in Init(events) || e == Last(events) by {
        assert events == Init(events) + [Last(events)];
      }
    }
  }

  lemma ExpireNone(t: Tracker)
    ensures Expire(t, {}) == t
  {
    assert Expire(t, {}).finalized == t.finalized;
    assert Expire(t, {}).pending == t.pending;
  }

  lemma ExpireOne(t: Tracker, done: set<Bytes>, h: Bytes)
    ensures var so := Expire(t, done);
      Expire(t, done + {h}) == so.(pending := so.pending - {h}, finalized := so.finalized[h := Rejected("timeout")])
  {
    var so, next := Expire(t, done), Expire(t, done + {h});
    assert next.pending == so.pending - {h};
    assert next.finalized == so.finalized[h := Rejected("timeout")];
  }

  // ---- Quorums ----

  function CalculateQuorum(peerCount: nat): u32 {
    if peerCount <= 3 then (if peerCount == 0 then 1 else peerCount)
    else (peerCount / 3 + 1) % 0x1_0000_0000
  }

  lemma {:induction false} SubsetIsSmaller<T>(a: set<T>, b: set<T>)
    requires a <= b
    ensures |a| <= |b|
  {
    if a != {} {
      var x :| x in a;
      SubsetIsSmaller(a - {x}, b - {x});
    }
  }

  /** Above three peers, any quorum contains a peer that is not faulty, and no smaller number would do. */
  lemma QuorumHasHonestPeer(peers: set<Bytes>, faulty: set<Bytes>, signers: set<Bytes>)
    requires 3 < |peers| && |peers| / 3 + 1 < 0x1_0000_0000
    requires faulty <= peers && |faulty| <= |peers| / 3
    ensures |signers| >= CalculateQuorum(|peers|) ==> exists p :: p in signers && p !in faulty
    ensures |faulty| == |peers| / 3 ==> |faulty| == CalculateQuorum(|peers|) - 1
  {
    if |signers| >= CalculateQuorum(|peers|) && signers <= faulty {
      SubsetIsSmaller(signers, faulty);
    }
  }

  /** Up to three peers, every one of them must sign, and a lone node needs its own acknowledgement. */
  lemma FewPeersAllSign(peers: set<Bytes>, signers: set<Bytes>)
    requires |peers| <= 3 && signers <= peers
    ensures peers != {} ==> (|signers| >= CalculateQuorum(|peers|) <==> signers == peers)
    ensures peers == {} ==> CalculateQuorum(|peers|) == 1
  {
    if signers != peers {
      var p :| p in peers && p !in signers;
      SubsetIsSmaller(signers, peers - {p});
    }
  }

  lemma {:induction false} SubsetOfSize<T>(s: set<T>, n: nat) returns (sub: set<T>)
    requires n <= |s|
    ensures sub <= s && |sub| == n
  {
    if n == |s| {
      sub := s;
    } else {
      var x :| x in s;
      sub := SubsetOfSize(s - {x}, n);
    }
  }

  /** Two quorums need not share any peer, so quorums alone do not exclude two conflicting confirmations. */
  lemma QuorumsCanBeDisjoint(peers: set<Bytes>) returns (one: set<Bytes>, other: set<Bytes>)
    requires 3 < |peers| && |peers| / 3 + 1 < 0x1_0000_0000
    ensures one <= peers && other <= peers && one !! other
    ensures |one| == |other| == CalculateQuorum(|peers|)
  {
    var q := |peers| / 3 + 1;
    one := SubsetOfSize(peers, q);
    assert |peers - one| == |peers| - q;
    other := SubsetOfSize(peers - one, q);
  }

  // ---- The tracker object ----

  class FinalityTracker {
    const valid: Ack -> bool
    var pending: map<Bytes, PendingTx>
    var finalized: map<Bytes, Status>
    var defaultQuorum: u32
    const timeout: nat
    ghost var registered: map<Bytes, u32>
    ghost var fired: seq<(Bytes, Status)>

    ghost function Value(): Tracker
      reads this
    {
      Tracker(pending, finalized, defaultQuorum, timeout, registered, fired)
    }

    constructor (valid: Ack -> bool, defaultQuorum: u32, timeout: nat)
      ensures this.valid == valid && Value() == Start(defaultQuorum, timeout)
    {
      this.valid := valid;
      pending, finalized := map[], map[];
      this.defaultQuorum := AtLeastOne(defaultQuorum);
      this.timeout := timeout;
      registered, fired := map[], [];
    }

    method RegisterTx(txHash: Bytes, quorum: Option<u32>, now: nat) returns (isNew: bool)
      modifies this
      ensures Value() == Step(valid, old(Value()), Register(txHash, quorum, now))
      ensures isNew <==> StatusOf(old(Value()), txHash) == None
    {
      if txHash in pending || txHash in finalized {
        return false;
      }
      var q := if quorum.Some? then AtLeastOne(quorum.value) else defaultQuorum;
      pending := pending[txHash := PendingTx(now, map[], q)];
      registered := registered[txHash := q];
      return true;
    }

    /** Count a verified acknowledgement; the status returned is the one a query gives afterwards. */
    method RecordAck(ack: Ack, now: nat) returns (status: Option<Status>)
      requires TrackerOk(valid, Value())
      modifies this
      ensures Value() == Step(valid, old(Value()), Event.RecordAck(ack, now))
      ensures TrackerOk(valid, Value())
      ensures status == if valid(ack) then StatusOf(Value(), ack.txHash) else None
    {
      hide TrackerOk, CountAck;
      StepKeepsOk(valid, Value(), Event.RecordAck(ack, now));
      if !valid(ack) {
        return None;
      }
      var txHash := ack.txHash;
      if txHash in finalized {
        return Some(finalized[txHash]);
      }
      if txHash !in pending {
        return None;
      }
      if ack.peer in pending[txHash].acks {
        return Some(Pending(Count(pending[txHash].acks), pending[txHash].quorum));
      }
      status := CountNew(ack, now);
    }

    method CountNew(ack: Ack, now: nat) returns (status: Option<Status>)
      requires TrackerOk(valid, Value())
      requires ack.txHash in pending && ack.txHash !in finalized && ack.peer !in pending[ack.txHash].acks
      modifies this
      ensures Value() == CountAck(old(Value()), ack, now)
      ensures status == StatusOf(Value(), ack.txHash)
    {
      hide TrackerOk, Count;
      var txHash := ack.txHash;
      var entry := pending[txHash];
      entry := entry.(acks := entry.acks[ack.peer := ack]);
      pending := pending[txHash := entry];
      var ackCount := Count(entry.acks);
      if ackCount >= entry.quorum {
        var confirmed := Confirmed(ackCount, Elapsed(entry.submittedAt, now));
        pending := pending - {txHash};
        assert pending == old(pending) - {txHash};
        finalized := finalized[txHash := confirmed];
        fired := fired + [(txHash, confirmed)];
        return Some(confirmed);
      }
      return Some(Pending(ackCount, entry.quorum));
    }

    method Reject(txHash: Bytes, reason: string)
      modifies this
      ensures Value() == Step(valid, old(Value()), Event.Reject(txHash, reason))
    {
      pending := pending - {txHash};
      finalized := finalized[txHash := Rejected(reason)];
    }

    method CleanupTimeouts(now: nat) returns (timedOut: set<Bytes>)
      modifies this
      ensures Value() == Step(valid, old(Value()), Cleanup(now))
      ensures timedOut == TimedOut(old(Value()), now)
    {
      timedOut := set h | h in pending && now - pending[h].submittedAt > timeout;
      ExpireAll(timedOut);
    }

    /** Move each of the hashes from pending to rejected. */
    method ExpireAll(hashes: set<Bytes>)
      modifies this
      ensures Value() == Expire(old(Value()), hashes)
    {
      hide Expire;
      var left := hashes;
      ghost var done: set<Bytes> := {};
      ExpireNone(Value());
      while left != {}
        invariant left + done == hashes
        invariant Value() == Expire(old(Value()), done)
        decreases |left|
      {
        var hash :| hash in left;
        ExpireOne(old(Value()), done, hash);
        left := left - {hash};
        done := done + {hash};
        pending := pending - {hash};
        finalized := finalized[hash := Rejected("timeout")];
      }
    }

    method SetQuorum(quorum: u32)
      modifies this
      ensures Value() == Step(valid, old(Value()), Event.SetQuorum(quorum))
    {
      defaultQuorum := AtLeastOne(quorum);
    }
  }
}
