/** The rotating duplicate-share detector, against a log that never forgets. */
module Dedup {
  import opened Primitives
  import opened Bits

  const BUCKET_TTL_MS: u64 := 60_000
  const FNV_PRIME: u64 := 0x0000_0100_0000_01B3
  const FNV_OFFSET: u64 := 0xcbf2_9ce4_8422_2325

  // ---- Keys ----

  function Fnv1a(data: Bytes): u64 {
    if data == [] then FNV_OFFSET else MulWord(XorWord(Fnv1a(Init(data)), Last(data)), FNV_PRIME)
  }

  method Fnv1aLoop(data: Bytes) returns (hash: u64)
    ensures hash == Fnv1a(data)
  {
    hide XorWord, MulWord;
    hash := FNV_OFFSET;
    for i := 0 to |data|
      invariant hash == Fnv1a(data[..i])
    {
      assert Init(data[..i + 1]) == data[..i];
      hash := XorWord(hash, data[i]);
      hash := MulWord(hash, FNV_PRIME);
    }
    assert data[..|data|] == data;
  }

  /** The 128-bit key: block index above, nonce mixed with the worker's hash below. */
  function MakeKey(blockIndex: u64, nonce: u64, worker: Bytes): nat {
    blockIndex * TWO64 + XorWord(nonce, Fnv1a(worker))
  }

  method ComputeKey(blockIndex: u64, nonce: u64, worker: Bytes) returns (key: nat)
    ensures key == MakeKey(blockIndex, nonce, worker)
  {
    hide XorWord, Fnv1a;
    var workerHash := Fnv1aLoop(worker);
    var nonceMixed := XorWord(nonce, workerHash);
    key := blockIndex * TWO64 + nonceMixed;
  }

  /** Two shares of one worker never share a key; shares of two workers do exactly if their mixed nonces meet. */
  lemma KeysSeparateShares(b1: u64, n1: u64, w1: Bytes, b2: u64, n2: u64, w2: Bytes)
    ensures MakeKey(b1, n1, w1) == MakeKey(b2, n2, w2) <==>
      b1 == b2 && XorWord(n1, Fnv1a(w1)) == XorWord(n2, Fnv1a(w2))
    ensures w1 == w2 && MakeKey(b1, n1, w1) == MakeKey(b2, n2, w2) ==> b1 == b2 && n1 == n2
  {
    hide Fnv1a;
    var x1, x2 := XorWord(n1, Fnv1a(w1)), XorWord(n2, Fnv1a(w2));
    HighPart(b1, x1);
    HighPart(b2, x2);
    if w1 == w2 && x1 == x2 { XorCancels(n1, n2, Fnv1a(w1)); }
  }

  lemma {:induction false} XorSelf(a: nat)
    ensures Xor(a, a) == 0
  {
    if a != 0 { XorSelf(a / 2); }
  }

  /**
   * Any two workers collide: if each submits the hash of its own name as the nonce, their keys are the same
   * for every block.
   */
  lemma WorkersShareKey(blockIndex: u64, w1: Bytes, w2: Bytes)
    ensures MakeKey(blockIndex, Fnv1a(w1), w1) == MakeKey(blockIndex, Fnv1a(w2), w2)
  {
    hide Xor, Fnv1a;
    XorSelf(Fnv1a(w1));
    XorSelf(Fnv1a(w2));
  }

  lemma HighPart(high: nat, low: u64)
    ensures (high * TWO64 + low) / TWO64 == high && (high * TWO64 + low) % TWO64 == low
  {
  }

  // ---- The log ----

  /** A key accepted at some time, in the rotation epoch of that time. */
  datatype Entry = Entry(key: nat, epoch: nat, time: u64)

  /** Every acceptance so far, and the time each epoch began; the last epoch is the current one. */
  datatype Log = Log(accepted: seq<Entry>, began: seq<u64>)

  function Epoch(g: Log): int {
    |g.began| - 1
  }

  function StartLog(now: u64): Log {
    Log([], [now])
  }

  function RotateLog(g: Log, now: u64): (r: Log)
    requires g.began != []
    ensures r.began != []
  {
    if SatSub(now, Last(g.began)) >= BUCKET_TTL_MS then g.(began := g.began + [now]) else g
  }

  /** The key was accepted in this epoch or one of the two before it. */
  ghost predicate Remembered(g: Log, key: nat) {
    exists i :: 0 <= i < |g.accepted| && g.accepted[i].key == key && g.accepted[i].epoch >= Epoch(g) - 2
  }

  ghost function SubmitLog(g: Log, key: nat, now: u64): Log
    requires g.began != []
  {
    var r := RotateLog(g, now);
    if Remembered(r, key) then r else r.(accepted := r.accepted + [Entry(key, Epoch(r), now)])
  }

  ghost predicate LogOk(g: Log)
    ensures LogOk(g) ==> g.began != []
  {
    && g.began != []
    && (forall e :: 0 < e < |g.began| ==> g.began[e] - g.began[e - 1] >= BUCKET_TTL_MS)
    && (forall i :: 0 <= i < |g.accepted| ==> g.accepted[i].epoch < |g.began|)
    && (forall i, j :: 0 <= i < j < |g.accepted| && g.accepted[i].key == g.accepted[j].key ==>
          g.accepted[i].epoch + 3 <= g.accepted[j].epoch)
  }

  /** With a clock that never ran backwards, an acceptance lies less than one bucket after its epoch began. */
  ghost predicate TimesOk(g: Log, now: u64) {
    && g.began != [] && Last(g.began) <= now
    && forall i :: 0 <= i < |g.accepted| ==>
         && g.accepted[i].epoch < |g.began|
         && g.began[g.accepted[i].epoch] <= g.accepted[i].time < g.began[g.accepted[i].epoch] + BUCKET_TTL_MS
         && g.accepted[i].time <= now
  }

  lemma RotateKeepsLog(g: Log, now: u64, before: u64)
    requires LogOk(g)
    ensures LogOk(RotateLog(g, now))
    ensures before <= now && TimesOk(g, before) ==>
      TimesOk(RotateLog(g, now), now) && now < Last(RotateLog(g, now).began) + BUCKET_TTL_MS
  {
    var r := RotateLog(g, now);
    assert forall e :: 0 <= e < |g.began| ==> r.began[e] == g.began[e];
  }

  lemma AcceptKeepsLog(r: Log, key: nat, now: u64)
    requires LogOk(r) && !Remembered(r, key)
    ensures var s := r.(accepted := r.accepted + [Entry(key, Epoch(r), now)]);
      && LogOk(s)
      && (TimesOk(r, now) && now < Last(r.began) + BUCKET_TTL_MS ==> TimesOk(s, now))
  {
    var s := r.(accepted := r.accepted + [Entry(key, Epoch(r), now)]);
    forall i, j | 0 <= i < j < |s.accepted| && s.accepted[i].key == s.accepted[j].key
      ensures s.accepted[i].epoch + 3 <= s.accepted[j].epoch
    {
      assert s.accepted[i] == r.accepted[i];
      if j < |r.accepted| { assert s.accepted[j] == r.accepted[j]; }
    }
    forall i | 0 <= i < |s.accepted| ensures s.accepted[i].epoch < |s.began| {
      if i < |r.accepted| { assert s.accepted[i] == r.accepted[i]; }
    }
  }

  lemma SubmitKeepsLog(g: Log, key: nat, now: u64, before: u64)
    requires LogOk(g)
    ensures LogOk(SubmitLog(g, key, now))
    ensures before <= now && TimesOk(g, before) ==> TimesOk(SubmitLog(g, key, now), now)
  {
    hide LogOk, TimesOk, Remembered, RotateLog;
    RotateKeepsLog(g, now, before);
    if !Remembered(RotateLog(g, now), key) { AcceptKeepsLog(RotateLog(g, now), key, now); }
  }

  // ---- Any sequence of submissions ----

  datatype Call = Call(key: nat, now: u64)

  ghost function RunLog(start: u64, calls: seq<Call>): (g: Log)
    ensures g.began != []
  {
    if calls == [] then StartLog(start) else SubmitLog(RunLog(start, Init(calls)), Last(calls).key, Last(calls).now)
  }

  predicate ClockMovesOn(start: u64, calls: seq<Call>) {
    && (calls != [] ==> start <= calls[0].now)
    && forall i :: 0 < i < |calls| ==> calls[i - 1].now <= calls[i].now
  }

  lemma {:induction false} RunLogOk(start: u64, calls: seq<Call>)
    ensures LogOk(RunLog(start, calls))
    ensures ClockMovesOn(start, calls) ==> TimesOk(RunLog(start, calls), if calls == [] then start else Last(calls).now)
  {
    hide LogOk, TimesOk, SubmitLog;
    if calls == [] {
      StartIsOk(start);
    } else {
      var rest := Init(calls);
      RunLogOk(start, rest);
      var before := if rest == [] then start else Last(rest).now;
      SubmitKeepsLog(RunLog(start, rest), Last(calls).key, Last(calls).now, before);
    }
  }

  lemma StartIsOk(start: u64)
    ensures LogOk(StartLog(start)) && TimesOk(StartLog(start), start)
  {
  }

  /**
   * The window that is really guaranteed: with a clock that never runs backwards, a key accepted at
   * most 120,000 ms ago is still refused, whatever was submitted in between.
   */
  lemma RecentKeysAreRefused(start: u64, calls: seq<Call>, now: u64, i: nat)
    requires ClockMovesOn(start, calls + [Call(0, now)])
    requires var g := RunLog(start, calls);
      i < |g.accepted| && now <= g.accepted[i].time + 120_000
    ensures Remembered(RotateLog(RunLog(start, calls), now), RunLog(start, calls).accepted[i].key)
  {
    hide RunLog;
    var g := RunLog(start, calls);
    var all := calls + [Call(0, now)];
    assert forall j :: 0 <= j < |calls| ==> all[j] == calls[j];
    assert all[|calls|].now == now;
    RunLogOk(start, calls);
    StillRemembered(g, if calls == [] then start else Last(calls).now, now, i);
  }

  lemma {:induction false} EpochsInOrder(g: Log, a: nat, b: nat)
    requires LogOk(g) && a <= b < |g.began|
    ensures g.began[a] + (b - a) * BUCKET_TTL_MS <= g.began[b]
    decreases b
  {
    if a < b { EpochsInOrder(g, a, b - 1); }
  }

  lemma StillRemembered(g: Log, before: u64, now: u64, i: nat)
    requires LogOk(g) && TimesOk(g, before) && before <= now
    requires i < |g.accepted| && now <= g.accepted[i].time + 2 * BUCKET_TTL_MS
    ensures Remembered(RotateLog(g, now), g.accepted[i].key)
  {
    hide LogOk;
    RotateKeepsLog(g, now, before);
    var r, e := RotateLog(g, now), g.accepted[i].epoch;
    assert r.accepted[i] == g.accepted[i];
    if e + 3 < |r.began| {
      EpochsInOrder(r, e, e + 3);
      EpochsInOrder(r, e + 3, |r.began| - 1);
    }
  }

  /** The share of the second worker is then taken for a duplicate, right after the first one was accepted. */
  lemma OtherWorkerIsRefused(blockIndex: u64, w1: Bytes, w2: Bytes, start: u64, now: u64)
    ensures var first := Call(MakeKey(blockIndex, Fnv1a(w1), w1), start);
      && !Remembered(RotateLog(StartLog(start), start), first.key)
      && Remembered(RotateLog(RunLog(start, [first]), now), MakeKey(blockIndex, Fnv1a(w2), w2))
  {
    hide Fnv1a, MakeKey;
    WorkersShareKey(blockIndex, w1, w2);
    AcceptedAtStart(MakeKey(blockIndex, Fnv1a(w1), w1), start, now);
  }

  /** One millisecond more is not guaranteed: the same key, 120,001 ms apart, is accepted twice. */
  lemma WindowIsNotLonger(key: nat, other: nat)
    requires key != other
    ensures var calls := [Call(key, 59_999), Call(other, 60_000), Call(other, 120_000)];
      var g := RunLog(0, calls);
      && ClockMovesOn(0, calls + [Call(key, 180_000)])
      && g.accepted[0] == Entry(key, 0, 59_999)
      && !Remembered(RotateLog(g, 180_000), key)
  {
    var c0, c1, c2 := Call(key, 59_999), Call(other, 60_000), Call(other, 120_000);
    var accepted := [Entry(key, 0, 59_999), Entry(other, 1, 60_000)];
    assert Init([c0]) == [] && Init([c0, c1]) == [c0] && Init([c0, c1, c2]) == [c0, c1];
    NewKey(Log([], [0]), key, 59_999);
    NewKey(Log([Entry(key, 0, 59_999)], [0]), other, 60_000);
    OldKey(Log(accepted, [0, 60_000]), other, 120_000);
    hide Remembered, SubmitLog;
    assert RunLog(0, []) == Log([], [0]);
    assert RunLog(0, [c0]) == Log([Entry(key, 0, 59_999)], [0]);
    assert RunLog(0, [c0, c1]) == Log(accepted, [0, 60_000]);
    assert RunLog(0, [c0, c1, c2]) == Log(accepted, [0, 60_000, 120_000]);
    Forgotten(Log(accepted, [0, 60_000, 120_000]), key);
  }

  /**
   * Nor is there any upper limit: a call rotates at most once, so after a silence of any length the last
   * two epochs are remembered.
   */
  lemma SilenceForgetsNothing(g: Log, now: u64, i: nat)
    requires LogOk(g) && i < |g.accepted| && g.accepted[i].epoch >= Epoch(g) - 1
    ensures Remembered(RotateLog(g, now), g.accepted[i].key)
  {
    assert RotateLog(g, now).accepted[i] == g.accepted[i];
  }

  /** A key accepted at the start is refused by the very next call, however late that comes. */
  lemma AcceptedAtStart(key: nat, start: u64, now: u64)
    ensures !Remembered(RotateLog(StartLog(start), start), key)
    ensures Remembered(RotateLog(RunLog(start, [Call(key, start)]), now), key)
  {
    assert Init([Call(key, start)]) == [];
    NewKey(StartLog(start), key, start);
    assert RunLog(start, []) == StartLog(start);
    var g := RunLog(start, [Call(key, start)]);
    assert g == Log([Entry(key, 0, start)], [start]);
    RunLogOk(start, [Call(key, start)]);
    SilenceForgetsNothing(g, now, 0);
  }

  lemma NewKey(g: Log, key: nat, now: u64)
    requires g.began != [] && forall i :: 0 <= i < |g.accepted| ==> g.accepted[i].key != key
    ensures SubmitLog(g, key, now) ==
      Log(g.accepted + [Entry(key, Epoch(RotateLog(g, now)), now)], RotateLog(g, now).began)
  {
  }

  lemma OldKey(g: Log, key: nat, now: u64)
    requires |g.accepted| == 2 && g.accepted[1].key == key && g.accepted[1].epoch == 1 && |g.began| == 2
    ensures SubmitLog(g, key, now) == RotateLog(g, now)
  {
    var r := RotateLog(g, now);
    assert r.accepted[1].key == key && r.accepted[1].epoch >= Epoch(r) - 2;
  }

  lemma Forgotten(g: Log, key: nat)
    requires |g.accepted| == 2 && g.accepted[0] == Entry(key, 0, 59_999) && g.accepted[1].key != key
    requires g.began == [0, 60_000, 120_000]
    ensures !Remembered(RotateLog(g, 180_000), key)
  {
    assert RotateLog(g, 180_000).began == [0, 60_000, 120_000, 180_000];
  }

  // ---- The detector ----

  function Before(slot: nat): nat {
    if slot == 0 then 2 else slot - 1
  }

  /** Going back from the current bucket, the three buckets hold exactly the keys of the last three epochs. */
  ghost predicate Refines(buckets: seq<set<nat>>, current: nat, lastRotateMs: u64, g: Log)
    ensures Refines(buckets, current, lastRotateMs, g) ==> |buckets| == 3 && current < 3 && LogOk(g)
  {
    && LogOk(g) && |buckets| == 3 && current < 3
    && lastRotateMs == Last(g.began)
    && BucketHolds(buckets[current], g, Epoch(g))
    && BucketHolds(buckets[Before(current)], g, Epoch(g) - 1)
    && BucketHolds(buckets[Before(Before(current))], g, Epoch(g) - 2)
  }

  ghost predicate BucketHolds(bucket: set<nat>, g: Log, epoch: int) {
    forall key :: key in bucket <==> AcceptedIn(g, key, epoch)
  }

  ghost predicate AcceptedIn(g: Log, key: nat, epoch: int) {
    exists i :: 0 <= i < |g.accepted| && g.accepted[i].key == key && g.accepted[i].epoch == epoch
  }

  lemma AcceptedOnce(g: Log, key: nat, e1: int, e2: int)
    requires LogOk(g) && AcceptedIn(g, key, e1) && AcceptedIn(g, key, e2)
    ensures e1 == e2 || e1 + 3 <= e2 || e2 + 3 <= e1
  {
  }

  /** The buckets are pairwise disjoint: a key is in the window at most once. */
  lemma BucketsAreDisjoint(buckets: seq<set<nat>>, current: nat, lastRotateMs: u64, g: Log)
    requires Refines(buckets, current, lastRotateMs, g)
    ensures buckets[0] !! buckets[1] && buckets[1] !! buckets[2] && buckets[0] !! buckets[2]
  {
    hide AcceptedIn, LogOk;
    var a, b, c := buckets[current], buckets[Before(current)], buckets[Before(Before(current))];
    forall key ensures !(key in a && key in b) && !(key in b && key in c) && !(key in a && key in c) {
      if key in a && key in b { AcceptedOnce(g, key, Epoch(g), Epoch(g) - 1); }
      if key in b && key in c { AcceptedOnce(g, key, Epoch(g) - 1, Epoch(g) - 2); }
      if key in a && key in c { AcceptedOnce(g, key, Epoch(g), Epoch(g) - 2); }
    }
  }

  lemma RotateRefines(buckets: seq<set<nat>>, current: nat, lastRotateMs: u64, g: Log, now: u64)
    requires Refines(buckets, current, lastRotateMs, g) && SatSub(now, lastRotateMs) >= BUCKET_TTL_MS
    ensures Refines(buckets[(current + 1) % 3 := {}], (current + 1) % 3, now, RotateLog(g, now))
  {
    hide AcceptedIn;
    SameAcceptances(g, RotateLog(g, now));
    NothingAhead(g);
    RotateKeepsLog(g, now, now);
  }

  lemma SameAcceptances(g: Log, r: Log)
    requires g.accepted == r.accepted
    ensures forall key, e :: AcceptedIn(r, key, e) <==> AcceptedIn(g, key, e)
  {
  }

  lemma NothingAhead(g: Log)
    requires LogOk(g)
    ensures BucketHolds({}, g, Epoch(g) + 1)
  {
  }

  lemma LookupIsRemembered(buckets: seq<set<nat>>, current: nat, lastRotateMs: u64, g: Log, key: nat)
    requires Refines(buckets, current, lastRotateMs, g)
    ensures key in buckets[0] || key in buckets[1] || key in buckets[2] <==> Remembered(g, key)
  {
    hide LogOk;
    var e := Epoch(g);
    RememberedMeaning(g, key);
    assert key in buckets[current] <==> AcceptedIn(g, key, e);
    assert key in buckets[Before(current)] <==> AcceptedIn(g, key, e - 1);
    assert key in buckets[Before(Before(current))] <==> AcceptedIn(g, key, e - 2);
  }

  lemma RememberedMeaning(g: Log, key: nat)
    requires LogOk(g)
    ensures Remembered(g, key) <==>
      AcceptedIn(g, key, Epoch(g)) || AcceptedIn(g, key, Epoch(g) - 1) || AcceptedIn(g, key, Epoch(g) - 2)
  {
    if Remembered(g, key) {
      var i :| 0 <= i < |g.accepted| && g.accepted[i].key == key && g.accepted[i].epoch >= Epoch(g) - 2;
      assert AcceptedIn(g, key, g.accepted[i].epoch);
    }
  }

  lemma InsertRefines(buckets: seq<set<nat>>, current: nat, lastRotateMs: u64, g: Log, key: nat, now: u64)
    requires Refines(buckets, current, lastRotateMs, g) && !Remembered(g, key)
    ensures Refines(buckets[current := buckets[current] + {key}], current, lastRotateMs,
      g.(accepted := g.accepted + [Entry(key, Epoch(g), now)]))
  {
    hide AcceptedIn, LogOk, Remembered;
    AcceptKeepsLog(g, key, now);
    OneMoreAcceptance(g, key, now);
  }

  lemma OneMoreAcceptance(g: Log, key: nat, now: u64)
    requires g.began != []
    ensures var s := g.(accepted := g.accepted + [Entry(key, Epoch(g), now)]);
      forall k, e :: AcceptedIn(s, k, e) <==> AcceptedIn(g, k, e) || (k == key && e == Epoch(g))
  {
    var s := g.(accepted := g.accepted + [Entry(key, Epoch(g), now)]);
    forall k, e | AcceptedIn(g, k, e) ensures AcceptedIn(s, k, e) {
      var i :| 0 <= i < |g.accepted| && g.accepted[i].key == k && g.accepted[i].epoch == e;
      assert s.accepted[i] == g.accepted[i];
    }
    assert s.accepted[|g.accepted|] == Entry(key, Epoch(g), now);
  }

  class TachyonGuard {
    var buckets: seq<set<nat>>
    var current: nat
    var lastRotateMs: u64
    ghost var log: Log  // every acceptance since creation

    ghost predicate Valid()
      reads this
    {
      Refines(buckets, current, lastRotateMs, log)
    }

    constructor (now: u64)
      ensures Valid() && log == StartLog(now)
    {
      buckets := [{}, {}, {}];
      current := 0;
      lastRotateMs := now;
      log := StartLog(now);
    }

    /** True exactly for a key accepted in the current epoch or one of the two before; a new key is recorded. */
    method IsDuplicate(blockIndex: u64, nonce: u64, worker: Bytes, now: u64) returns (duplicate: bool)
      requires Valid()
      modifies this
      ensures Valid()
      ensures duplicate <==> Remembered(RotateLog(old(log), now), MakeKey(blockIndex, nonce, worker))
      ensures log == SubmitLog(old(log), MakeKey(blockIndex, nonce, worker), now)
    {
      hide Refines, LogOk, Remembered, MakeKey;
      MaybeRotate(now);
      var key := ComputeKey(blockIndex, nonce, worker);
      LookupIsRemembered(buckets, current, lastRotateMs, log, key);
      for i := 0 to 3
        invariant forall j :: 0 <= j < i ==> key !in buckets[j]
      {
        if key in buckets[i] {
          return true;
        }
      }
      InsertRefines(buckets, current, lastRotateMs, log, key, now);
      buckets := buckets[current := buckets[current] + {key}];
      log := log.(accepted := log.accepted + [Entry(key, Epoch(log), now)]);
      return false;
    }

    method MaybeRotate(now: u64)
      requires Valid()
      modifies this
      ensures Valid() && log == RotateLog(old(log), now)
    {
      if SatSub(now, lastRotateMs) >= BUCKET_TTL_MS {
        RotateRefines(buckets, current, lastRotateMs, log, now);
        current := (current + 1) % 3;
        buckets := buckets[current := {}];
        lastRotateMs := now;
        log := RotateLog(log, now);
      }
    }
  }
}
