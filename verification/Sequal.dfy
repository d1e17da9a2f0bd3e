/** SEQUAL-256: the hash as a pure function, and the loops that compute it in reused memory. */
module Sequal {
  import opened Primitives
  import opened Bits
  import opened Encoding

  type Digest = b: Bytes | |b| == 32 witness ZERO_HASH

  const SCRATCHPAD_U64S: nat := 4 * 1024 * 1024 / 8
  const MINING_SCRATCHPAD_U64S: nat := 256 * 1024 / 8
  const MINING_STEPS: u32 := 1_000
  const GOLDEN_RATIO: u64 := 0x9e37_79b9_7f4a_7c15

  /** The four-word running state. */
  datatype Words = Words(w0: u64, w1: u64, w2: u64, w3: u64)

  /** A running state and the scratchpad it works on. */
  datatype Machine = Machine(words: Words, pad: seq<u64>)

  /** Word `j` of a digest, little-endian. */
  function Word(d: Digest, j: nat): u64
    requires j < 4
  {
    FromLittleEndian(d[8 * j..8 * j + 8]) % TWO64
  }

  /** The `k`-th digest of the expansion chain: each one hashes its predecessor and the cells written so far. */
  function ChainDigest(sha3: Bytes -> Digest, seed: Bytes, k: nat): Digest {
    if k == 0 then sha3(seed) else sha3(ChainDigest(sha3, seed, k - 1) + LittleEndian(4 * k, 8))
  }

  function Cell(sha3: Bytes -> Digest, seed: Bytes, i: nat): u64 {
    Word(ChainDigest(sha3, seed, i / 4), i % 4)
  }

  function Expanded(sha3: Bytes -> Digest, seed: Bytes, n: nat): (pad: seq<u64>)
    ensures |pad| == n
    ensures forall i :: 0 <= i < n ==> pad[i] == Cell(sha3, seed, i)
  {
    if n == 0 then [] else Expanded(sha3, seed, n - 1) + [Cell(sha3, seed, n - 1)]
  }

  function SeedWords(sha3: Bytes -> Digest, seed: Bytes): Words {
    var h := sha3(seed);
    Words(Word(h, 0), Word(h, 1), Word(h, 2), Word(h, 3))
  }

  /** Add-rotate-xor mixing of the state. */
  function Mix(w: Words): Words {
    var a := WrapAdd(w.w0, GOLDEN_RATIO);
    var a := XorWord(a, RotateLeft(a, 13));
    var b := MulWord(w.w1, Odd(GOLDEN_RATIO));
    var b := XorWord(b, RotateRight(b, 27));
    var c := WrapAdd(w.w2, XorWord(a, b));
    var c := XorWord(c, RotateLeft(c, 37));
    var d := MulWord(w.w3, Odd(c));
    var d := XorWord(d, RotateRight(d, 19));
    Words(a, b, c, d)
  }

  /** Every fourth step the words are folded into each other. */
  function Fold(w: Words): Words {
    var a := XorWord(w.w0, w.w3);
    var b := XorWord(w.w1, a);
    var c := XorWord(w.w2, b);
    Words(a, b, c, XorWord(w.w3, c))
  }

  /** The cell a mixed state reads and rewrites in step `i`. */
  function Address(w0: u64, i: u32, n: nat): (a: nat)
    requires n > 0
    ensures a < n
  {
    WrapAdd(w0, i) % n
  }

  function Rewritten(w1: u64, w2: u64, i: u32): u64 {
    RotateLeft(WrapAdd(w1, w2), i % 64)
  }

  function Round(m: Machine, i: u32): (m': Machine)
    requires m.pad != []
    ensures |m'.pad| == |m.pad|
  {
    var mixed := Mix(m.words);
    var addr := Address(mixed.w0, i, |m.pad|);
    var read := mixed.(w1 := XorWord(mixed.w1, m.pad[addr]));
    Machine(if i % 4 == 3 then Fold(read) else read, m.pad[addr := Rewritten(read.w1, read.w2, i)])
  }

  function Rounds(m: Machine, n: u32): (m': Machine)
    requires m.pad != []
    ensures |m'.pad| == |m.pad|
  {
    if n == 0 then m else Round(Rounds(m, n - 1), n - 1)
  }

  function WordBytes(w: Words): Bytes {
    LittleEndian(w.w0, 8) + LittleEndian(w.w1, 8) +
    LittleEndian(w.w2, 8) + LittleEndian(w.w3, 8)
  }

  /** SEQUAL-256 of a seed with `steps` rounds over `n` scratchpad cells. */
  function Hash256(sha3: Bytes -> Digest, seed: Bytes, steps: u32, n: nat): Digest
    requires n > 0
  {
    var start := Machine(SeedWords(sha3, seed), Expanded(sha3, seed, n));
    sha3(WordBytes(Rounds(start, steps).words) + seed)
  }

  // ---- The loops ----

  /** Overwrite a scratchpad of any size, whatever it held. */
  method ExpandScratchpad(sha3: Bytes -> Digest, seed: Bytes, pad: array<u64>)
    modifies pad
    ensures pad[..] == Expanded(sha3, seed, pad.Length)
    ensures forall k, j :: 0 <= k && 0 <= j < 4 && 4 * k + j < pad.Length ==>
      pad[4 * k + j] == Word(ChainDigest(sha3, seed, k), j)
  {
    hide Word, Cell;
    var current := sha3(seed);
    var idx := 0;
    ghost var k := 0;  // digests used up so far
    while idx < pad.Length
      invariant idx == Min(4 * k, pad.Length)
      invariant idx < pad.Length ==> current == ChainDigest(sha3, seed, k)
      invariant forall i :: 0 <= i < idx ==> pad[i] == Cell(sha3, seed, i)
      decreases pad.Length - idx
    {
      for j := 0 to 4
        invariant idx == Min(4 * k + j, pad.Length)
        invariant forall i :: 0 <= i < idx ==> pad[i] == Cell(sha3, seed, i)
      {
        if idx >= pad.Length {
          break;
        }
        CellAt(sha3, seed, k, j);
        pad[idx] := Word(current, j);
        idx := idx + 1;
      }
      var counter := LittleEndian(idx, 8);
      current := sha3(current + counter);
      k := k + 1;
    }
    forall m, j | 0 <= m && 0 <= j < 4 && 4 * m + j < pad.Length
      ensures pad[4 * m + j] == Word(ChainDigest(sha3, seed, m), j)
    {
      CellAt(sha3, seed, m, j);
    }
  }

  lemma CellAt(sha3: Bytes -> Digest, seed: Bytes, k: nat, j: nat)
    requires j < 4
    ensures Cell(sha3, seed, 4 * k + j) == Word(ChainDigest(sha3, seed, k), j)
  {
    assert (4 * k + j) / 4 == k && (4 * k + j) % 4 == j;
  }

  method MixState(state: array<u64>)
    requires state.Length == 4
    modifies state
    ensures InWords(state[..]) == Mix(InWords(old(state[..])))
  {
    hide XorWord, RotateLeft, RotateRight, MulWord, WrapAdd, Odd;
    state[0] := WrapAdd(state[0], GOLDEN_RATIO);
    state[0] := XorWord(state[0], RotateLeft(state[0], 13));
    state[1] := MulWord(state[1], Odd(GOLDEN_RATIO));
    state[1] := XorWord(state[1], RotateRight(state[1], 27));
    state[2] := WrapAdd(state[2], XorWord(state[0], state[1]));
    state[2] := XorWord(state[2], RotateLeft(state[2], 37));
    state[3] := MulWord(state[3], Odd(state[2]));
    state[3] := XorWord(state[3], RotateRight(state[3], 19));
  }

  method FoldState(state: array<u64>)
    requires state.Length == 4
    modifies state
    ensures InWords(state[..]) == Fold(InWords(old(state[..])))
  {
    hide XorWord;
    state[0] := XorWord(state[0], state[3]);
    state[1] := XorWord(state[1], state[0]);
    state[2] := XorWord(state[2], state[1]);
    state[3] := XorWord(state[3], state[2]);
  }

  function InWords(s: seq<u64>): Words
    requires |s| == 4
  {
    Words(s[0], s[1], s[2], s[3])
  }

  /** One step of the mixing chain, on the state and the scratchpad in place. */
  method StepInPlace(state: array<u64>, pad: array<u64>, i: u32)
    requires state.Length == 4 && pad.Length > 0 && state != pad
    modifies state, pad
    ensures Machine(InWords(state[..]), pad[..]) == Round(Machine(InWords(old(state[..])), old(pad[..])), i)
  {
    hide Mix, Fold, Address, Rewritten, XorWord;
    MixState(state);
    var addr := Address(state[0], i, pad.Length);
    state[1] := XorWord(state[1], pad[addr]);
    pad[addr] := Rewritten(state[1], state[2], i);
    if i % 4 == 3 {
      FoldState(state);
    }
  }

  /**
   * The body shared by both hash functions: expand, mix in place, absorb. Leftover contents of the
   * scratchpad are invisible.
   */
  method HashWithScratchpad(sha3: Bytes -> Digest, seed: Bytes, steps: u32, pad: array<u64>) returns (digest: Digest)
    requires pad.Length > 0
    modifies pad
    ensures digest == Hash256(sha3, seed, steps, pad.Length)
  {
    hide Round, Word, Expanded, LittleEndian;
    ExpandScratchpad(sha3, seed, pad);
    var seedHash := sha3(seed);
    var state := new u64[4];
    state[0] := Word(seedHash, 0);
    state[1] := Word(seedHash, 1);
    state[2] := Word(seedHash, 2);
    state[3] := Word(seedHash, 3);
    ghost var start := Machine(SeedWords(sha3, seed), pad[..]);
    for i := 0 to steps
      invariant Machine(InWords(state[..]), pad[..]) == Rounds(start, i)
    {
      StepInPlace(state, pad, i);
    }
    var finalInput := LittleEndian(state[0], 8);
    finalInput := finalInput + LittleEndian(state[1], 8);
    finalInput := finalInput + LittleEndian(state[2], 8);
    finalInput := finalInput + LittleEndian(state[3], 8);
    finalInput := finalInput + seed;
    digest := sha3(finalInput);
  }

  /** A mining thread: its scratchpad is allocated once and reused, dirty, by every hash. */
  class MiningThread {
    const scratchpad: array<u64>

    constructor ()
      ensures scratchpad.Length == MINING_SCRATCHPAD_U64S && fresh(scratchpad)
    {
      scratchpad := new u64[MINING_SCRATCHPAD_U64S](_ => 0);
    }

    method HashFast(sha3: Bytes -> Digest, seed: Bytes, steps: u32) returns (digest: Digest)
      requires scratchpad.Length == MINING_SCRATCHPAD_U64S
      modifies scratchpad
      ensures digest == Hash256(sha3, seed, steps, 32_768)
    {
      digest := HashWithScratchpad(sha3, seed, steps, scratchpad);
    }
  }

  /** The transaction hash allocates a fresh, larger scratchpad each time. */
  method Hash(sha3: Bytes -> Digest, seed: Bytes, steps: u32) returns (digest: Digest)
    ensures digest == Hash256(sha3, seed, steps, 524_288)
  {
    var pad := new u64[SCRATCHPAD_U64S](_ => 0);
    digest := HashWithScratchpad(sha3, seed, steps, pad);
  }

  // ---- The expansion, without its recursion ----

  /** A digest list that starts at the seed and in which each digest hashes its predecessor and the cells before it. */
  predicate IsDigestChain(sha3: Bytes -> Digest, seed: Bytes, digests: seq<Digest>) {
    && (digests != [] ==> digests[0] == sha3(seed))
    && forall k :: 0 < k < |digests| ==> digests[k] == sha3(digests[k - 1] + LittleEndian(4 * k, 8))
  }

  lemma {:induction false} DigestChainIs(sha3: Bytes -> Digest, seed: Bytes, digests: seq<Digest>, k: nat)
    requires IsDigestChain(sha3, seed, digests) && k < |digests|
    ensures digests[k] == ChainDigest(sha3, seed, k)
  {
    if k > 0 { DigestChainIs(sha3, seed, digests, k - 1); }
  }

  /**
   * A scratchpad is the expansion exactly if it spells out, four words at a time, a digest chain long
   * enough to fill it.
   */
  lemma ExpansionSpellsChain(sha3: Bytes -> Digest, seed: Bytes, pad: seq<u64>, digests: seq<Digest>)
    requires IsDigestChain(sha3, seed, digests) && |pad| <= 4 * |digests|
    ensures pad == Expanded(sha3, seed, |pad|) <==>
      forall i :: 0 <= i < |pad| ==> pad[i] == Word(digests[i / 4], i % 4)
  {
    hide Word;
    var expanded := Expanded(sha3, seed, |pad|);
    forall i | 0 <= i < |pad| ensures expanded[i] == Word(digests[i / 4], i % 4) {
      DigestChainIs(sha3, seed, digests, i / 4);
    }
  }

  // ---- The hash, without its recursion ----

  predicate IsRound(m: Machine, i: nat, m': Machine) {
    i < 0xffff_ffff && m.pad != [] && m' == Round(m, i)
  }

  /** Each machine is one round after its predecessor, with the rounds counted from 0. */
  predicate IsTrace(machines: seq<Machine>) {
    forall i :: 0 <= i < |machines| - 1 ==> IsRound(machines[i], i, machines[i + 1])
  }

  lemma {:induction false} TraceIs(machines: seq<Machine>, n: u32)
    requires IsTrace(machines) && n < |machines| && machines[0].pad != []
    ensures machines[n] == Rounds(machines[0], n)
  {
    if n > 0 {
      TraceIs(machines, n - 1);
      assert IsRound(machines[n - 1], n - 1, machines[n - 1 + 1]);
    }
  }

  /**
   * The hash from any list of machines that starts with the words of the seed's digest and its expansion:
   * the words of the last one, in order, then the seed.
   */
  lemma HashFollowsTrace(sha3: Bytes -> Digest, seed: Bytes, machines: seq<Machine>)
    requires 0 < |machines| <= 0x1_0000_0000 && IsTrace(machines)
    requires machines[0].pad != [] && machines[0].pad == Expanded(sha3, seed, |machines[0].pad|)
    requires var w := machines[0].words;
      LittleEndian(w.w0, 8) + LittleEndian(w.w1, 8) + LittleEndian(w.w2, 8) + LittleEndian(w.w3, 8) == sha3(seed)
    ensures var w := Last(machines).words;
      Hash256(sha3, seed, |machines| - 1, |machines[0].pad|) ==
      sha3(LittleEndian(w.w0, 8) + LittleEndian(w.w1, 8) + LittleEndian(w.w2, 8) + LittleEndian(w.w3, 8) + seed)
  {
    hide Word, LittleEndian, Round, Expanded;
    WordsOf(sha3(seed), machines[0].words);
    TraceIs(machines, |machines| - 1);
  }

  /** The words of a digest are those it is spelled with. */
  lemma WordsOf(d: Digest, w: Words)
    requires LittleEndian(w.w0, 8) + LittleEndian(w.w1, 8) + LittleEndian(w.w2, 8) + LittleEndian(w.w3, 8) == d
    ensures Words(Word(d, 0), Word(d, 1), Word(d, 2), Word(d, 3)) == w
  {
    hide LittleEndian, FromLittleEndian;
    WordRoundTrip(w.w0);
    WordRoundTrip(w.w1);
    WordRoundTrip(w.w2);
    WordRoundTrip(w.w3);
    assert d[0..8] == LittleEndian(w.w0, 8) && d[8..16] == LittleEndian(w.w1, 8);
    assert d[16..24] == LittleEndian(w.w2, 8) && d[24..32] == LittleEndian(w.w3, 8);
  }
}
