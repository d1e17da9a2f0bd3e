/** The proof-of-work target test, read three ways: bit masks, a numeric bound, leading zero bits. */
module Difficulty {
  import opened Primitives
  import opened Bits

  /** `0xFF << shift`, truncated to eight bits. */
  function HighMask(shift: nat): (m: int)
    requires shift <= 8
    ensures 0 <= m < 256
  {
    Pow2Bounds(shift);
    Pow2(8) - Pow2(shift)
  }

  /** What the byte-and-mask loop of `meets_difficulty` decides, for any target. */
  predicate MeetsDifficulty(hash: Bytes, bits: nat) {
    && bits / 8 <= |hash|
    && (forall i :: 0 <= i < bits / 8 ==> hash[i] == 0)
    && (bits % 8 > 0 && bits / 8 < |hash| ==> And(hash[bits / 8], HighMask(8 - bits % 8)) == 0)
  }

  /** The hash as a big-endian number. */
  function BigEndian(hash: Bytes): (v: nat)
    ensures v < Pow2(8 * |hash|)
  {
    if hash == [] then 0
    else
      Pow2Byte(|hash| - 1, hash[0]);
      hash[0] * Pow2(8 * (|hash| - 1)) + BigEndian(hash[1..])
  }

  function BitLength(b: nat): nat {
    if b == 0 then 0 else 1 + BitLength(b / 2)
  }

  /** `u8::leading_zeros`. */
  function ByteLeadingZeros(b: byte): (z: nat)
    ensures z <= 8 && (z == 8 <==> b == 0)
  {
    BitLengthBound(b, 8);
    8 - BitLength(b)
  }

  function LeadingZeros(hash: Bytes): nat {
    if hash == [] then 0
    else if hash[0] == 0 then 8 + LeadingZeros(hash[1..])
    else ByteLeadingZeros(hash[0])
  }

  method MeetsDifficultyLoop(hash: Bytes, bits: u32) returns (ok: bool)
    ensures ok == MeetsDifficulty(hash, bits)
  {
    var fullBytes := bits / 8;
    var remaining := bits % 8;
    for i := 0 to fullBytes
      invariant i <= |hash|
      invariant forall j :: 0 <= j < i ==> hash[j] == 0
    {
      if i >= |hash| || hash[i] != 0 {
        return false;
      }
    }
    if remaining > 0 && fullBytes < |hash| {
      var mask := HighMask(8 - remaining);
      if And(hash[fullBytes], mask) != 0 {
        return false;
      }
    }
    return true;
  }

  method LeadingZeros256(hash: Bytes) returns (count: nat)
    ensures count == LeadingZeros(hash)
  {
    count := 0;
    for i := 0 to |hash|
      invariant count + LeadingZeros(hash[i..]) == LeadingZeros(hash)
    {
      var lz := ByteLeadingZeros(hash[i]);
      assert hash[i..][1..] == hash[i + 1..];
      count := count + lz;
      if lz < 8 {
        return;
      }
    }
  }

  lemma Pow2Bounds(n: nat)
    requires n <= 8
    ensures Pow2(8) == 256 && Pow2(n) <= 256
    decreases 8 - n
  {
    if n < 8 { Pow2Bounds(n + 1); }
  }

  /** A leading byte below 256 keeps the number within one more byte. */
  lemma Pow2Byte(n: nat, b: byte)
    ensures b * Pow2(8 * n) + Pow2(8 * n) <= Pow2(8 * (n + 1))
  {
    Pow2Add(8, 8 * n);
    Pow2Bounds(8);
    assert 8 * (n + 1) == 8 + 8 * n;
    assert (b + 1) * Pow2(8 * n) <= 256 * Pow2(8 * n);
  }

  lemma {:induction false} BitLengthBound(b: nat, n: nat)
    ensures BitLength(b) <= n <==> b < Pow2(n)
  {
    if b == 0 {
    } else if n == 0 {
    } else {
      BitLengthBound(b / 2, n - 1);
    }
  }

  lemma {:induction false} AndOnes(a: nat, n: nat)
    requires a < Pow2(n)
    ensures And(a, Pow2(n) - 1) == a
  {
    if a != 0 {
      AndOnes(a / 2, n - 1);
      assert (Pow2(n) - 1) / 2 == Pow2(n - 1) - 1;
    }
  }

  /** Masking with the bits from `shift` up to `n` sees exactly whether the number reaches `2^shift`. */
  lemma {:induction false} AndHigh(a: nat, n: nat, shift: nat)
    requires shift <= n && a < Pow2(n)
    ensures Pow2(shift) <= Pow2(n)
    ensures And(a, Pow2(n) - Pow2(shift)) == 0 <==> a < Pow2(shift)
  {
    Pow2Monotone(shift, n);
    if shift == 0 {
      AndOnes(a, n);
    } else if a != 0 {
      AndHigh(a / 2, n - 1, shift - 1);
      assert (Pow2(n) - Pow2(shift)) / 2 == Pow2(n - 1) - Pow2(shift - 1);
      assert (Pow2(n) - Pow2(shift)) % 2 == 0;
    }
  }

  /** A leading digit decides a comparison with a multiple of its weight. */
  lemma LeadingDigit(digit: nat, bound: nat, weight: nat, rest: nat)
    requires rest < weight
    ensures digit * weight + rest < bound * weight <==> digit < bound
  {
    if digit < bound {
      assert (digit + 1) * weight <= bound * weight;
    } else {
      assert digit * weight >= bound * weight;
    }
  }

  /** Within the first byte, all three readings agree. */
  lemma FirstByteBits(hash: Bytes, bits: nat)
    requires hash != [] && bits < 8
    ensures MeetsDifficulty(hash, bits) <==> hash[0] < Pow2(8 - bits)
    ensures LeadingZeros(hash) >= bits <==> hash[0] < Pow2(8 - bits)
  {
    hide And, Pow2, BitLength;
    assert bits / 8 == 0 && bits % 8 == bits;
    Pow2Bounds(8 - bits);
    Pow2Bounds(8);
    AndHigh(hash[0], 8, 8 - bits);
    BitLengthBound(hash[0], 8 - bits);
    if bits == 0 { assert Pow2(8 - bits) == 256; }
  }

  lemma FirstByteValue(hash: Bytes, bits: nat)
    requires hash != [] && bits < 8
    ensures BigEndian(hash) < Pow2(8 * |hash| - bits) <==> hash[0] < Pow2(8 - bits)
  {
    var rest := 8 * (|hash| - 1);
    assert Pow2(8 * |hash| - bits) == Pow2(8 - bits) * Pow2(rest) by {
      Pow2Add(8 - bits, rest);
      assert 8 * |hash| - bits == (8 - bits) + rest;
    }
    LeadingDigit(hash[0], Pow2(8 - bits), Pow2(rest), BigEndian(hash[1..]));
  }

  /** Whole zero bytes can be stripped from the front. */
  lemma StripByte(hash: Bytes, bits: nat)
    requires hash != [] && 8 <= bits <= 8 * |hash|
    ensures MeetsDifficulty(hash, bits) <==> hash[0] == 0 && MeetsDifficulty(hash[1..], bits - 8)
  {
    var tail := hash[1..];
    assert bits / 8 == (bits - 8) / 8 + 1 && bits % 8 == (bits - 8) % 8;
    assert forall i :: 0 <= i < |tail| ==> tail[i] == hash[i + 1];
    if MeetsDifficulty(hash, bits) {
      forall i | 0 <= i < (bits - 8) / 8 ensures tail[i] == 0 {
        assert hash[i + 1] == 0;
      }
    }
    if hash[0] == 0 && MeetsDifficulty(tail, bits - 8) {
      forall i | 0 <= i < bits / 8 ensures hash[i] == 0 {
        if i > 0 { assert tail[i - 1] == hash[i]; }
      }
    }
  }

  /** The mask loop, the numeric bound and the zero count are one test, for every target the hash can hold. */
  lemma {:induction false} TargetReadings(hash: Bytes, bits: nat)
    requires bits <= 8 * |hash|
    ensures MeetsDifficulty(hash, bits) <==> BigEndian(hash) < Pow2(8 * |hash| - bits)
    ensures MeetsDifficulty(hash, bits) <==> LeadingZeros(hash) >= bits
  {
    if hash == [] {
    } else if bits < 8 {
      FirstByteBits(hash, bits);
      FirstByteValue(hash, bits);
    } else {
      hide MeetsDifficulty, Pow2;
      TargetReadings(hash[1..], bits - 8);
      StripByte(hash, bits);
      StripByteValue(hash, bits);
    }
  }

  lemma StripByteValue(hash: Bytes, bits: nat)
    requires hash != [] && 8 <= bits <= 8 * |hash|
    ensures BigEndian(hash) < Pow2(8 * |hash| - bits) <==>
      hash[0] == 0 && BigEndian(hash[1..]) < Pow2(8 * |hash[1..]| - (bits - 8))
  {
    hide Pow2;
    var tail := hash[1..];
    assert 8 * |tail| - (bits - 8) == 8 * |hash| - bits;
    if hash[0] != 0 {
      Pow2Monotone(8 * |hash| - bits, 8 * |tail|);
      LeadingDigit(hash[0], 1, Pow2(8 * |tail|), BigEndian(tail));
    }
  }

  /**
   * The exact decision of the node for 32-byte hashes and any difficulty: above 256 bits the
   * leftover mask is skipped, so the all-zero hash still passes 257 to 263 and nothing passes beyond.
   */
  lemma TargetExact(hash: Bytes, bits: nat)
    requires |hash| == 32
    ensures bits <= 256 ==> (MeetsDifficulty(hash, bits) <==> BigEndian(hash) < Pow2(256 - bits))
    ensures 256 <= bits < 264 ==> (MeetsDifficulty(hash, bits) <==> BigEndian(hash) == 0)
    ensures bits >= 264 ==> !MeetsDifficulty(hash, bits)
  {
    if bits <= 256 {
      TargetReadings(hash, bits);
    } else if bits < 264 {
      TargetReadings(hash, 256);
      assert bits / 8 == 32;
    } else {
      assert bits / 8 > 32;
    }
  }

  /** A hash that wins the block also counts as a share at any lower floor. */
  lemma LowerTargetIsWeaker(hash: Bytes, blockBits: nat, shareBits: nat)
    requires |hash| == 32 && shareBits <= blockBits && MeetsDifficulty(hash, blockBits)
    ensures MeetsDifficulty(hash, shareBits)
  {
    if blockBits <= 256 {
      TargetReadings(hash, blockBits);
      TargetReadings(hash, shareBits);
    } else {
      TargetExact(hash, blockBits);
      TargetExact(hash, shareBits);
      if shareBits <= 256 { Pow2Monotone(0, 256 - shareBits); }
    }
  }
}
