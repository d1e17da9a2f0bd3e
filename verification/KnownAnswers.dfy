/** What SEQUAL-256, the share keys and the encodings give at literal words and bytes. */
module KnownAnswers {
  import opened Primitives
  import opened Bits
  import opened Encoding
  import opened Sequal
  import opened Network
  import opened Dedup

  // ---- Exclusive or, one binary digit after another ----

  lemma PowersOfTwo()
    ensures Pow2(0) == 1 && Pow2(2) == 4 && Pow2(5) == 0x20 && Pow2(6) == 0x40
    ensures Pow2(7) == 0x80 && Pow2(8) == 0x100 && Pow2(11) == 0x800
    ensures Pow2(13) == 0x2000 && Pow2(14) == 0x4000 && Pow2(15) == 0x8000 && Pow2(19) == 0x8_0000
    ensures Pow2(27) == 0x800_0000 && Pow2(37) == 0x20_0000_0000 && Pow2(38) == 0x40_0000_0000
    ensures Pow2(41) == 0x200_0000_0000 && Pow2(45) == 0x2000_0000_0000 && Pow2(49) == 0x2_0000_0000_0000
    ensures Pow2(50) == 0x4_0000_0000_0000 && Pow2(51) == 0x8_0000_0000_0000
  {
    assert Pow2(5) == 0x20;
    assert Pow2(8) == 0x100 by { Pow2Add(3, 5); }
    assert Pow2(11) == 0x800 by { Pow2Add(3, 8); }
    assert Pow2(13) == 0x2000 by { Pow2Add(2, 11); }
    assert Pow2(14) == 0x4000 by { Pow2Add(1, 13); }
    assert Pow2(15) == 0x8000 by { Pow2Add(1, 14); }
    assert Pow2(19) == 0x8_0000 by { Pow2Add(4, 15); }
    assert Pow2(27) == 0x800_0000 by { Pow2Add(8, 19); }
    assert Pow2(37) == 0x20_0000_0000 by { Pow2Add(10, 27); }
    assert Pow2(38) == 0x40_0000_0000 by { Pow2Add(1, 37); }
    assert Pow2(41) == 0x200_0000_0000 by { Pow2Add(3, 38); }
    assert Pow2(45) == 0x2000_0000_0000 by { Pow2Add(4, 41); }
    assert Pow2(49) == 0x2_0000_0000_0000 by { Pow2Add(4, 45); }
    assert Pow2(50) == 0x4_0000_0000_0000 by { Pow2Add(1, 49); }
    assert Pow2(51) == 0x8_0000_0000_0000 by { Pow2Add(1, 50); }
  }

  lemma {:induction false} XorZero(a: nat)
    ensures Xor(a, 0) == a && Xor(0, a) == a
  {
    if a > 0 { XorZero(a / 2); }
  }

  /** Words laid end to end are combined part by part. */
  lemma {:induction false} PartByPart(n: nat, x: nat, y: nat, a: nat, b: nat)
    requires a < Pow2(n) && b < Pow2(n)
    ensures Xor(x * Pow2(n) + a, y * Pow2(n) + b) == Xor(x, y) * Pow2(n) + Xor(a, b)
  {
    if n > 0 {
      var p := Pow2(n - 1);
      assert Pow2(n) == 2 * p;
      hide Xor, Pow2;
      PartByPart(n - 1, x, y, a / 2, b / 2);
      OneMoreDigit(p, x, y, a, b);
    } else {
      XorZero(0);
    }
  }

  lemma OneMoreDigit(p: nat, x: nat, y: nat, a: nat, b: nat)
    requires Xor(x * p + a / 2, y * p + b / 2) == Xor(x, y) * p + Xor(a / 2, b / 2)
    ensures Xor(x * (2 * p) + a, y * (2 * p) + b) == Xor(x, y) * (2 * p) + Xor(a, b)
  {
    hide Xor;
    var left, right, both := x * (2 * p) + a, y * (2 * p) + b, Xor(x, y);
    assert left / 2 == x * p + a / 2 && left % 2 == a % 2 by { Doubled(x, p, a); }
    assert right / 2 == y * p + b / 2 && right % 2 == b % 2 by { Doubled(y, p, b); }
    assert both * (2 * p) == 2 * (both * p) by { Doubled(both, p, 0); }
    XorHalves(left, right);
    XorHalves(a, b);
    FromHalves(Xor(left, right), Xor(a, b), both * p);
  }

  lemma Doubled(x: nat, p: nat, a: nat)
    ensures (x * (2 * p) + a) / 2 == x * p + a / 2 && (x * (2 * p) + a) % 2 == a % 2
    ensures x * (2 * p) == 2 * (x * p)
  {
    assert x * (2 * p) == 2 * (x * p);
  }

  lemma FromHalves(u: nat, v: nat, high: nat)
    requires u / 2 == high + v / 2 && u % 2 == v % 2
    ensures u == 2 * high + v
  {
  }

  /** What lies above the right word stays. */
  lemma Above(n: nat, high: nat, a: nat, b: nat)
    requires a < Pow2(n) && b < Pow2(n)
    ensures Xor(high * Pow2(n) + a, b) == high * Pow2(n) + Xor(a, b)
  {
    hide Xor;
    PartByPart(n, high, 0, a, b);
    XorZero(high);
  }

  /** A digit of the left word alone. */
  lemma OnlyLeft(n: nat, a: nat, b: nat)
    requires a < Pow2(n) && b < Pow2(n)
    ensures Xor(Pow2(n) + a, b) == Pow2(n) + Xor(a, b)
  {
    hide Xor;
    Above(n, 1, a, b);
  }

  /** And of the right word alone. */
  lemma OnlyRight(n: nat, a: nat, b: nat)
    requires a < Pow2(n) && b < Pow2(n)
    ensures Xor(a, Pow2(n) + b) == Pow2(n) + Xor(a, b)
  {
    hide Xor;
    PartByPart(n, 0, 1, a, b);
    XorZero(1);
  }

  /** And of both. */
  lemma InBoth(n: nat, a: nat, b: nat)
    requires a < Pow2(n) && b < Pow2(n)
    ensures Xor(Pow2(n) + a, Pow2(n) + b) == Xor(a, b)
  {
    hide Xor;
    PartByPart(n, 1, 1, a, b);
    OneAndOne();
  }

  lemma OneAndOne()
    ensures Xor(1, 1) == 0
  {
  }

  // ---- SEQUAL-256 ----

  /** Four words that make each sum, product, rotation and exclusive or of the mixing change something. */
  const START: Words :=
    Words(0x61d0_8646_80b5_83ec, 0xfde_e04d_dccf_4000, 0xffff_fe3f_ffff_e002, 0xffa_023f_2850_e2ab)

  lemma RotateFirst()
    ensures RotateLeft(0x8_0000_0000_0001, 13) == 0x2001
  {
    hide Pow2;
    PowersOfTwo();
  }

  lemma XorFirst()
    ensures Xor(0x8_0000_0000_0001, 0x2001) == 0x8_0000_0000_2000
  {
    hide Xor, Pow2;
    PowersOfTwo();
    OnlyLeft(51, 1, 0x2001);
    OnlyRight(13, 1, 1);
    InBoth(0, 0, 0);
    XorZero(0);
  }

  lemma RotateSecond()
    ensures RotateRight(0x200_0000_4000, 27) == 0x8_0000_0000_4000
  {
    hide Pow2;
    PowersOfTwo();
  }

  lemma XorSecond()
    ensures Xor(0x200_0000_4000, 0x8_0000_0000_4000) == 0x8_0200_0000_0000
  {
    hide Xor, Pow2;
    PowersOfTwo();
    OnlyRight(51, 0x200_0000_4000, 0x4000);
    OnlyLeft(41, 0x4000, 0x4000);
    InBoth(14, 0, 0);
    XorZero(0);
  }

  lemma XorIntoThird()
    ensures Xor(0x8_0000_0000_2000, 0x8_0200_0000_0000) == 0x200_0000_2000
  {
    hide Xor, Pow2;
    PowersOfTwo();
    InBoth(51, 0x2000, 0x200_0000_0000);
    OnlyRight(41, 0x2000, 0);
    XorZero(0x2000);
  }

  lemma RotateThird()
    ensures RotateLeft(0x40_0000_0002, 37) == 0x40_0000_0800
  {
    hide Pow2;
    PowersOfTwo();
  }

  lemma XorThird()
    ensures Xor(0x40_0000_0002, 0x40_0000_0800) == 0x802
  {
    hide Xor, Pow2;
    PowersOfTwo();
    InBoth(38, 2, 0x800);
    OnlyRight(11, 2, 0);
    XorZero(2);
  }

  lemma RotateFourth()
    ensures RotateRight(0x8_0001, 19) == 0x2000_0000_0001
  {
    hide Pow2;
    PowersOfTwo();
  }

  lemma XorFourth()
    ensures Xor(0x8_0001, 0x2000_0000_0001) == 0x2000_0008_0000
  {
    hide Xor, Pow2;
    PowersOfTwo();
    OnlyRight(45, 0x8_0001, 1);
    OnlyLeft(19, 1, 1);
    InBoth(0, 0, 0);
    XorZero(0);
  }

  lemma SumsAndProducts()
    ensures WrapAdd(0x61d0_8646_80b5_83ec, GOLDEN_RATIO) == 0x8_0000_0000_0001
    ensures MulWord(0xfde_e04d_dccf_4000, Odd(GOLDEN_RATIO)) == 0x200_0000_4000
    ensures WrapAdd(0xffff_fe3f_ffff_e002, 0x200_0000_2000) == 0x40_0000_0002
    ensures MulWord(0xffa_023f_2850_e2ab, Odd(0x802)) == 0x8_0001
  {
  }

  /** The mixing of these four words. */
  lemma MixAnswer()
    ensures Mix(START) ==
      Words(0x8_0000_0000_2000, 0x8_0200_0000_0000, 0x802, 0x2000_0008_0000)
  {
    hide Xor, RotateLeft, RotateRight, WrapAdd, MulWord, Odd, GOLDEN_RATIO;
    SumsAndProducts();
    RotateFirst();
    XorFirst();
    RotateSecond();
    XorSecond();
    XorIntoThird();
    RotateThird();
    XorThird();
    RotateFourth();
    XorFourth();
  }

  lemma XorWithCell()
    ensures Xor(0x8_0200_0000_0000, 0x200_0000_0020) == 0x8_0000_0000_0020
  {
    hide Xor, Pow2;
    PowersOfTwo();
    OnlyLeft(51, 0x200_0000_0000, 0x200_0000_0020);
    InBoth(41, 0, 0x20);
    XorZero(0x20);
  }

  lemma RotateByFifteen()
    ensures RotateLeft(0x8_0000_0000_0822, 15) == 0x411_0004
  {
    hide Pow2;
    PowersOfTwo();
  }

  lemma RotateByFourteen()
    ensures RotateLeft(0x8_0000_0000_0822, 14) == 0x208_8002
  {
    hide Pow2;
    PowersOfTwo();
  }

  lemma FoldFirst()
    ensures Xor(0x8_0000_0000_2000, 0x2000_0008_0000) == 0x8_2000_0008_2000
  {
    hide Xor, Pow2;
    PowersOfTwo();
    OnlyLeft(51, 0x2000, 0x2000_0008_0000);
    OnlyRight(45, 0x2000, 0x8_0000);
    OnlyRight(19, 0x2000, 0);
    XorZero(0x2000);
  }

  lemma FoldSecond()
    ensures Xor(0x8_0000_0000_0020, 0x8_2000_0008_2000) == 0x2000_0008_2020
  {
    hide Xor, Pow2;
    PowersOfTwo();
    InBoth(51, 0x20, 0x2000_0008_2000);
    OnlyRight(45, 0x20, 0x8_2000);
    OnlyRight(19, 0x20, 0x2000);
    OnlyRight(13, 0x20, 0);
    XorZero(0x20);
  }

  lemma FoldThird()
    ensures Xor(0x802, 0x2000_0008_2020) == 0x2000_0008_2822
  {
    hide Xor, Pow2;
    PowersOfTwo();
    OnlyRight(45, 0x802, 0x8_2020);
    OnlyRight(19, 0x802, 0x2020);
    OnlyRight(13, 0x802, 0x20);
    OnlyLeft(11, 2, 0x20);
    OnlyRight(5, 2, 0);
    XorZero(2);
  }

  lemma FoldFourth()
    ensures Xor(0x2000_0008_0000, 0x2000_0008_2822) == 0x2822
  {
    hide Xor, Pow2;
    PowersOfTwo();
    InBoth(45, 0x8_0000, 0x8_2822);
    InBoth(19, 0, 0x2822);
    XorZero(0x2822);
  }

  lemma FoldAnswer()
    ensures Fold(Words(0x8_0000_0000_2000, 0x8_0000_0000_0020, 0x802, 0x2000_0008_0000)) ==
      Words(0x8_2000_0008_2000, 0x2000_0008_2020, 0x2000_0008_2822, 0x2822)
  {
    hide Xor;
    FoldFirst();
    FoldSecond();
    FoldThird();
    FoldFourth();
  }

  /** A round of each kind: with `i % 4 == 3` the words are folded into each other, otherwise not. */
  lemma FoldingRound()
    ensures Round(Machine(START, [0x11, 0x22, 0x200_0000_0020]), 79) ==
      Machine(Words(0x8_2000_0008_2000, 0x2000_0008_2020, 0x2000_0008_2822, 0x2822), [0x11, 0x22, 0x411_0004])
  {
    hide Xor, Mix, Fold, RotateLeft;
    MixAnswer();
    XorWithCell();
    FoldAnswer();
    RotateByFifteen();
  }

  lemma PlainRound()
    ensures Round(Machine(START, [0x11, 0x200_0000_0020, 0x33]), 78) ==
      Machine(Words(0x8_0000_0000_2000, 0x8_0000_0000_0020, 0x802, 0x2000_0008_0000), [0x11, 0x208_8002, 0x33])
  {
    hide Xor, Mix, Fold, RotateLeft;
    MixAnswer();
    XorWithCell();
    RotateByFourteen();
  }

  // ---- FNV-1a ----

  lemma FirstByte()
    ensures Xor(0xcbf2_9ce4_8422_2325, 0x61) == 0xcbf2_9ce4_8422_2344
  {
    hide Xor, Pow2;
    PowersOfTwo();
    Above(8, 0xcb_f29c_e484_2223, 0x25, 0x61);
    OnlyRight(6, 0x25, 0x21);
    InBoth(5, 5, 1);
    OnlyLeft(2, 1, 1);
    InBoth(0, 0, 0);
    XorZero(0);
  }

  lemma SecondByte()
    ensures Xor(0xaf63_dc4c_8601_ec8c, 0x62) == 0xaf63_dc4c_8601_ecee
  {
    hide Xor, Pow2;
    PowersOfTwo();
    Above(8, 0xaf_63dc_4c86_01ec, 0x8c, 0x62);
    OnlyLeft(7, 0xc, 0x62);
    OnlyRight(6, 0xc, 0x22);
    OnlyRight(5, 0xc, 2);
    Above(2, 3, 0, 2);
    XorZero(2);
  }

  lemma FnvProducts()
    ensures MulWord(0xcbf2_9ce4_8422_2344, FNV_PRIME) == 0xaf63_dc4c_8601_ec8c
    ensures MulWord(0xaf63_dc4c_8601_ecee, FNV_PRIME) == 0x089c_4407_b545_986a
  {
  }

  /** The published values for no byte, for `a` and for `ab`. */
  lemma FnvAnswers()
    ensures Fnv1a([]) == 0xcbf2_9ce4_8422_2325
    ensures Fnv1a([0x61]) == 0xaf63_dc4c_8601_ec8c
    ensures Fnv1a([0x61, 0x62]) == 0x089c_4407_b545_986a
  {
    hide Xor, MulWord;
    FirstByte();
    SecondByte();
    FnvProducts();
    assert Init([0x61]) == [];
    assert Init([0x61, 0x62]) == [0x61];
    assert Fnv1a([0x61]) == MulWord(XorWord(Fnv1a([]), 0x61), FNV_PRIME);
  }

  // ---- Bytes ----

  lemma Digits(n: nat, width: nat)
    ensures LittleEndian(n, width + 1) == [n % 256] + LittleEndian(n / 256, width)
  {
  }

  /** Numbers go least significant byte first, and the word that marks a reward is its ASCII bytes. */
  lemma ByteOrder()
    ensures LittleEndian(0x0807_0605_0403_0201, 8) == [1, 2, 3, 4, 5, 6, 7, 8]
    ensures LittleEndian(0x0807_0605, 4) == [5, 6, 7, 8]
    ensures Ascii("coinbase") == [0x63, 0x6f, 0x69, 0x6e, 0x62, 0x61, 0x73, 0x65]
  {
    hide LittleEndian;
    Digits(0x0807_0605_0403_0201, 7);
    Digits(0x08_0706_0504_0302, 6);
    Digits(0x0807_0605_0403, 5);
    Digits(0x08_0706_0504, 4);
    Digits(0x0807_0605, 3);
    Digits(0x08_0706, 2);
    Digits(0x0807, 1);
    Digits(0x08, 0);
  }
}
