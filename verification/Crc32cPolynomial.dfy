/** CRC-32C is the remainder by its generator polynomial. */
module Crc32cPolynomial {
  import opened RegisterBits
  import opened ShiftRegister
  import opened Crc32c
  import opened Polynomials

  /** The generator polynomial that section 12.1 of RFC 3720 gives for CRC32C: 0x11edc6f41. */
  const EXPONENTS: seq<nat> := [32, 28, 27, 26, 25, 23, 22, 20, 19, 18, 14, 13, 11, 10, 9, 8, 6, 0]

  function Generator(): (g: Poly)
    ensures |g| == 33 && g[0]
  {
    seq(33, i => (32 - i) in EXPONENTS)
  }

  /** Bit i of the register is the coefficient of x^(31 - i). */
  function Bit(c: bv32, i: nat): bool { if i == 0 then Odd(c) else Bit(Half(c), i - 1) }

  function Coefficients(c: bv32): (p: Poly)
    ensures |p| == 32 && forall i | 0 <= i < 32 :: p[i] == Bit(c, i)
  {
    seq(32, i requires 0 <= i < 32 => Bit(c, i))
  }

  /** The bits of a byte in the order in which they are fed, lowest first. */
  function ByteBits(x: bv32, k: nat): (m: Poly)
    ensures |m| == k
  {
    if k == 0 then [] else [Odd(x)] + ByteBits(Half(x), k - 1)
  }

  /** A message as a polynomial: its bytes in order, each one lowest bit first. */
  function MessageBits(s: seq<bv8>): (m: Poly)
    ensures |m| == 8 * |s|
  {
    if s == [] then [] else MessageBits(s[..|s| - 1]) + ByteBits(FromByte(s[|s| - 1]), 8)
  }

  // ---------------------------------------------------------------------------------------
  // Bits of the register

  lemma {:induction false} BitXor(a: bv32, b: bv32, i: nat)
    ensures Bit(Xor(a, b), i) == (Bit(a, i) != Bit(b, i))
    decreases i
  {
    OddXor(a, b);
    HalfXor(a, b);
    hide Odd, Xor, Half;
    if i > 0 {
      BitXor(Half(a), Half(b), i - 1);
    }
  }

  lemma {:induction false} BitIterate(c: bv32, k: nat, i: nat)
    ensures Bit(c, k + i) == Bit(Iterate(Half, k, c), i)
    decreases k
  {
    hide Odd, Half;
    if k > 0 {
      BitIterate(Half(c), k - 1, i);
    }
  }

  lemma BitDrop(c: bv32, i: nat)
    ensures Bit(c, 8 + i) == Bit(Drop(c), i)
  {
    BitIterate(c, |BIT_ORDER|, i);
    EighthHalf(c);
  }

  lemma ZeroIsEven()
    ensures !Odd(0)
  {
  }

  /** There is nothing above bit 31. */
  lemma NoBit32(c: bv32)
    ensures !Bit(c, 32)
  {
    BitDrop(c, 24);
    BitDrop(Drop(c), 16);
    BitDrop(Drop(Drop(c)), 8);
    BitDrop(Drop(Drop(Drop(c))), 0);
    FourDrops(c);
    ZeroIsEven();
  }

  lemma PolyBits(i: nat)
    requires i < 32
    ensures Bit(POLY, i) <==> (31 - i) in EXPONENTS
  {
    PolyDrops();
    PolyByte0();
    PolyByte1();
    PolyByte2();
    PolyByte3();
    hide Bit, Drop;
    if i >= 24 { BitDrop(Drop(Drop(POLY)), i - 24); }
    if i >= 16 { BitDrop(Drop(POLY), i - 16); }
    if i >= 8 { BitDrop(POLY, i - 8); }
  }

  lemma PolyByte0()
    ensures forall j | 0 <= j < 8 :: Bit(0x82f6_3b78, j) <==> (31 - j) in EXPONENTS
  {
    assert !Bit(0x82f6_3b78, 0) && !Bit(0x82f6_3b78, 1) && !Bit(0x82f6_3b78, 2) && Bit(0x82f6_3b78, 3);
    assert Bit(0x82f6_3b78, 4) && Bit(0x82f6_3b78, 5) && Bit(0x82f6_3b78, 6) && !Bit(0x82f6_3b78, 7);
  }

  lemma PolyByte1()
    ensures forall j | 0 <= j < 8 :: Bit(0x82_f63b, j) <==> (23 - j) in EXPONENTS
  {
    assert Bit(0x82_f63b, 0) && Bit(0x82_f63b, 1) && !Bit(0x82_f63b, 2) && Bit(0x82_f63b, 3);
    assert Bit(0x82_f63b, 4) && Bit(0x82_f63b, 5) && !Bit(0x82_f63b, 6) && !Bit(0x82_f63b, 7);
  }

  lemma PolyByte2()
    ensures forall j | 0 <= j < 8 :: Bit(0x82f6, j) <==> (15 - j) in EXPONENTS
  {
    assert !Bit(0x82f6, 0) && Bit(0x82f6, 1) && Bit(0x82f6, 2) && !Bit(0x82f6, 3);
    assert Bit(0x82f6, 4) && Bit(0x82f6, 5) && Bit(0x82f6, 6) && Bit(0x82f6, 7);
  }

  lemma PolyByte3()
    ensures forall j | 0 <= j < 8 :: Bit(0x82, j) <==> (7 - j) in EXPONENTS
  {
    assert !Bit(0x82, 0) && Bit(0x82, 1) && !Bit(0x82, 2) && !Bit(0x82, 3);
    assert !Bit(0x82, 4) && !Bit(0x82, 5) && !Bit(0x82, 6) && Bit(0x82, 7);
  }

  lemma PolyDrops()
    ensures Drop(POLY) == 0x82_f63b && Drop(Drop(POLY)) == 0x82f6 && Drop(Drop(Drop(POLY))) == 0x82
  {
  }

  lemma ShiftOfHalf(c: bv32, i: nat)
    requires i < 32
    ensures Bit(Half(c), i) == (Coefficients(c)[1..] + [false])[i]
  {
    NoBit32(c);
    hide Half, Odd;
  }

  /** One shift multiplies by x modulo the generator. */
  lemma ShiftCoefficients(c: bv32, b: bool)
    ensures Coefficients(Shift(Xor(c, if b then 1 else 0))) == Divided(Generator(), Coefficients(c), b)
  {
    var d: bv32 := Xor(c, if b then 1 else 0);
    FirstBit(c, b);
    ShiftShape(d);
    hide Shift, Half, Odd, Xor;
    forall i | 0 <= i < 32 ensures Bit(Shift(d), i) == Divided(Generator(), Coefficients(c), b)[i] {
      ShiftOfHalf(c, i);
      if Odd(d) {
        BitXor(Half(d), POLY, i);
        PolyBits(i);
      }
    }
  }

  lemma FirstBit(c: bv32, b: bool)
    ensures var d: bv32 := Xor(c, if b then 1 else 0);
            Odd(d) == (Odd(c) != b) && Half(d) == Half(c)
  {
    XorZero(c);
    XorZero(Half(c));
    OddXor(c, 1);
    HalfXor(c, 1);
    OneBit();
    hide Xor, Odd, Half;
  }

  lemma OneBit()
    ensures Odd(1) && Half(1) == 0
  {
  }

  // ---------------------------------------------------------------------------------------
  // The register divides

  lemma LowBitIsOdd(x: bv32)
    ensures LowBit(x) == if Odd(x) then 1 else 0
  {
  }

  lemma {:induction false} FeedBitsDivides(c: bv32, x: bv32, k: nat)
    ensures Coefficients(FeedBits(Xor, LowBit, Half, Shift, c, x, k)) ==
            DividedAll(Generator(), Coefficients(c), ByteBits(x, k))
    decreases k
  {
    LowBitIsOdd(x);
    hide Shift, Half, Odd, Xor, LowBit, Coefficients, Divided, Generator;
    if k > 0 {
      var g, r, b := Generator(), Coefficients(c), Odd(x);
      ShiftCoefficients(c, b);
      FeedBitsDivides(Shift(Xor(c, LowBit(x))), Half(x), k - 1);
      DividedConcat(g, r, [b], ByteBits(Half(x), k - 1));
      DividedOne(g, r, b);
    }
  }

  lemma DividedOne(g: Poly, r: Poly, b: bool)
    requires |r| == |g| - 1 > 0
    ensures DividedAll(g, r, [b]) == Divided(g, r, b)
  {
    assert [b][..0] == [];
  }

  lemma {:induction false} RegisterDivides(c: bv32, s: seq<bv8>)
    ensures Coefficients(Register(FeedByte, c, s)) == DividedAll(Generator(), Coefficients(c), MessageBits(s))
  {
    hide Coefficients, Divided, Generator, FeedBits;
    if s != [] {
      var n := |s| - 1;
      var before, b := Register(FeedByte, c, s[..n]), s[n];
      RegisterDivides(c, s[..n]);
      FeedBitsDivides(before, FromByte(b), 8);
      DividedConcat(Generator(), Coefficients(c), MessageBits(s[..n]), ByteBits(FromByte(b), 8));
    }
  }

  /**
   * The checksum, complemented, is the remainder by the generator of the message times x^32 and the complemented seed
   * in front of it; there is no other remainder.
   */
  lemma ChecksumIsRemainder(seed: bv32, s: seq<bv8>, r: Poly)
    ensures Remainder(Dividend(Coefficients(Complement(seed)), MessageBits(s)), Generator(), r) <==>
            r == Coefficients(Complement(Checksum(seed, s)))
  {
    hide Coefficients, Generator, Remainder, Dividend, DividedAll, Register;
    var c := Complement(seed);
    var d := Dividend(Coefficients(c), MessageBits(s));
    var end := Register(FeedByte, c, s);
    RegisterDivides(c, s);
    Divides(Generator(), Coefficients(c), MessageBits(s));
    ComplementTwice(end);
    assert Complement(Checksum(seed, s)) == end;
    if Remainder(d, Generator(), r) {
      RemainderUnique(d, Generator(), r, Coefficients(end));
    }
  }

  // ---------------------------------------------------------------------------------------
  // The residue

  /** The four bytes of a checksum, lowest first. */
  function ChecksumBytes(w: bv32): seq<bv8> { [Low(w), Low(Drop(w)), Low(Drop(Drop(w))), Low(Drop(Drop(Drop(w))))] }

  /** Feeding the low byte of w is as good as feeding a zero byte when all of w was xored in before. */
  lemma FeedLow(c: bv32, w: bv32)
    ensures Xor(FeedByte(c, Low(w)), Drop(w)) == ZeroByte(Xor(c, w))
  {
    var x := FromByte(Low(w));
    Crc32cIsByteRegister();
    SplitLowByte(w);
    hide Xor, ZeroByte, FeedByte, Drop, High, Low, FromByte;
    assert FeedsAt(ZeroByte, FeedByte, c, Low(w)) && ShiftsOutAt(ZeroByte, w);
    assert Xor(c, w) == Xor(Xor(c, x), High(w));
    LinearAt(Xor, ZeroByte, Xor(c, x), High(w), Xor(c, w));
  }

  /** Behind a register, four bytes leave what four zero bytes leave of their sum. */
  lemma FourBytes(c: bv32, w: bv32)
    ensures Register(FeedByte, c, ChecksumBytes(w)) == ZeroByte(ZeroByte(ZeroByte(ZeroByte(Xor(c, w)))))
  {
    hide Xor, ZeroByte, FeedByte, Drop, Low;
    var w1, w2, w3, w4 := Drop(w), Drop(Drop(w)), Drop(Drop(Drop(w))), Drop(Drop(Drop(Drop(w))));
    var c1 := FeedByte(c, Low(w));
    var c2 := FeedByte(c1, Low(w1));
    var c3 := FeedByte(c2, Low(w2));
    var c4 := FeedByte(c3, Low(w3));
    FeedLow(c, w);
    FeedLow(c1, w1);
    FeedLow(c2, w2);
    FeedLow(c3, w3);
    FourDrops(w);
    XorZero(c4);
    RegisterFour(c, Low(w), Low(w1), Low(w2), Low(w3));
  }

  lemma RegisterFour(c: bv32, a: bv8, b: bv8, d: bv8, e: bv8)
    ensures Register(FeedByte, c, [a, b, d, e]) == FeedByte(FeedByte(FeedByte(FeedByte(c, a), b), d), e)
  {
    hide FeedByte;
    assert [a, b, d, e][..3] == [a, b, d] && [a, b, d][..2] == [a, b] && [a, b][..1] == [a] && [a][..0] == [];
    assert Register(FeedByte, c, [a]) == FeedByte(c, a);
    assert Register(FeedByte, c, [a, b]) == FeedByte(FeedByte(c, a), b);
  }

  lemma OnesResidue()
    ensures ZeroByte(ZeroByte(ZeroByte(ZeroByte(ONES)))) == 0xb798_b438
  {
    EightSteps(Shift, |BIT_ORDER|, 0xffff_ffff, 0xfd09_c487, 0xfc72_d93b, 0xfccf_57e5, 0xfc91_908a,
               0x7e48_c845, 0xbdd2_5f5a, 0x5ee9_2fad, 0xad82_acae);
    EightSteps(Shift, |BIT_ORDER|, 0xad82_acae, 0x56c1_5657, 0xa996_9053, 0xd63d_7351, 0xe9e8_82d0,
               0x74f4_4168, 0x3a7a_20b4, 0x1d3d_105a, 0x0e9e_882d);
    EightSteps(Shift, |BIT_ORDER|, 0x0e9e_882d, 0x85b9_7f6e, 0x42dc_bfb7, 0xa398_64a3, 0xd33a_0929,
               0xeb6b_3fec, 0x75b5_9ff6, 0x3ada_cffb, 0x9f9b_5c85);
    EightSteps(Shift, |BIT_ORDER|, 0x9f9b_5c85, 0xcd3b_953a, 0x669d_ca9d, 0xb1b8_de36, 0x58dc_6f1b,
               0xae98_0cf5, 0xd5ba_3d02, 0x6add_1e81, 0xb798_b438);
  }

  lemma XorComplement(c: bv32)
    ensures Xor(c, Complement(c)) == ONES && Complement(0) == ONES
  {
  }

  /** Every message followed by its checksum has the same checksum. */
  lemma Residue(s: seq<bv8>)
    ensures Checksum(0, s + ChecksumBytes(Checksum(0, s))) == 0x4867_4bc7
  {
    hide FeedByte, ZeroByte, Xor, ChecksumBytes;
    var end := Register(FeedByte, ONES, s);
    var w := Checksum(0, s);
    XorComplement(end);
    assert w == Complement(end);
    RegisterConcat(FeedByte, ONES, s, ChecksumBytes(w));
    FourBytes(end, w);
    OnesResidue();
    assert Complement(0xb798_b438) == 0x4867_4bc7;
  }

  // ---------------------------------------------------------------------------------------
  // The check value

  /** The characters 1 to 9. */
  const CHECK: seq<bv8> := [49, 50, 51, 52, 53, 54, 55, 56, 57]

  lemma Fed(s: seq<bv8>, k: nat, c: bv32,
      x0: bv32, x1: bv32, x2: bv32, x3: bv32, x4: bv32, x5: bv32, x6: bv32, x7: bv32, x8: bv32)
    requires k < |s| && Register(FeedByte, ONES, s[..k]) == c && x0 == Xor(c, FromByte(s[k]))
    requires Shift(x0) == x1 && Shift(x1) == x2 && Shift(x2) == x3 && Shift(x3) == x4
    requires Shift(x4) == x5 && Shift(x5) == x6 && Shift(x6) == x7 && Shift(x7) == x8
    ensures Register(FeedByte, ONES, s[..k + 1]) == x8
  {
    hide FeedByte, ZeroByte, Xor, FromByte, Shift, Register;
    ShiftedEight(x0, x1, x2, x3, x4, x5, x6, x7, x8);
    FedByte(s, k, c, x0);
  }

  lemma ShiftedEight(x0: bv32, x1: bv32, x2: bv32, x3: bv32, x4: bv32, x5: bv32, x6: bv32, x7: bv32, x8: bv32)
    requires Shift(x0) == x1 && Shift(x1) == x2 && Shift(x2) == x3 && Shift(x3) == x4
    requires Shift(x4) == x5 && Shift(x5) == x6 && Shift(x6) == x7 && Shift(x7) == x8
    ensures ZeroByte(x0) == x8
  {
    hide Shift;
    EightSteps(Shift, |BIT_ORDER|, x0, x1, x2, x3, x4, x5, x6, x7, x8);
  }

  lemma FedByte(s: seq<bv8>, k: nat, c: bv32, x: bv32)
    requires k < |s| && Register(FeedByte, ONES, s[..k]) == c && x == Xor(c, FromByte(s[k]))
    ensures Register(FeedByte, ONES, s[..k + 1]) == ZeroByte(x)
  {
    FeedByteIsZeroByte(c, s[k]);
    XorIsXor(c, FromByte(s[k]));
    hide FeedByte, ZeroByte, Xor, FromByte;
    assert s[..k + 1][..k] == s[..k];
  }

  lemma CheckValue()
    ensures Checksum(0, CHECK) == 0xe306_9283
  {
    hide FeedByte, Register, Iterate;
    XorComplement(0);
    NothingFed();
    assert CHECK[..0] == [];
    Fed(CHECK, 0, 0xffff_ffff, 0xffff_ffce, 0x7fff_ffe7, 0xbd09_c48b, 0xdc72_d93d, 0xeccf_57e6,
        0x7667_abf3, 0xb9c5_ee81, 0xde14_cc38, 0x6f0a_661c);
    Fed(CHECK, 1, 0x6f0a_661c, 0x6f0a_662e, 0x3785_3317, 0x9934_a2f3, 0xce6c_6a01, 0xe5c0_0e78,
        0x72e0_073c, 0x3970_039e, 0x1cb8_01cf, 0x8caa_3b9f);
    Fed(CHECK, 2, 0x8caa_3b9f, 0x8caa_3bac, 0x4655_1dd6, 0x232a_8eeb, 0x9363_7c0d, 0xcb47_857e,
        0x65a3_c2bf, 0xb027_da27, 0xdae5_d66b, 0xef84_d04d);
    Fed(CHECK, 3, 0xef84_d04d, 0xef84_d079, 0xf534_5344, 0x7a9a_29a2, 0x3d4d_14d1, 0x9c50_b110,
        0x4e28_5888, 0x2714_2c44, 0x138a_1622, 0x09c5_0b11);
    Fed(CHECK, 4, 0x09c5_0b11, 0x09c5_0b24, 0x04e2_8592, 0x0271_42c9, 0x83ce_9a1c, 0x41e7_4d0e,
        0x20f3_a687, 0x928f_e83b, 0xcbb1_cf65, 0xe72e_dcca);
    Fed(CHECK, 5, 0xe72e_dcca, 0xe72e_dcfc, 0x7397_6e7e, 0x39cb_b73f, 0x9e13_e0e7, 0xcdff_cb0b,
        0xe409_defd, 0xf0f2_d406, 0x7879_6a03, 0xbeca_8e79);
    Fed(CHECK, 6, 0xbeca_8e79, 0xbeca_8e4e, 0x5f65_4727, 0xad44_98eb, 0xd454_770d, 0xe8dc_00fe,
        0x746e_007f, 0xb8c1_3b47, 0xde96_a6db, 0xedbd_6815);
    Fed(CHECK, 7, 0xedbd_6815, 0xedbd_682d, 0xf428_8f6e, 0x7a14_47b7, 0xbffc_18a3, 0xdd08_3729,
        0xec72_20ec, 0x7639_1076, 0x3b1c_883b, 0x9f78_7f65);
    Fed(CHECK, 8, 0x9f78_7f65, 0x9f78_7f5c, 0x4fbc_3fae, 0x27de_1fd7, 0x9119_3493, 0xca7a_a131,
        0xe7cb_6be0, 0x73e5_b5f0, 0x39f2_daf8, 0x1cf9_6d7c);
    assert CHECK[..9] == CHECK;
  }

  lemma NothingFed()
    ensures Register(FeedByte, ONES, []) == ONES
  {
  }
}
