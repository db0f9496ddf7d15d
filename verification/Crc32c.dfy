/** Shift registers over an arbitrary additive structure; nothing here depends on the polynomial. */
module ShiftRegister {

  function Iterate<T>(f: T -> T, k: nat, c: T): T
    decreases k
  {
    if k == 0 then c else Iterate(f, k - 1, f(c))
  }

  /** Feeds the low k bits of b: each bit is added to the register, which is then shifted. */
  function FeedBits<T>(add: (T, T) -> T, low: T -> T, half: T -> T, shift: T -> T, c: T, b: T, k: nat): T
    decreases k
  {
    if k == 0 then c
    else FeedBits(add, low, half, shift, shift(add(c, low(b))), half(b), k - 1)
  }

  function Register<T, D>(feed: (T, D) -> T, c: T, s: seq<D>): T {
    if s == [] then c else feed(Register(feed, c, s[..|s| - 1]), s[|s| - 1])
  }

  /** A register masked on the way in and on the way out. */
  function Masked<T, D>(feed: (T, D) -> T, mask: T -> T, seed: T, s: seq<D>): T {
    mask(Register(feed, mask(seed), s))
  }

  lemma {:induction false} RegisterConcat<T, D>(feed: (T, D) -> T, c: T, s: seq<D>, t: seq<D>)
    ensures Register(feed, c, s + t) == Register(feed, Register(feed, c, s), t)
  {
    if t == [] {
      assert s + t == s;
    } else {
      var n := |t| - 1;
      assert (s + t)[..|s + t| - 1] == s + t[..n];
      RegisterConcat(feed, c, s, t[..n]);
    }
  }

  lemma MaskedConcat<T(!new), D>(feed: (T, D) -> T, mask: T -> T, seed: T, s: seq<D>, t: seq<D>)
    requires forall c :: mask(mask(c)) == c
    ensures Masked(feed, mask, Masked(feed, mask, seed, s), t) == Masked(feed, mask, seed, s + t)
  {
    RegisterConcat(feed, mask(seed), s, t);
  }

  ghost predicate Linear<T(!new)>(add: (T, T) -> T, f: T -> T) {
    forall a, b :: f(add(a, b)) == add(f(a), f(b))
  }

  ghost predicate Associative<T(!new)>(add: (T, T) -> T) {
    forall a, b, c :: add(add(a, b), c) == add(a, add(b, c))
  }

  ghost predicate Commutative<T(!new)>(add: (T, T) -> T) {
    forall a, b :: add(a, b) == add(b, a)
  }

  ghost predicate SelfInverse<T(!new)>(add: (T, T) -> T) {
    forall a, b :: add(add(a, b), b) == a
  }

  /** A shift that adds p exactly when the low bit falls out is additive. */
  lemma ShiftAdds<T(!new)>(add: (T, T) -> T, odd: T -> bool, half: T -> T, shift: T -> T, p: T, a: T, b: T)
    requires shift(a) == if odd(a) then add(half(a), p) else half(a)
    requires shift(b) == if odd(b) then add(half(b), p) else half(b)
    requires shift(add(a, b)) == if odd(add(a, b)) then add(half(add(a, b)), p) else half(add(a, b))
    requires odd(add(a, b)) == (odd(a) != odd(b))
    requires half(add(a, b)) == add(half(a), half(b))
    requires Associative(add) && Commutative(add) && SelfInverse(add)
    ensures shift(add(a, b)) == add(shift(a), shift(b))
  {
    var x, y := half(a), half(b);
    assert add(x, add(y, p)) == add(add(x, y), p);
    assert add(add(x, p), y) == add(y, add(x, p)) == add(add(y, x), p) == add(add(x, y), p);
    calc {
      add(add(x, p), add(y, p));
      add(add(add(x, p), y), p);
      add(add(add(x, y), p), p);
      add(x, y);
    }
  }

  lemma LinearAt<T(!new)>(add: (T, T) -> T, f: T -> T, a: T, b: T, c: T)
    requires Linear(add, f) && c == add(a, b)
    ensures f(c) == add(f(a), f(b))
  {
  }

  lemma {:induction false} IterateLinear<T(!new)>(add: (T, T) -> T, f: T -> T, k: nat, a: T, b: T)
    requires Linear(add, f)
    ensures Iterate(f, k, add(a, b)) == add(Iterate(f, k, a), Iterate(f, k, b))
  {
    if k != 0 {
      IterateLinear(add, f, k - 1, f(a), f(b));
    }
  }

  lemma {:induction false} IterateLast<T>(f: T -> T, k: nat, c: T)
    ensures Iterate(f, k + 1, c) == f(Iterate(f, k, c))
  {
    if k != 0 {
      IterateLast(f, k - 1, f(c));
    }
  }

  lemma FirstIterate<T>(f: T -> T, c: T)
    ensures Iterate(f, 1, c) == f(c)
  {
  }

  /** Feeding k bits amounts to adding them all at once and shifting k times. */
  lemma FeedBitsIsShifts<T(!new)>(
    add: (T, T) -> T, low: T -> T, half: T -> T, shift: T -> T, zero: T, c: T, b: T, k: nat)
    requires forall c, b :: add(shift(add(c, low(b))), half(b)) == shift(add(c, b))
    requires forall c :: add(c, zero) == c
    requires Iterate(half, k, b) == zero
    ensures FeedBits(add, low, half, shift, c, b, k) == Iterate(shift, k, add(c, b))
  {
    FeedBitsPending(add, low, half, shift, c, b, k);
  }

  lemma {:induction false} FeedBitsPending<T(!new)>(
    add: (T, T) -> T, low: T -> T, half: T -> T, shift: T -> T, c: T, b: T, k: nat)
    requires forall c, b :: add(shift(add(c, low(b))), half(b)) == shift(add(c, b))
    ensures add(FeedBits(add, low, half, shift, c, b, k), Iterate(half, k, b)) == Iterate(shift, k, add(c, b))
  {
    if k != 0 {
      FeedBitsPending(add, low, half, shift, shift(add(c, low(b))), half(b), k - 1);
    }
  }

  lemma EightSteps<T>(f: T -> T, k: nat, c0: T, c1: T, c2: T, c3: T, c4: T, c5: T, c6: T, c7: T, c8: T)
    requires k == 8
    requires f(c0) == c1 && f(c1) == c2 && f(c2) == c3 && f(c3) == c4
    requires f(c4) == c5 && f(c5) == c6 && f(c6) == c7 && f(c7) == c8
    ensures Iterate(f, k, c0) == c8
  {
    assert Iterate(f, k, c0) == Iterate(f, 8, c0);
  }

  /** Two maps that agree on every value met on the way have the same eighth iterate. */
  lemma EightAgree<T(!new)>(f: T -> T, g: T -> T, p: T -> bool, k: nat,
                            c0: T, c1: T, c2: T, c3: T, c4: T, c5: T, c6: T, c7: T)
    requires k == 8
    requires forall c :: p(c) ==> f(c) == g(c)
    requires g(c0) == c1 && g(c1) == c2 && g(c2) == c3 && g(c3) == c4
    requires g(c4) == c5 && g(c5) == c6 && g(c6) == c7
    requires p(c0) && p(c1) && p(c2) && p(c3) && p(c4) && p(c5) && p(c6) && p(c7)
    ensures Iterate(f, k, c0) == Iterate(g, k, c0)
  {
    EightSteps(f, k, c0, c1, c2, c3, c4, c5, c6, c7, g(c7));
    EightSteps(g, k, c0, c1, c2, c3, c4, c5, c6, c7, g(c7));
  }

  /** One byte of a word-at-a-time step: the part q of the register not yet looked up stays separate. */
  lemma SliceStep<T(!new)>(add: (T, T) -> T, f: T -> T, s: T, q: T, d: T, x: T, r: T)
    requires Linear(add, f) && Associative(add)
    requires add(q, d) == add(x, r)
    ensures f(add(add(s, q), d)) == add(f(add(s, x)), f(r))
  {
    assert add(add(s, q), d) == add(s, add(q, d)) == add(add(s, x), r);
  }

  /** Eight register steps from zero, as the sum of one table entry per byte. */
  lemma HornerEight<T(!new)>(add: (T, T) -> T, f: T -> T, x0: T, x1: T, x2: T, x3: T, x4: T, x5: T, x6: T, x7: T)
    requires Linear(add, f)
    ensures
      f(add(f(add(f(add(f(add(f(add(f(add(f(add(f(x0), x1)), x2)), x3)), x4)), x5)), x6)), x7)) ==
      add(add(add(add(add(add(add(Iterate(f, 8, x0), Iterate(f, 7, x1)), Iterate(f, 6, x2)), Iterate(f, 5, x3)),
                      Iterate(f, 4, x4)), Iterate(f, 3, x5)), Iterate(f, 2, x6)), Iterate(f, 1, x7))
  {
    var y0, y1 := f(x0), f(x1);
    var s2 := add(f(y0), y1);
    assert f(add(y0, x1)) == s2;
    var s3 := add(add(f(f(y0)), f(y1)), f(x2));
    assert f(add(s2, x2)) == s3;
    var s4 := add(add(add(f(f(f(y0))), f(f(y1))), f(f(x2))), f(x3));
    assert f(add(s3, x3)) == s4;
    var s5 := add(add(add(add(f(f(f(f(y0)))), f(f(f(y1)))), f(f(f(x2)))), f(f(x3))), f(x4));
    assert f(add(s4, x4)) == s5;
    var s6 := add(add(add(add(add(f(f(f(f(f(y0))))), f(f(f(f(y1))))), f(f(f(f(x2))))), f(f(f(x3)))), f(f(x4))), f(x5));
    assert f(add(s5, x5)) == s6;
  }
}

/** Bit operations on the 32-bit register and on the 64-bit variable that holds it. */
module RegisterBits {

  const POLY: bv32 := 0x82f63b78
  const ONES: bv32 := 0xffff_ffff
  function Xor(a: bv32, b: bv32): bv32 { a ^ b }
  function Complement(c: bv32): bv32 { c ^ ONES }
  function LowBit(b: bv32): bv32 { b & 1 }
  function Half(b: bv32): bv32 { b >> 1 }
  function FromByte(n: bv8): bv32 { n as bv32 }
  function Low(c: bv32): bv8 { (c & 0xff) as bv8 }
  function High(c: bv32): bv32 { c & 0xffff_ff00 }
  function Drop(c: bv32): bv32 { c >> 8 }
  /** One shift of the register. */
  function Shift(c: bv32): bv32 { if c & 1 == 1 then (c >> 1) ^ POLY else c >> 1 }
  predicate Odd(c: bv32) { c & 1 == 1 }
  predicate Even(c: bv32) { c & 1 == 0 }
  function Wide(c: bv32): bv64 { c as bv64 }
  function Xor64(a: bv64, b: bv64): bv64 { a ^ b }
  function Drop64(a: bv64): bv64 { a >> 8 }
  function Low64(a: bv64): bv8 { (a & 0xff) as bv8 }

  lemma ComplementTwice(c: bv32)
    ensures Complement(Complement(c)) == c
  {
  }

  lemma ShiftShape(c: bv32)
    ensures Shift(c) == if Odd(c) then Xor(Half(c), POLY) else Half(c)
  {
  }

  lemma OddXor(a: bv32, b: bv32)
    ensures Odd(Xor(a, b)) == (Odd(a) != Odd(b))
  {
  }

  lemma HalfXor(a: bv32, b: bv32)
    ensures Half(Xor(a, b)) == Xor(Half(a), Half(b))
  {
  }

  lemma AssociatesAt(a: bv32, b: bv32, c: bv32, u: bv32, v: bv32)
    requires u == b ^ c && v == a ^ b
    ensures a ^ u == v ^ c
  {
  }

  lemma XorAssociates(a: bv32, b: bv32, c: bv32)
    ensures Xor(a, Xor(b, c)) == Xor(Xor(a, b), c)
  {
    AssociatesAt(a, b, c, Xor(b, c), Xor(a, b));
  }

  lemma XorCommutes(a: bv32, b: bv32)
    ensures Xor(a, b) == Xor(b, a)
  {
  }

  lemma XorUndoes(a: bv32, b: bv32)
    ensures Xor(Xor(a, b), b) == a
  {
  }

  lemma LowBitLaws(c: bv32, b: bv32, p: bv32)
    ensures (c ^ (b & 1)) & 1 == (c ^ b) & 1
    ensures ((c ^ (b & 1)) >> 1) ^ (b >> 1) == (c ^ b) >> 1
    ensures (((c ^ (b & 1)) >> 1) ^ p) ^ (b >> 1) == ((c ^ b) >> 1) ^ p
  {
  }

  lemma ShiftAfterBit(c: bv32, b: bv32)
    ensures Shift(c ^ (b & 1)) ^ (b >> 1) == Shift(c ^ b)
  {
    LowBitLaws(c, b, POLY);
  }

  lemma ShiftAfterBitAt(c: bv32, b: bv32, x: bv32, h: bv32, y: bv32)
    requires x == c ^ (b & 1) && h == b >> 1 && y == c ^ b
    ensures Shift(x) ^ h == Shift(y)
  {
    ShiftAfterBit(c, b);
  }

  lemma ShiftLowBit(c: bv32, b: bv32)
    ensures Xor(Shift(Xor(c, LowBit(b))), Half(b)) == Shift(Xor(c, b))
  {
    ShiftAfterBitAt(c, b, Xor(c, LowBit(b)), Half(b), Xor(c, b));
  }

  lemma ShiftEven()
    ensures forall c :: Even(c) ==> Shift(c) == Half(c)
  {
  }

  lemma LowByteClear(c: bv32)
    requires c & 0xff == 0
    ensures Even(c) && Even(c >> 1) && Even(c >> 2) && Even(c >> 3)
    ensures Even(c >> 4) && Even(c >> 5) && Even(c >> 6) && Even(c >> 7)
    ensures Half(c) == c >> 1 && Half(c >> 1) == c >> 2 && Half(c >> 2) == c >> 3 && Half(c >> 3) == c >> 4
    ensures Half(c >> 4) == c >> 5 && Half(c >> 5) == c >> 6 && Half(c >> 6) == c >> 7
  {
  }

  lemma ByteStepBits(c: bv32, x: bv32)
    ensures Low64(Xor64(Wide(c), Wide(x))) == Low(Xor(c, x))
  {
  }

  lemma DropByte(c: bv32, n: bv8)
    ensures Drop(Xor(c, FromByte(n))) == Drop(c)
  {
  }

  lemma ShiftWide(c: bv32)
    ensures (c as bv64) >> 8 == (c >> 8) as bv64
  {
  }

  lemma DropWide(c: bv32)
    ensures Drop64(Wide(c)) == Wide(Drop(c))
  {
    calc {
      Drop64(Wide(c));
      Wide(c) >> 8;
      { assert Wide(c) == c as bv64; }
      (c as bv64) >> 8;
      { ShiftWide(c); }
      (c >> 8) as bv64;
      Wide(c >> 8);
      Wide(Drop(c));
    }
  }

  lemma XorWide(a: bv32, b: bv32)
    ensures Xor64(Wide(a), Wide(b)) == Wide(Xor(a, b))
  {
  }

  lemma SplitAt(c: bv32, l: bv8, x: bv32, h: bv32, d: bv32)
    requires l == (c & 0xff) as bv8 && x == l as bv32 && h == c & 0xffff_ff00 && d == c >> 8
    ensures c == x ^ h && h & 0xff == 0 && h >> 8 == d
  {
  }

  lemma SplitLowByte(c: bv32)
    ensures c == Xor(FromByte(Low(c)), High(c))
    ensures High(c) & 0xff == 0 && High(c) >> 8 == Drop(c)
  {
    SplitAt(c, Low(c), FromByte(Low(c)), High(c), Drop(c));
  }
  // ---------------------------------------------------------------------------------------
  // The bytes of the 64-bit value that the eight-byte step looks up.

  function Xor8(a: bv8, b: bv8): bv8 { a ^ b }

  /** Eight bytes read as one little-endian 64-bit value. */
  function Load64(b0: bv8, b1: bv8, b2: bv8, b3: bv8, b4: bv8, b5: bv8, b6: bv8, b7: bv8): bv64 {
    (b0 as bv64) | ((b1 as bv64) << 8) | ((b2 as bv64) << 16) | ((b3 as bv64) << 24)
    | ((b4 as bv64) << 32) | ((b5 as bv64) << 40) | ((b6 as bv64) << 48) | ((b7 as bv64) << 56)
  }

  function Part0(x: bv64): bv8 { (x & 0xff) as bv8 }
  function Part1(x: bv64): bv8 { ((x >> 8) & 0xff) as bv8 }
  function Part2(x: bv64): bv8 { ((x >> 16) & 0xff) as bv8 }
  function Part3(x: bv64): bv8 { ((x >> 24) & 0xff) as bv8 }
  function Part4(x: bv64): bv8 { ((x >> 32) & 0xff) as bv8 }
  function Part5(x: bv64): bv8 { ((x >> 40) & 0xff) as bv8 }
  function Part6(x: bv64): bv8 { ((x >> 48) & 0xff) as bv8 }
  function Part7(x: bv64): bv8 { (x >> 56) as bv8 }

  lemma LowXor(a: bv32, n: bv8)
    ensures Low(Xor(a, FromByte(n))) == Xor8(Low(a), n)
  {
  }

  lemma Part0Xor(a: bv64, b: bv64) ensures Part0(Xor64(a, b)) == Xor8(Part0(a), Part0(b)) { }
  lemma Part1Xor(a: bv64, b: bv64) ensures Part1(Xor64(a, b)) == Xor8(Part1(a), Part1(b)) { }
  lemma Part2Xor(a: bv64, b: bv64) ensures Part2(Xor64(a, b)) == Xor8(Part2(a), Part2(b)) { }
  lemma Part3Xor(a: bv64, b: bv64) ensures Part3(Xor64(a, b)) == Xor8(Part3(a), Part3(b)) { }
  lemma Part4Xor(a: bv64, b: bv64) ensures Part4(Xor64(a, b)) == Xor8(Part4(a), Part4(b)) { }
  lemma Part5Xor(a: bv64, b: bv64) ensures Part5(Xor64(a, b)) == Xor8(Part5(a), Part5(b)) { }
  lemma Part6Xor(a: bv64, b: bv64) ensures Part6(Xor64(a, b)) == Xor8(Part6(a), Part6(b)) { }
  lemma Part7Xor(a: bv64, b: bv64) ensures Part7(Xor64(a, b)) == Xor8(Part7(a), Part7(b)) { }

  lemma PartsLoad(b0: bv8, b1: bv8, b2: bv8, b3: bv8, b4: bv8, b5: bv8, b6: bv8, b7: bv8)
    ensures var x := Load64(b0, b1, b2, b3, b4, b5, b6, b7);
      Part0(x) == b0 && Part1(x) == b1 && Part2(x) == b2 && Part3(x) == b3
      && Part4(x) == b4 && Part5(x) == b5 && Part6(x) == b6 && Part7(x) == b7
  {
  }

  lemma PartsWide(c: bv32)
    ensures Part0(Wide(c)) == Low(c)
    ensures Part1(Wide(c)) == Low(Drop(c))
    ensures Part2(Wide(c)) == Low(Drop(Drop(c)))
    ensures Part3(Wide(c)) == Low(Drop(Drop(Drop(c))))
    ensures Part4(Wide(c)) == Low(Drop(Drop(Drop(Drop(c)))))
    ensures Part5(Wide(c)) == Low(Drop(Drop(Drop(Drop(Drop(c))))))
    ensures Part6(Wide(c)) == Low(Drop(Drop(Drop(Drop(Drop(Drop(c)))))))
    ensures Part7(Wide(c)) == Low(Drop(Drop(Drop(Drop(Drop(Drop(Drop(c))))))))
  {
  }

  /** Byte k of the register xored with eight message bytes, for each k. */
  lemma Parts(c: bv32, b0: bv8, b1: bv8, b2: bv8, b3: bv8, b4: bv8, b5: bv8, b6: bv8, b7: bv8)
    ensures var x := Xor64(Wide(c), Load64(b0, b1, b2, b3, b4, b5, b6, b7));
      && Part0(x) == Low(Xor(c, FromByte(b0)))
      && Part1(x) == Low(Xor(Drop(c), FromByte(b1)))
      && Part2(x) == Low(Xor(Drop(Drop(c)), FromByte(b2)))
      && Part3(x) == Low(Xor(Drop(Drop(Drop(c))), FromByte(b3)))
      && Part4(x) == Low(Xor(Drop(Drop(Drop(Drop(c)))), FromByte(b4)))
      && Part5(x) == Low(Xor(Drop(Drop(Drop(Drop(Drop(c))))), FromByte(b5)))
      && Part6(x) == Low(Xor(Drop(Drop(Drop(Drop(Drop(Drop(c)))))), FromByte(b6)))
      && Part7(x) == Low(Xor(Drop(Drop(Drop(Drop(Drop(Drop(Drop(c))))))), FromByte(b7)))
  {
    var w, l := Wide(c), Load64(b0, b1, b2, b3, b4, b5, b6, b7);
    PartsLoad(b0, b1, b2, b3, b4, b5, b6, b7);
    PartsWide(c);
    Part0Xor(w, l);
    LowXor(c, b0);
    Part1Xor(w, l);
    LowXor(Drop(c), b1);
    Part2Xor(w, l);
    LowXor(Drop(Drop(c)), b2);
    Part3Xor(w, l);
    LowXor(Drop(Drop(Drop(c))), b3);
    Part4Xor(w, l);
    LowXor(Drop(Drop(Drop(Drop(c)))), b4);
    Part5Xor(w, l);
    LowXor(Drop(Drop(Drop(Drop(Drop(c))))), b5);
    Part6Xor(w, l);
    LowXor(Drop(Drop(Drop(Drop(Drop(Drop(c)))))), b6);
    Part7Xor(w, l);
    LowXor(Drop(Drop(Drop(Drop(Drop(Drop(Drop(c))))))), b7);
  }

  lemma FourDrops(c: bv32)
    ensures Drop(Drop(Drop(Drop(c)))) == 0 && Drop(0) == 0
  {
  }

  lemma XorZero(c: bv32)
    ensures Xor(0, c) == c && Xor(c, 0) == c
  {
  }
}

/** CRC-32C of blockalign_src/crc32c-adler.cpp: the slicing-by-8 loop against the bit-serial register. */
module Crc32c {
  import opened RegisterBits
  import opened ShiftRegister

  /** The bits of a byte, in the order in which they enter the register. */
  const BIT_ORDER: seq<nat> := [0, 1, 2, 3, 4, 5, 6, 7]

  // ---------------------------------------------------------------------------------------
  // Specification: a shift register fed one message bit at a time, least significant bit first.

  function FeedByte(c: bv32, b: bv8): bv32 {
    FeedBits(Xor, LowBit, Half, Shift, c, FromByte(b), |BIT_ORDER|)
  }

  /** CRC-32C of s, continuing from the checksum of what came before it. */
  function Checksum(seed: bv32, s: seq<bv8>): bv32 {
    Masked(FeedByte, Complement, seed, s)
  }

  /** The law that lets next_blockhash extend a checksum. */
  lemma ChecksumConcat(seed: bv32, s: seq<bv8>, t: seq<bv8>)
    ensures Checksum(Checksum(seed, s), t) == Checksum(seed, s + t)
  {
    forall c ensures Complement(Complement(c)) == c { ComplementTwice(c); }
    MaskedConcat(FeedByte, Complement, seed, s, t);
  }

  // ---------------------------------------------------------------------------------------
  // The register with all-zero input is linear over GF(2).

  /** The effect on the register of one zero byte. */
  function ZeroByte(c: bv32): bv32 { Iterate(Shift, |BIT_ORDER|, c) }

  lemma XorGroup()
    ensures Associative(Xor) && Commutative(Xor) && SelfInverse(Xor)
  {
    forall a, b, c ensures Xor(Xor(a, b), c) == Xor(a, Xor(b, c)) { XorAssociates(a, b, c); }
    forall a, b ensures Xor(a, b) == Xor(b, a) { XorCommutes(a, b); }
    forall a, b ensures Xor(Xor(a, b), b) == a { XorUndoes(a, b); }
  }

  lemma ShiftLinear()
    ensures Linear(Xor, Shift)
  {
    XorGroup();
    forall a, b ensures Shift(Xor(a, b)) == Xor(Shift(a), Shift(b)) {
      ShiftShape(a);
      ShiftShape(b);
      ShiftShape(Xor(a, b));
      OddXor(a, b);
      HalfXor(a, b);
      ShiftAdds(Xor, Odd, Half, Shift, POLY, a, b);
    }
  }

  lemma ZeroByteLinear()
    ensures Linear(Xor, ZeroByte)
  {
    ShiftLinear();
    forall a, b ensures ZeroByte(Xor(a, b)) == Xor(ZeroByte(a), ZeroByte(b)) {
      IterateLinear(Xor, Shift, |BIT_ORDER|, a, b);
    }
  }

  lemma EighthHalf(c: bv32)
    ensures Iterate(Half, |BIT_ORDER|, c) == c >> 8
  {
    EightSteps(Half, |BIT_ORDER|, c, c >> 1, c >> 2, c >> 3, c >> 4, c >> 5, c >> 6, c >> 7, c >> 8);
  }

  lemma HalvesClear(x: bv32)
    requires x < 256
    ensures Iterate(Half, |BIT_ORDER|, x) == 0
  {
    EighthHalf(x);
  }

  lemma ByteHalvesClear(b: bv8)
    ensures Iterate(Half, |BIT_ORDER|, FromByte(b)) == 0
  {
    HalvesClear(FromByte(b));
  }

  /** One step that feeds the low bit is one shift of the register with all the bits xored in. */
  lemma LowBitSteps()
    ensures forall c, b :: Xor(Shift(Xor(c, LowBit(b))), Half(b)) == Shift(Xor(c, b))
  {
    hide Xor, Shift, LowBit, Half;
    forall c, b ensures Xor(Shift(Xor(c, LowBit(b))), Half(b)) == Shift(Xor(c, b)) { ShiftLowBit(c, b); }
  }

  lemma NothingToXor()
    ensures forall c :: Xor(c, 0) == c
  {
    forall c ensures Xor(c, 0) == c { XorZero(c); }
  }

  lemma XorIsXor(c: bv32, x: bv32) ensures Xor(c, x) == c ^ x { }

  /** Feeding a byte is xoring it into the low end and then feeding a zero byte. */
  lemma FeedByteIsZeroByte(c: bv32, b: bv8)
    ensures FeedByte(c, b) == ZeroByte(c ^ FromByte(b))
  {
    var x := FromByte(b);
    ByteHalvesClear(b);
    LowBitSteps();
    NothingToXor();
    XorIsXor(c, x);
    hide Xor, Shift, Half, LowBit, FromByte, Iterate, FeedBits;
    FeedBitsIsShifts(Xor, LowBit, Half, Shift, 0, c, x, |BIT_ORDER|);
  }

  /** A register whose low byte is clear is shifted out unchanged. */
  lemma ZeroByteHigh(c: bv32)
    requires c & 0xff == 0
    ensures ZeroByte(c) == c >> 8
  {
    LowByteClear(c);
    EighthHalf(c);
    ShiftEven();
    EightAgree(Shift, Half, Even, |BIT_ORDER|, c, c >> 1, c >> 2, c >> 3, c >> 4, c >> 5, c >> 6, c >> 7);
  }

  lemma ZeroByteSplit(c: bv32)
    ensures LookupAt(ZeroByte, c) && ShiftsOutAt(ZeroByte, c)
  {
    SplitLowByte(c);
    ZeroByteHigh(High(c));
    ZeroByteLinear();
    LinearAt(Xor, ZeroByte, FromByte(Low(c)), High(c), c);
  }

  /** What the table-driven loop needs to know about the register; the polynomial enters nowhere else. */
  ghost predicate LookupAt(f: bv32 -> bv32, c: bv32) { f(c) == Xor(f(FromByte(Low(c))), Drop(c)) }
  ghost predicate ShiftsOutAt(f: bv32 -> bv32, c: bv32) { f(High(c)) == Drop(c) }
  ghost predicate FeedsAt(f: bv32 -> bv32, feed: (bv32, bv8) -> bv32, c: bv32, b: bv8) {
    feed(c, b) == f(Xor(c, FromByte(b)))
  }

  ghost predicate ByteRegister(f: bv32 -> bv32, feed: (bv32, bv8) -> bv32) {
    && Linear(Xor, f) && Associative(Xor)
    && (forall c :: LookupAt(f, c))
    && (forall c :: ShiftsOutAt(f, c))
    && (forall c, b: bv8 :: FeedsAt(f, feed, c, b))
  }

  lemma Crc32cIsByteRegister()
    ensures ByteRegister(ZeroByte, FeedByte)
  {
    ZeroByteLinear();
    XorGroup();
    forall c ensures LookupAt(ZeroByte, c) && ShiftsOutAt(ZeroByte, c) { ZeroByteSplit(c); }
    forall c, b: bv8 ensures FeedsAt(ZeroByte, FeedByte, c, b) { FeedByteIsZeroByte(c, b); }
  }

  /** The eight shifts of one entry of the first table (crc32c-adler.cpp:37-45). */
  method EightShifts(n: bv8) returns (crc: bv32)
    ensures crc == ZeroByte(FromByte(n))
  {
    crc := FromByte(n);
    for bit := 0 to |BIT_ORDER|
      invariant crc == Iterate(Shift, bit, FromByte(n))
    {
      IterateLast(Shift, bit, FromByte(n));
      crc := Shift(crc);
    }
  }
}
