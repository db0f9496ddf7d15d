/** Fixed-width little-endian integers, as the programs write them with memcpy and << / >>. */
module Bytes {

  type Byte = x: int | 0 <= x < 256

  function Pow256(k: nat): (p: nat)
    ensures p >= 1
  {
    if k == 0 then 1 else 256 * Pow256(k - 1)
  }

  /** The low k bytes of v, least significant first. */
  function LittleEndian(v: nat, k: nat): (s: seq<Byte>)
    ensures |s| == k
  {
    if k == 0 then [] else [v % 256] + LittleEndian(v / 256, k - 1)
  }

  function FromLittleEndian(s: seq<Byte>): nat {
    if s == [] then 0 else s[0] + 256 * FromLittleEndian(s[1..])
  }

  lemma {:induction false} LittleEndianRoundTrip(v: nat, k: nat)
    requires v < Pow256(k)
    ensures FromLittleEndian(LittleEndian(v, k)) == v
  {
    if k != 0 {
      LittleEndianRoundTrip(v / 256, k - 1);
      var s := LittleEndian(v, k);
      assert s[0] == v % 256 && s[1..] == LittleEndian(v / 256, k - 1);
    }
  }

  function Concat(pieces: seq<seq<Byte>>): seq<Byte> {
    if pieces == [] then [] else Concat(pieces[..|pieces| - 1]) + pieces[|pieces| - 1]
  }

  lemma ConcatEmpty()
    ensures Concat([]) == []
  {
  }

  const TWO_31: int := 0x8000_0000
  const TWO_32: int := 0x1_0000_0000
  const INT_MAX: int := 0x7fff_ffff

  /** The C cast of a wider value to a 32-bit int. */
  function CastInt32(x: int): (r: int)
    ensures -TWO_31 <= r < TWO_31
    ensures r % TWO_32 == x % TWO_32
  {
    var w := x % TWO_32;
    if w < TWO_31 then w else w - TWO_32
  }

  predicate FitsInt32(x: int) { -TWO_31 <= x < TWO_31 }

  /** The cast keeps exactly the values that fit; any other value moves by a multiple of 2^32. */
  lemma CastInt32Exact(x: int)
    ensures CastInt32(x) == x <==> FitsInt32(x)
    ensures !FitsInt32(x) ==> CastInt32(x) <= x - TWO_32 || CastInt32(x) >= x + TWO_32
  {
  }

  /** A 32-bit int written by memcpy and read back. */
  function Int32Bytes(x: int): (s: seq<Byte>)
    ensures |s| == 4
  {
    LittleEndian(x % TWO_32, 4)
  }

  function FromInt32Bytes(s: seq<Byte>): int
    requires |s| == 4
  {
    CastInt32(FromLittleEndian(s))
  }

  lemma Int32RoundTrip(x: int)
    requires FitsInt32(x)
    ensures FromInt32Bytes(Int32Bytes(x)) == x
  {
    assert Pow256(4) == TWO_32 by {
      assert Pow256(1) == 256;
      assert Pow256(2) == 65536;
      assert Pow256(3) == 16777216;
    }
    LittleEndianRoundTrip(x % TWO_32, 4);
  }

  lemma RemainderUnique(x: nat, m: nat, q: nat, r: nat)
    requires r < m && x == r + m * q
    ensures x % m == r
  {
    assert m * (x / m - q) == r - x % m;
    MultipleGrows(m, x / m - q);
  }

  lemma MultipleGrows(m: nat, d: int)
    ensures d >= 1 ==> m * d >= m
    ensures d <= -1 ==> m * d <= 0 - m
  {
  }

  /** Two digits packed into one number come apart again. */
  lemma Unpack(hi: nat, lo: nat, base: nat)
    requires lo < base
    ensures (hi * base + lo) / base == hi && (hi * base + lo) % base == lo
  {
    var x := hi * base + lo;
    assert base * (x / base - hi) == lo - x % base;
    MultipleGrows(base, x / base - hi);
  }
}
