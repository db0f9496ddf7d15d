/** The tables of crc32c_init_sw and the slicing-by-8 loop of crc32c_sw, over any byte register f. */
module Crc32cTables {
  import opened RegisterBits
  import opened ShiftRegister
  import opened Crc32c

  /** table[k][n] is the register after byte n and then k zero bytes. */
  function TableEntry(f: bv32 -> bv32, k: nat, n: bv8): bv32 { Iterate(f, k + 1, FromByte(n)) }

  function Index(n: bv8): (i: int)
    ensures 0 <= i < 256
  {
    n as int
  }

  lemma IndexInverse(n: bv8)
    ensures Index(n) as bv8 == n
  {
  }

  ghost predicate IsTable(table: array2<bv32>, f: bv32 -> bv32)
    reads table
  {
    && table.Length0 == 8 && table.Length1 == 256
    && forall j, b | 0 <= j < 8 :: table[j, Index(b)] == TableEntry(f, j, b)
  }

  // ---------------------------------------------------------------------------------------
  // Construction

  /** The bytes in the order of their indices. */
  ghost predicate InOrder(bytes: seq<bv8>) {
    |bytes| == 256 && forall b :: bytes[Index(b)] == b
  }

  /** Rows below k are complete for the columns below n. */
  ghost predicate Filled(table: array2<bv32>, f: bv32 -> bv32, bytes: seq<bv8>, k: nat, n: nat)
    reads table
    requires table.Length0 == 8 && table.Length1 == |bytes| && k <= 8 && n <= |bytes|
  {
    forall j, i | 0 <= j < k && 0 <= i < n :: table[j, i] == TableEntry(f, j, bytes[i])
  }

  ghost predicate ColumnFilled(table: array2<bv32>, f: bv32 -> bv32, k: nat, n: nat, b: bv8)
    reads table
    requires k <= table.Length0 && n < table.Length1
  {
    forall j | 0 <= j < k :: table[j, n] == TableEntry(f, j, b)
  }

  /** One lookup in the first row feeds a zero byte. */
  lemma LookupEntry(f: bv32 -> bv32, c: bv32)
    requires LookupAt(f, c)
    ensures f(c) == Xor(TableEntry(f, 0, Low(c)), Drop(c))
  {
    FirstIterate(f, FromByte(Low(c)));
  }

  method FirstEntry(n: bv8) returns (crc: bv32)
    ensures crc == TableEntry(ZeroByte, 0, n)
  {
    crc := EightShifts(n);
    FirstIterate(ZeroByte, FromByte(n));
  }

  method FillFirstRow(table: array2<bv32>, bytes: seq<bv8>)
    requires table.Length0 == 8 && table.Length1 == |bytes|
    modifies table
    ensures Filled(table, ZeroByte, bytes, 1, |bytes|)
  {
    for n := 0 to |bytes|
      invariant Filled(table, ZeroByte, bytes, 1, n)
    {
      var crc := FirstEntry(bytes[n]);
      table[0, n] := crc;
    }
  }

  lemma NextEntry(f: bv32 -> bv32, k: nat, n: bv8)
    ensures TableEntry(f, k + 1, n) == f(TableEntry(f, k, n))
  {
    IterateLast(f, k + 1, FromByte(n));
  }

  method Lookup(table: array2<bv32>, ghost f: bv32 -> bv32, bytes: seq<bv8>, crc: bv32) returns (next: bv32)
    requires InOrder(bytes) && table.Length0 == 8 && table.Length1 == |bytes| && Filled(table, f, bytes, 1, |bytes|)
    requires LookupAt(f, crc)
    ensures next == f(crc)
  {
    LookupEntry(f, crc);
    var entry := table[0, Index(Low(crc))];
    next := Xor(entry, Drop(crc));
  }

  method StoreEntry(table: array2<bv32>, ghost f: bv32 -> bv32, ghost bytes: seq<bv8>, k: nat, n: nat, crc: bv32)
    requires table.Length0 == 8 && table.Length1 == |bytes| && n < |bytes| && 0 < k < 8
    requires Filled(table, f, bytes, 1, |bytes|) && Filled(table, f, bytes, 8, n)
    requires ColumnFilled(table, f, k, n, bytes[n]) && crc == TableEntry(f, k, bytes[n])
    modifies table
    ensures Filled(table, f, bytes, 1, |bytes|) && Filled(table, f, bytes, 8, n)
    ensures ColumnFilled(table, f, k + 1, n, bytes[n])
  {
    table[k, n] := crc;
  }

  method FillColumn(table: array2<bv32>, ghost f: bv32 -> bv32, bytes: seq<bv8>, n: nat)
    requires InOrder(bytes) && table.Length0 == 8 && table.Length1 == |bytes| && n < |bytes|
    requires Filled(table, f, bytes, 1, |bytes|) && Filled(table, f, bytes, 8, n)
    requires forall c :: LookupAt(f, c)
    modifies table
    ensures Filled(table, f, bytes, 1, |bytes|) && Filled(table, f, bytes, 8, n + 1)
  {
    var crc := table[0, n];
    for k := 1 to 8
      invariant Filled(table, f, bytes, 1, |bytes|) && Filled(table, f, bytes, 8, n)
      invariant ColumnFilled(table, f, k, n, bytes[n]) && crc == TableEntry(f, k - 1, bytes[n])
    {
      assert LookupAt(f, crc);
      NextEntry(f, k - 1, bytes[n]);
      crc := Lookup(table, f, bytes, crc);
      StoreEntry(table, f, bytes, k, n, crc);
    }
    ColumnComplete(table, f, bytes, n);
  }

  lemma ColumnComplete(table: array2<bv32>, f: bv32 -> bv32, bytes: seq<bv8>, n: nat)
    requires table.Length0 == 8 && table.Length1 == |bytes| && n < |bytes|
    requires Filled(table, f, bytes, 8, n) && ColumnFilled(table, f, 8, n, bytes[n])
    ensures Filled(table, f, bytes, 8, n + 1)
  {
  }

  method FillColumns(table: array2<bv32>, ghost f: bv32 -> bv32, bytes: seq<bv8>)
    requires InOrder(bytes) && table.Length0 == 8 && table.Length1 == 256 && Filled(table, f, bytes, 1, |bytes|)
    requires forall c :: LookupAt(f, c)
    modifies table
    ensures IsTable(table, f)
  {
    for n := 0 to 256
      invariant Filled(table, f, bytes, 1, |bytes|) && Filled(table, f, bytes, 8, n)
    {
      FillColumn(table, f, bytes, n);
    }
    forall j, b: bv8 | 0 <= j < 8 ensures table[j, Index(b)] == TableEntry(f, j, b) {
      assert bytes[Index(b)] == b;
    }
  }

  lemma IndicesInOrder()
    ensures InOrder(seq(256, i requires 0 <= i < 256 => i as bv8))
  {
    forall b: bv8 ensures Index(b) as bv8 == b { IndexInverse(b); }
  }

  /** crc32c_init_sw fills the global table. */
  method InitTable(table: array2<bv32>)
    requires table.Length0 == 8 && table.Length1 == 256
    modifies table
    ensures IsTable(table, ZeroByte)
  {
    var bytes := seq(256, i requires 0 <= i < 256 => i as bv8);
    IndicesInOrder();
    Crc32cIsByteRegister();
    FillFirstRow(table, bytes);
    FillColumns(table, ZeroByte, bytes);
  }

  // ---------------------------------------------------------------------------------------
  // One byte

  method ByteStep(table: array2<bv32>, ghost f: bv32 -> bv32, ghost feed: (bv32, bv8) -> bv32, crc: bv64, b: bv8,
      ghost c: bv32)
    returns (next: bv64)
    requires IsTable(table, f) && crc == Wide(c)
    requires LookupAt(f, Xor(c, FromByte(b))) && FeedsAt(f, feed, c, b)
    ensures next == Wide(feed(c, b))
  {
    ByteStepBits(c, FromByte(b));
    var entry := table[0, Index(Low64(Xor64(crc, Wide(FromByte(b)))))];
    LookupEntry(f, Xor(c, FromByte(b)));
    DropByte(c, b);
    DropWide(c);
    XorWide(entry, Drop(c));
    next := Xor64(Wide(entry), Drop64(crc));
  }

  // ---------------------------------------------------------------------------------------
  // Eight bytes

  /** The table index that byte b selects when the register's unconsumed part is q. */
  function IndexByte(q: bv32, b: bv8): bv8 { Low(Xor(q, FromByte(b))) }

  /** Feeding one byte while the unconsumed part q of the register is kept apart from the rest s. */
  lemma FeedStep(f: bv32 -> bv32, feed: (bv32, bv8) -> bv32, s: bv32, q: bv32, b: bv8)
    requires ByteRegister(f, feed)
    ensures feed(Xor(s, q), b) == Xor(f(Xor(s, FromByte(IndexByte(q, b)))), Drop(q))
  {
    var z := Xor(q, FromByte(b));
    SplitLowByte(z);
    DropByte(q, b);
    assert FeedsAt(f, feed, Xor(s, q), b) && ShiftsOutAt(f, z);
    SliceStep(Xor, f, s, q, FromByte(b), FromByte(Low(z)), High(z));
  }

  function FeedEight(feed: (bv32, bv8) -> bv32, c: bv32, b0: bv8, b1: bv8, b2: bv8, b3: bv8, b4: bv8, b5: bv8, b6: bv8,
      b7: bv8): bv32 {
    feed(feed(feed(feed(feed(feed(feed(feed(c, b0), b1), b2), b3), b4), b5), b6), b7)
  }

  function LookupEight(f: bv32 -> bv32, i0: bv8, i1: bv8, i2: bv8, i3: bv8, i4: bv8, i5: bv8, i6: bv8, i7: bv8): bv32 {
    Xor(Xor(Xor(Xor(Xor(Xor(Xor(TableEntry(f, 7, i0), TableEntry(f, 6, i1)), TableEntry(f, 5, i2)),
        TableEntry(f, 4, i3)),
                        TableEntry(f, 3, i4)), TableEntry(f, 2, i5)), TableEntry(f, 1, i6)), TableEntry(f, 0, i7))
  }

  /** Eight bytes at once: one lookup per byte, all independent. */
  lemma SliceEight(f: bv32 -> bv32, feed: (bv32, bv8) -> bv32, c: bv32, b0: bv8, b1: bv8, b2: bv8, b3: bv8, b4: bv8,
      b5: bv8, b6: bv8, b7: bv8)
    requires ByteRegister(f, feed)
    ensures FeedEight(feed, c, b0, b1, b2, b3, b4, b5, b6, b7) ==
            LookupEight(f, IndexByte(c, b0), IndexByte(Drop(c), b1), IndexByte(Drop(Drop(c)), b2),
                        IndexByte(Drop(Drop(Drop(c))), b3), IndexByte(0, b4), IndexByte(0, b5), IndexByte(0, b6),
                            IndexByte(0, b7))
  {
    var q1, q2, q3 := Drop(c), Drop(Drop(c)), Drop(Drop(Drop(c)));
    var x0, x1 := FromByte(IndexByte(c, b0)), FromByte(IndexByte(q1, b1));
    var x2, x3 := FromByte(IndexByte(q2, b2)), FromByte(IndexByte(q3, b3));
    var x4, x5 := FromByte(IndexByte(0, b4)), FromByte(IndexByte(0, b5));
    var x6, x7 := FromByte(IndexByte(0, b6)), FromByte(IndexByte(0, b7));
    FourDrops(c);
    XorZero(c);
    XorZero(x0);
    var s1 := f(x0);
    FeedStep(f, feed, 0, c, b0);
    var s2 := f(Xor(s1, x1));
    FeedStep(f, feed, s1, q1, b1);
    var s3 := f(Xor(s2, x2));
    FeedStep(f, feed, s2, q2, b2);
    var s4 := f(Xor(s3, x3));
    FeedStep(f, feed, s3, q3, b3);
    var s5 := f(Xor(s4, x4));
    FeedStep(f, feed, s4, 0, b4);
    var s6 := f(Xor(s5, x5));
    FeedStep(f, feed, s5, 0, b5);
    var s7 := f(Xor(s6, x6));
    FeedStep(f, feed, s6, 0, b6);
    FeedStep(f, feed, s7, 0, b7);
    XorZero(f(Xor(s7, x7)));
    HornerEight(Xor, f, x0, x1, x2, x3, x4, x5, x6, x7);
  }

  lemma WideXors(e7: bv32, e6: bv32, e5: bv32, e4: bv32, e3: bv32, e2: bv32, e1: bv32, e0: bv32)
    ensures Wide(Xor(Xor(Xor(Xor(Xor(Xor(Xor(e7, e6), e5), e4), e3), e2), e1), e0)) ==
            Xor64(Xor64(Xor64(Xor64(Xor64(Xor64(Xor64(Wide(e7), Wide(e6)), Wide(e5)), Wide(e4)), Wide(e3)), Wide(e2)),
                Wide(e1)), Wide(e0))
  {
    var x6 := Xor(e7, e6);
    var x5 := Xor(x6, e5);
    var x4 := Xor(x5, e4);
    var x3 := Xor(x4, e3);
    var x2 := Xor(x3, e2);
    var x1 := Xor(x2, e1);
    XorWide(e7, e6);
    XorWide(x6, e5);
    XorWide(x5, e4);
    XorWide(x4, e3);
    XorWide(x3, e2);
    XorWide(x2, e1);
    XorWide(x1, e0);
  }

  /** The eight-byte step of crc32c_sw. */
  method WordStep(table: array2<bv32>, ghost f: bv32 -> bv32, ghost feed: (bv32, bv8) -> bv32, crc: bv64, ghost c: bv32,
                  b0: bv8, b1: bv8, b2: bv8, b3: bv8, b4: bv8, b5: bv8, b6: bv8, b7: bv8) returns (next: bv64)
    requires IsTable(table, f) && ByteRegister(f, feed) && crc == Wide(c)
    ensures next == Wide(FeedEight(feed, c, b0, b1, b2, b3, b4, b5, b6, b7))
  {
    var x := Xor64(crc, Load64(b0, b1, b2, b3, b4, b5, b6, b7));
    Parts(c, b0, b1, b2, b3, b4, b5, b6, b7);
    FourDrops(c);
    SliceEight(f, feed, c, b0, b1, b2, b3, b4, b5, b6, b7);
    var e7, e6, e5, e4 := table[7, Index(Part0(x))], table[6, Index(Part1(x))], table[5, Index(Part2(x))],
        table[4, Index(Part3(x))];
    var e3, e2, e1, e0 := table[3, Index(Part4(x))], table[2, Index(Part5(x))], table[1, Index(Part6(x))],
        table[0, Index(Part7(x))];
    WideXors(e7, e6, e5, e4, e3, e2, e1, e0);
    next := Xor64(Xor64(Xor64(Xor64(Xor64(Xor64(Xor64(Wide(e7), Wide(e6)), Wide(e5)), Wide(e4)), Wide(e3)), Wide(e2)),
        Wide(e1)), Wide(e0));
  }

  // ---------------------------------------------------------------------------------------
  // The loop

  lemma RegisterNext<T, D>(feed: (T, D) -> T, c: T, s: seq<D>, i: nat)
    requires i < |s|
    ensures Register(feed, c, s[..i + 1]) == feed(Register(feed, c, s[..i]), s[i])
  {
    assert s[..i + 1][..i] == s[..i];
  }

  lemma RegisterNextEight(feed: (bv32, bv8) -> bv32, c: bv32, s: seq<bv8>, i: nat)
    requires i + 8 <= |s|
    ensures Register(feed, c, s[..i + 8]) ==
            FeedEight(feed, Register(feed, c, s[..i]), s[i], s[i + 1], s[i + 2], s[i + 3], s[i + 4], s[i + 5],
                s[i + 6], s[i + 7])
  {
    RegisterNext(feed, c, s, i);
    RegisterNext(feed, c, s, i + 1);
    RegisterNext(feed, c, s, i + 2);
    RegisterNext(feed, c, s, i + 3);
    RegisterNext(feed, c, s, i + 4);
    RegisterNext(feed, c, s, i + 5);
    RegisterNext(feed, c, s, i + 6);
    RegisterNext(feed, c, s, i + 7);
  }

  /** crc holds the register after the first n bytes. */
  ghost predicate At(feed: (bv32, bv8) -> bv32, start: bv32, buf: seq<bv8>, n: nat, crc: bv64) {
    n <= |buf| && crc == Wide(Register(feed, start, buf[..n]))
  }

  /** The three loops of crc32c_sw on a buffer that starts at the given address. */
  method RunRegister(table: array2<bv32>, ghost f: bv32 -> bv32, ghost feed: (bv32, bv8) -> bv32, address: nat,
      buf: seq<bv8>, start: bv32)
    returns (crc: bv64)
    requires IsTable(table, f) && ByteRegister(f, feed)
    ensures crc == Wide(Register(feed, start, buf))
  {
    crc := Wide(start);
    AtEnds(feed, start, buf, crc);
    hide IsTable, ByteRegister, At, Wide, Register;
    var next;
    crc, next := Bytes(table, f, feed, crc, buf, 0, start, address, false);
    while |buf| - next >= 8
      invariant next <= |buf| && At(feed, start, buf, next, crc)
    {
      crc := EightBytes(table, f, feed, crc, buf, next, start);
      next := next + 8;
    }
    crc, next := Bytes(table, f, feed, crc, buf, next, start, address, true);
    AtEnds(feed, start, buf, crc);
  }

  /** Byte by byte, up to an address that is a multiple of eight or to the end. */
  method Bytes(table: array2<bv32>, ghost f: bv32 -> bv32, ghost feed: (bv32, bv8) -> bv32, crc: bv64, buf: seq<bv8>,
      from: nat,
               ghost start: bv32, address: nat, all: bool) returns (crc': bv64, next: nat)
    requires IsTable(table, f) && ByteRegister(f, feed)
    requires from <= |buf| && At(feed, start, buf, from, crc)
    ensures next <= |buf| && At(feed, start, buf, next, crc')
    ensures all ==> next == |buf|
  {
    hide IsTable, ByteRegister, At;
    crc', next := crc, from;
    while next < |buf| && (all || (address + next) % 8 != 0)
      invariant next <= |buf| && At(feed, start, buf, next, crc')
    {
      crc' := OneByte(table, f, feed, crc', buf, next, start);
      next := next + 1;
    }
  }

  lemma AtEnds(feed: (bv32, bv8) -> bv32, start: bv32, buf: seq<bv8>, crc: bv64)
    ensures At(feed, start, buf, 0, Wide(start))
    ensures At(feed, start, buf, |buf|, crc) ==> crc == Wide(Register(feed, start, buf))
  {
    assert buf[..|buf|] == buf;
  }

  method EightBytes(table: array2<bv32>, ghost f: bv32 -> bv32, ghost feed: (bv32, bv8) -> bv32, crc: bv64,
      buf: seq<bv8>, next: nat,
                    ghost start: bv32) returns (crc': bv64)
    requires IsTable(table, f) && ByteRegister(f, feed)
    requires next + 8 <= |buf| && At(feed, start, buf, next, crc)
    ensures At(feed, start, buf, next + 8, crc')
  {
    hide IsTable, ByteRegister, Wide, Register;
    RegisterNextEight(feed, start, buf, next);
    crc' := WordStep(table, f, feed, crc, Register(feed, start, buf[..next]), buf[next], buf[next + 1], buf[next + 2],
                     buf[next + 3], buf[next + 4], buf[next + 5], buf[next + 6], buf[next + 7]);
  }

  method OneByte(table: array2<bv32>, ghost f: bv32 -> bv32, ghost feed: (bv32, bv8) -> bv32, crc: bv64, buf: seq<bv8>,
      next: nat,
                 ghost start: bv32) returns (crc': bv64)
    requires IsTable(table, f) && ByteRegister(f, feed)
    requires next < |buf| && At(feed, start, buf, next, crc)
    ensures At(feed, start, buf, next + 1, crc')
  {
    ghost var c := Register(feed, start, buf[..next]);
    RegisterNext(feed, start, buf, next);
    assert LookupAt(f, Xor(c, FromByte(buf[next]))) && FeedsAt(f, feed, c, buf[next]);
    crc' := ByteStep(table, f, feed, crc, buf[next], c);
  }

  function Narrow(x: bv64): bv32 { (x & 0xffff_ffff) as bv32 }

  lemma NarrowWide(c: bv32)
    ensures Narrow(Wide(c)) == c
  {
  }

  /** crc32c_sw computes the CRC-32C of its buffer, whatever the buffer's alignment. */
  method Crc32cSw(table: array2<bv32>, address: nat, buf: seq<bv8>, crci: bv32) returns (crc: bv32)
    requires IsTable(table, ZeroByte)
    ensures crc == Checksum(crci, buf)
  {
    Crc32cIsByteRegister();
    var r := RunRegister(table, ZeroByte, FeedByte, address, buf, Complement(crci));
    NarrowWide(Register(FeedByte, Complement(crci), buf));
    crc := Complement(Narrow(r));
  }
}
