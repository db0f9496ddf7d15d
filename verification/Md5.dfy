/** Streaming MD5 over an arbitrary compression function, against sections 3.1 to 3.5 of RFC 1321. */
module Md5Spec {
  import opened Bytes

  type Word = x: int | 0 <= x < 0x1_0000_0000
  const WORDS: int := 0x1_0000_0000
  const LONGS: int := 0x1_0000_0000_0000_0000

  datatype Chain = Chain(a: Word, b: Word, c: Word, d: Word)
  type Compression = (Chain, seq<Byte>) -> Chain

  const INIT := Chain(0x67452301, 0xefcdab89, 0x98badcfe, 0x10325476)
  const BLOCK: nat := 64

  /** The chaining value after every complete block of the message. */
  function Absorb(f: Compression, s: Chain, m: seq<Byte>): Chain
    decreases |m|
  {
    if |m| < BLOCK then s else Absorb(f, f(s, m[..BLOCK]), m[BLOCK..])
  }

  /** The incomplete last block. */
  function Tail(m: seq<Byte>): (t: seq<Byte>)
    ensures |t| == |m| % BLOCK
  {
    m[|m| - |m| % BLOCK..]
  }

  function Zeros(n: nat): (z: seq<Byte>)
    ensures |z| == n && forall i | 0 <= i < n :: z[i] == 0
  {
    seq(n, i => 0)
  }

  /** A one bit, then zeros up to 56 modulo 64 bytes. */
  function PadLength(n: nat): (p: nat)
    ensures 1 <= p <= BLOCK && (n + p) % BLOCK == 56
  {
    if n % BLOCK < 56 then 56 - n % BLOCK else 120 - n % BLOCK
  }

  /** The length in bits of a message of n bytes, modulo 2^64. */
  function BitCount(n: nat): nat { 8 * n % LONGS }

  /** What follows a message of n bytes; the length in bits, modulo 2^64, comes last. */
  function Padding(n: nat): (p: seq<Byte>)
    ensures |p| == PadLength(n) + 8
  {
    [0x80] + Zeros(PadLength(n) - 1) + LittleEndian(BitCount(n), 8)
  }

  function Padded(m: seq<Byte>): (p: seq<Byte>)
    ensures |p| == |m| + PadLength(|m|) + 8 && m <= p
  {
    m + Padding(|m|)
  }

  /** Words as bytes, low-order byte first. */
  function EncodeWords(ws: seq<Word>): (d: seq<Byte>)
    ensures |d| == 4 * |ws|
  {
    if ws == [] then [] else EncodeWords(ws[..|ws| - 1]) + LittleEndian(ws[|ws| - 1], 4)
  }

  function Digest(f: Compression, m: seq<Byte>): (d: seq<Byte>)
    ensures |d| == 16
  {
    var s := Absorb(f, INIT, Padded(m));
    EncodeWords([s.a, s.b, s.c, s.d])
  }

  /** The words of a digest in their order. */
  function Words(s: Chain): seq<Word> { [s.a, s.b, s.c, s.d] }

  lemma {:induction false} EncodedWord(ws: seq<Word>, i: nat)
    requires i < |ws|
    ensures EncodeWords(ws)[4 * i..4 * i + 4] == LittleEndian(ws[i], 4)
    decreases |ws|
  {
    var n := |ws| - 1;
    var front, last := EncodeWords(ws[..n]), LittleEndian(ws[n], 4);
    assert EncodeWords(ws) == front + last;
    hide LittleEndian, EncodeWords;
    if i < n {
      EncodedWord(ws[..n], i);
      SliceFront(front, last, 4 * i, 4 * i + 4);
    } else {
      assert (front + last)[4 * n..4 * n + 4] == last;
    }
  }

  lemma SliceFront(a: seq<Byte>, b: seq<Byte>, lo: nat, hi: nat)
    requires lo <= hi <= |a|
    ensures (a + b)[lo..hi] == a[lo..hi]
  {
  }

  /** Bytes 4i to 4i + 3 of the digest are word i of the chaining value, low-order byte first. */
  lemma DigestWords(f: Compression, m: seq<Byte>, i: nat)
    requires i < 4
    ensures FromLittleEndian(Digest(f, m)[4 * i..4 * i + 4]) == Words(Absorb(f, INIT, Padded(m)))[i]
  {
    hide Absorb, Padded, LittleEndian, FromLittleEndian;
    var s := Absorb(f, INIT, Padded(m));
    EncodedWord(Words(s), i);
    FourBytes();
    LittleEndianRoundTrip(Words(s)[i], 4);
  }

  lemma FourBytes()
    ensures Pow256(4) == WORDS && Pow256(8) == LONGS
  {
    assert Pow256(2) == 0x1_0000 && Pow256(4) == WORDS && Pow256(6) == 0x1_0000_0000_0000;
  }

  /** The bytes of the initial words, as section 3.3 of RFC 1321 lists them. */
  const INIT_BYTES: seq<Byte> :=
    [0x01, 0x23, 0x45, 0x67, 0x89, 0xab, 0xcd, 0xef, 0xfe, 0xdc, 0xba, 0x98, 0x76, 0x54, 0x32, 0x10]

  lemma InitBytes(i: nat)
    requires i < 4
    ensures Words(INIT)[i] == FromLittleEndian(INIT_BYTES[4 * i..4 * i + 4])
  {
    hide FromLittleEndian;
    var b := INIT_BYTES[4 * i..4 * i + 4];
    assert b == [b[0], b[1], b[2], b[3]];
    FromFourBytes(b[0], b[1], b[2], b[3]);
  }

  lemma FromFourBytes(a: Byte, b: Byte, c: Byte, d: Byte)
    ensures FromLittleEndian([a, b, c, d]) == a + 256 * (b + 256 * (c + 256 * d))
  {
    assert [a, b, c, d][1..] == [b, c, d] && [b, c, d][1..] == [c, d] && [c, d][1..] == [d] && [d][1..] == [];
    assert FromLittleEndian([d]) == d;
    assert FromLittleEndian([c, d]) == c + 256 * d;
    assert FromLittleEndian([b, c, d]) == b + 256 * (c + 256 * d);
  }

  /** Sections 3.1 and 3.2: a one bit, zeros up to 56 modulo 64 bytes, and the length in bits. */
  lemma PaddedShape(m: seq<Byte>)
    ensures var p := Padded(m);
            var n := |p| - 8;
            && |p| % BLOCK == 0 && |m| < n <= |m| + BLOCK && p[..|m|] == m && p[|m|] == 0x80
            && (forall i | |m| < i < n :: p[i] == 0) && FromLittleEndian(p[n..]) == 8 * |m| % LONGS
  {
    hide LittleEndian, FromLittleEndian, PadLength;
    var p, k, bits := Padded(m), PadLength(|m|), LittleEndian(BitCount(|m|), 8);
    PaddedLength(|m|);
    FourBytes();
    LittleEndianRoundTrip(BitCount(|m|), 8);
    Layout(m, [0x80] + Zeros(k - 1), bits, p);
    forall i | |m| < i < |m| + k ensures p[i] == 0 { assert p[i] == ([0x80] + Zeros(k - 1))[i - |m|]; }
  }

  lemma PaddedLength(n: nat)
    ensures (n + PadLength(n) + 8) % BLOCK == 0
  {
  }

  lemma Layout(a: seq<Byte>, b: seq<Byte>, c: seq<Byte>, p: seq<Byte>)
    requires p == a + (b + c)
    ensures p[..|a|] == a && p[|a| + |b|..] == c && forall i | |a| <= i < |a| + |b| :: p[i] == b[i - |a|]
  {
  }

  lemma {:induction false} AbsorbAppend(f: Compression, s: Chain, a: seq<Byte>, b: seq<Byte>)
    requires |a| % BLOCK == 0
    ensures Absorb(f, s, a + b) == Absorb(f, Absorb(f, s, a), b)
    decreases |a|
  {
    if |a| == 0 {
      assert a + b == b;
    } else {
      assert (a + b)[..BLOCK] == a[..BLOCK] && (a + b)[BLOCK..] == a[BLOCK..] + b;
      AbsorbAppend(f, f(s, a[..BLOCK]), a[BLOCK..], b);
    }
  }

  /** What follows depends on the past only through the chaining value and the incomplete block. */
  lemma AbsorbContinue(f: Compression, s: Chain, m: seq<Byte>, more: seq<Byte>)
    ensures Absorb(f, s, m + more) == Absorb(f, Absorb(f, s, m), Tail(m) + more)
    ensures Tail(m + more) == Tail(Tail(m) + more)
  {
    var a, b := m[..|m| - |m| % BLOCK], Tail(m);
    assert m == a + b;
    assert m + more == a + (b + more);
    AbsorbAppend(f, s, a, b + more);
    AbsorbAppend(f, s, a, b);
    assert Absorb(f, Absorb(f, s, a), b) == Absorb(f, s, a);
  }
}

/** The class MD5 of md5.cpp. */
module Md5 {
  import opened Bytes
  import opened Md5Spec

  /** The test of the block loop of update, in 32-bit arithmetic. */
  predicate MoreBlocks(index: Word, length: Word) { (index + 63) % WORDS < length }

  /** It asks whether a whole block is left, except near 2^32, where it is always true. */
  lemma MoreBlocksExactly(index: Word, length: Word)
    requires index <= length
    ensures MoreBlocks(index, length) <==> index + BLOCK <= length || index + 63 >= WORDS
    ensures index + 63 >= WORDS ==> length - index < BLOCK
  {
  }

  /** update stays inside its input exactly when the last block it takes ends before 2^32 - 63. */
  predicate InRange(buffered: nat, length: nat) {
    length < WORDS && (buffered + length >= BLOCK ==> length - (buffered + length) % BLOCK + 63 < WORDS)
  }

  /** The loop starts where the buffer is full and goes on from block to block: it comes to this index. */
  predicate Visited(buffered: nat, length: Word, index: Word) {
    && index >= BLOCK - buffered && (buffered + index) % BLOCK == 0
    && forall i: Word | BLOCK - buffered <= i < index && (buffered + i) % BLOCK == 0 :: MoreBlocks(i, length)
  }

  /** Otherwise the loop comes to the end of the last whole block, goes on there and reads past the input. */
  lemma OutOfRangeOverruns(buffered: nat, length: Word) returns (index: Word)
    requires buffered < BLOCK && !InRange(buffered, length)
    ensures index <= length < index + BLOCK && Visited(buffered, length, index) && MoreBlocks(index, length)
  {
    index := length - (buffered + length) % BLOCK;
    MoreBlocksExactly(index, length);
    assert (buffered + index) % BLOCK == 0;
    forall i: Word | BLOCK - buffered <= i < index && (buffered + i) % BLOCK == 0 ensures MoreBlocks(i, length) {
      assert index - i >= BLOCK;
      MoreBlocksExactly(i, length);
    }
  }

  /** One buffered byte and 2^32 - 1 more: the loop would compress a block that lies 63 bytes past the input. */
  lemma OverrunExample()
    ensures !InRange(1, 0xffff_ffff)
    ensures Visited(1, 0xffff_ffff, 0xffff_ffff) && MoreBlocks(0xffff_ffff, 0xffff_ffff)
  {
    var index := OutOfRangeOverruns(1, 0xffff_ffff);
    assert index == 0xffff_ffff;
  }

  lemma ShortInputsInRange(buffered: nat, length: nat)
    requires buffered < BLOCK && length <= WORDS - BLOCK
    ensures InRange(buffered, length)
  {
  }

  function CountOf(low: Word, high: Word): nat { low + WORDS * high }

  /** The carry from the low to the high word of the bit count. */
  function AddBits(low: Word, high: Word, length: Word): (Word, Word) {
    var shifted := length * 8 % WORDS;
    var sum := (low + shifted) % WORDS;
    var carried := if sum < shifted then (high + 1) % WORDS else high;
    (sum, (carried + length / 0x2000_0000) % WORDS)
  }

  /** The two words count the bits of the message modulo 2^64. */
  lemma AddBitsCounts(low: Word, high: Word, length: Word)
    ensures var (l, h) := AddBits(low, high, length); CountOf(l, h) == (CountOf(low, high) + 8 * length) % LONGS
  {
    var (l, h) := AddBits(low, high, length);
    var total := high + (if l < length * 8 % WORDS then 1 else 0) + length / 0x2000_0000;
    AddBitsCarry(low, high, length);
    assert total == WORDS * (total / WORDS) + h;
    RemainderUnique(CountOf(low, high) + 8 * length, LONGS, total / WORDS, CountOf(l, h));
  }

  lemma AddBitsCarry(low: Word, high: Word, length: Word)
    ensures var (l, h) := AddBits(low, high, length);
            var total := high + (if l < length * 8 % WORDS then 1 else 0) + length / 0x2000_0000;
            h == total % WORDS && CountOf(low, high) + 8 * length == l + WORDS * total
  {
    assert length * 8 == WORDS * (length / 0x2000_0000) + length * 8 % WORDS;
    var sum := low + length * 8 % WORDS;
    assert sum % WORDS == sum || sum % WORDS == sum - WORDS;
  }

  class MD5 {
    const f: Compression
    var state: Chain
    var count0: Word
    var count1: Word
    const buffer: array<Byte>
    var digest: seq<Byte>
    var finalized: bool
    /** Everything passed to update so far. */
    ghost var message: seq<Byte>

    ghost predicate Valid()
      reads this, buffer
    {
      && buffer.Length == BLOCK
      && state == Absorb(f, INIT, message)
      && buffer[..|message| % BLOCK] == Tail(message)
      && CountOf(count0, count1) == BitCount(|message|)
    }

    constructor (f: Compression)
      ensures Valid() && fresh(buffer) && this.f == f && message == [] && !finalized
    {
      hide Absorb, Tail, CountOf, BitCount;
      this.f := f;
      state := INIT;
      count0, count1 := 0, 0;
      digest := [];
      finalized := false;
      message := [];
      buffer := new Byte[BLOCK];
      new;
      EmptyMessage(f, message);
      assert buffer[..0] == [];
    }

    /** The number of buffered bytes is read off the low word of the bit count. */
    lemma Buffered()
      requires Valid()
      ensures count0 / 8 % BLOCK == |message| % BLOCK
    {
      BufferedBytes(count0, count1, |message|);
    }

    /** memcpy into the buffer. */
    method Store(at: nat, input: seq<Byte>)
      requires at + |input| <= buffer.Length
      modifies buffer
      ensures buffer[..] == old(buffer[..at]) + input + old(buffer[at + |input|..])
    {
      var i := 0;
      while i < |input|
        invariant i <= |input|
        invariant forall k | 0 <= k < buffer.Length ::
                buffer[k] == if at <= k < at + i then input[k - at] else old(buffer[k])
      {
        buffer[at + i] := input[i];
        i := i + 1;
      }
    }

    /** The blocks that update compresses: the filled buffer, then whole blocks straight from the input. */
    method TakeBlocks(bufferIndex: nat, input: seq<Byte>) returns (index: nat)
      requires buffer.Length == BLOCK && bufferIndex < BLOCK <= bufferIndex + |input| && InRange(bufferIndex, |input|)
      modifies this`state, buffer
      ensures state == Absorb(f, old(state), old(buffer[..bufferIndex]) + input)
      ensures index <= |input| && input[index..] == Tail(old(buffer[..bufferIndex]) + input)
    {
      assert |input| < WORDS;
      hide Absorb, InRange, Tail, OnBoundary;
      var space := BLOCK - bufferIndex;
      ghost var start := buffer[..bufferIndex];
      Store(bufferIndex, input[..space]);
      assert buffer[..] == start + input[..space];
      BoundaryAtBlock();
      FirstBlock(f, state, start, input);
      state := f(state, buffer[..]);
      index := CompressBlocks(bufferIndex, input, space);
      TailOf(start, input, index);
    }

    /** The loop that compresses each whole block of the input, bypassing the buffer. */
    method CompressBlocks(ghost buffered: nat, input: seq<Byte>, first: nat) returns (index: nat)
      requires buffered < BLOCK <= buffered + |input| && InRange(buffered, |input|) && |input| < WORDS
      requires first <= |input| && OnBoundary(buffered + first)
      modifies this`state
      ensures state == Absorb(f, old(state), input[first..])
      ensures first <= index <= |input| < index + BLOCK && OnBoundary(buffered + index)
    {
      hide Absorb, InRange, OnBoundary, MoreBlocks;
      index := first;
      while MoreBlocks(index, |input|)
        invariant first <= index <= |input| && OnBoundary(buffered + index)
        invariant Absorb(f, old(state), input[first..]) == Absorb(f, state, input[index..])
        decreases |input| - index
      {
        TakesWholeBlock(buffered, index, |input|);
        NextBlock(f, state, input, index);
        state := f(state, input[index..index + BLOCK]);
        index := index + BLOCK;
      }
      NoMoreBlocks(f, state, input, index);
    }

    /** After finalize it does nothing; before, the message grows by the input. */
    method Update(input: seq<Byte>)
      requires Valid() && InRange(|message| % BLOCK, |input|)
      modifies this`state, this`count0, this`count1, this`message, buffer
      ensures finalized == old(finalized) && digest == old(digest)
      ensures if finalized then message == old(message) && state == old(state) else message == old(message) + input
      ensures Valid()
    {
      if finalized { return; }
      hide Absorb, AddBits, Tail, CountOf, BitCount;
      Buffered();
      var bufferIndex := count0 / 8 % BLOCK;
      AddBitsMessage(count0, count1, |message|, |input|);
      AbsorbContinue(f, INIT, message, input);
      ghost var pending := buffer[..bufferIndex] + input;
      var counts := AddBits(count0, count1, |input|);
      count0, count1 := counts.0, counts.1;
      message := message + input;
      if |input| >= BLOCK - bufferIndex {
        var index := TakeBlocks(bufferIndex, input);
        Store(0, input[index..]);
        assert buffer[..|input| - index] == Tail(pending);
      } else {
        LastBlock(f, state, pending);
        Store(bufferIndex, input);
        assert buffer[..bufferIndex + |input|] == pending;
      }
    }

    /** Pads, appends the length and stores the digest; a second call does nothing. */
    method Finalize()
      requires Valid()
      modifies this`state, this`count0, this`count1, this`message, this`digest, this`finalized, buffer
      ensures Valid() && finalized
      ensures if old(finalized) then digest == old(digest) && message == old(message) else (
                digest == Digest(f, old(message)) && message == Padded(old(message)))
    {
      if finalized { return; }
      hide Absorb, Tail, Padding, InRange, EncodeWords;
      CountBytes(count0, count1);
      var bits := Encode([count0, count1]);
      Buffered();
      var index := count0 / 8 % BLOCK;
      var padLength := if index < 56 then 56 - index else 120 - index;
      var pad := [0x80] + Zeros(padLength - 1);
      PaddedSplit(message, pad, bits);
      ShortInputsInRange(|message| % BLOCK, |pad|);
      Update(pad);
      ShortInputsInRange(|message| % BLOCK, |bits|);
      Update(bits);
      assert message == Padded(old(message));
      PaddedWhole(old(message));
      digest := Encode([state.a, state.b, state.c, state.d]);
      buffer[0] := 0;
      finalized := true;
    }
  }

  /** The source's encode: four masked shifts per word. */
  method Encode(words: seq<Word>) returns (output: seq<Byte>)
    ensures output == EncodeWords(words)
  {
    output := [];
    var i := 0;
    while i < |words|
      invariant i <= |words| && output == EncodeWords(words[..i])
    {
      var w := words[i];
      WordBytes(w);
      assert words[..i + 1][..i] == words[..i];
      output := output + [w % 256, w / 0x100 % 256, w / 0x1_0000 % 256, w / 0x100_0000 % 256];
      i := i + 1;
    }
    assert words[..i] == words;
  }

  lemma WordBytes(w: Word)
    ensures LittleEndian(w, 4) == [w % 256, w / 0x100 % 256, w / 0x1_0000 % 256, w / 0x100_0000 % 256]
  {
    assert LittleEndian(w, 4) == [w % 256] + LittleEndian(w / 256, 3);
    assert LittleEndian(w / 256, 3) == [w / 256 % 256] + LittleEndian(w / 256 / 256, 2);
    assert LittleEndian(w / 256 / 256, 2) == [w / 256 / 256 % 256] + LittleEndian(w / 256 / 256 / 256, 1);
  }

  /** The two words of the bit count, encoded, are the eight bytes of the 64-bit count. */
  lemma CountBytes(low: Word, high: Word)
    ensures EncodeWords([low, high]) == LittleEndian(CountOf(low, high), 8)
  {
    assert [low, high][..1] == [low] && [low][..0] == [];
    assert EncodeWords([low, high]) == LittleEndian(low, 4) + LittleEndian(high, 4);
    assert Pow256(4) == WORDS by { assert Pow256(1) == 256 && Pow256(2) == 0x1_0000 && Pow256(3) == 0x100_0000; }
    LittleEndianPair(low, high, 4, 4);
  }

  lemma EmptyMessage(f: Compression, m: seq<Byte>)
    requires m == []
    ensures Absorb(f, INIT, m) == INIT && Tail(m) == [] && CountOf(0, 0) == BitCount(|m|)
  {
  }

  lemma RaisedPower(j: nat, high: nat)
    requires j > 0
    ensures Pow256(j) * high == 256 * (Pow256(j - 1) * high)
  {
  }

  lemma FirstByte(low: nat, p: nat, k: nat)
    ensures LittleEndian(low + 256 * p, k + 1) == [low % 256] + LittleEndian(low / 256 + p, k)
  {
    assert (low + 256 * p) % 256 == low % 256 && (low + 256 * p) / 256 == low / 256 + p;
  }

  lemma {:induction false} LittleEndianPair(low: nat, high: nat, j: nat, k: nat)
    requires low < Pow256(j)
    ensures LittleEndian(low + Pow256(j) * high, j + k) == LittleEndian(low, j) + LittleEndian(high, k)
  {
    if j > 0 {
      RaisedPower(j, high);
      LittleEndianPair(low / 256, high, j - 1, k);
      hide Pow256;
      FirstByte(low, Pow256(j - 1) * high, j - 1 + k);
    }
  }

  /** The padded message is made of whole blocks. */
  lemma PaddedWhole(m: seq<Byte>)
    ensures |Padded(m)| % BLOCK == 0 && Tail(Padded(m)) == []
  {
    hide PadLength, Padding;
    var n := |m| + PadLength(|m|);
    assert n % BLOCK == 56;
    assert (n + 8) % BLOCK == 0;
  }

  lemma PaddedSplit(m: seq<Byte>, pad: seq<Byte>, bits: seq<Byte>)
    requires pad == [0x80] + Zeros(PadLength(|m|) - 1) && bits == LittleEndian(BitCount(|m|), 8)
    ensures m + pad + bits == Padded(m)
  {
    assert Padding(|m|) == pad + bits;
  }

  lemma FirstBlock(f: Compression, s: Chain, start: seq<Byte>, input: seq<Byte>)
    requires |start| <= BLOCK <= |start| + |input|
    ensures Absorb(f, s, start + input) == Absorb(f, f(s, start + input[..BLOCK - |start|]), input[BLOCK - |start|..])
  {
    assert (start + input)[..BLOCK] == start + input[..BLOCK - |start|];
    assert (start + input)[BLOCK..] == input[BLOCK - |start|..];
  }

  lemma NextBlock(f: Compression, s: Chain, input: seq<Byte>, index: nat)
    requires index + BLOCK <= |input|
    ensures Absorb(f, s, input[index..]) == Absorb(f, f(s, input[index..index + BLOCK]), input[index + BLOCK..])
  {
    assert input[index..][..BLOCK] == input[index..index + BLOCK];
    assert input[index..][BLOCK..] == input[index + BLOCK..];
  }

  lemma LastBlock(f: Compression, s: Chain, rest: seq<Byte>)
    requires |rest| < BLOCK
    ensures Absorb(f, s, rest) == s && Tail(rest) == rest
  {
  }

  predicate OnBoundary(n: nat) { n % BLOCK == 0 }

  lemma BoundaryAtBlock() ensures OnBoundary(BLOCK) { }

  lemma NoMoreBlocks(f: Compression, s: Chain, input: seq<Byte>, index: nat)
    requires index <= |input| < WORDS && !MoreBlocks(index, |input|)
    ensures |input| < index + BLOCK && Absorb(f, s, input[index..]) == s
  {
  }

  lemma TakesWholeBlock(buffered: nat, index: nat, length: nat)
    requires index <= length && InRange(buffered, length) && buffered + length >= BLOCK && OnBoundary(buffered + index)
    requires MoreBlocks(index, length)
    ensures index + BLOCK <= length && OnBoundary(buffered + (index + BLOCK))
  {
    MoreBlocksExactly(index, length);
    assert buffered + length == (buffered + index) + (length - index);
  }

  lemma TailOf(start: seq<Byte>, input: seq<Byte>, index: nat)
    requires index <= |input| < index + BLOCK && OnBoundary(|start| + index)
    ensures input[index..] == Tail(start + input)
  {
    assert (|start| + |input|) % BLOCK == |input| - index;
  }

  lemma AddBitsMessage(low: Word, high: Word, n: nat, length: Word)
    requires CountOf(low, high) == BitCount(n)
    ensures var (l, h) := AddBits(low, high, length); CountOf(l, h) == BitCount(n + length)
  {
    hide AddBits, CountOf;
    AddBitsCounts(low, high, length);
    RemainderAdds(8 * n, 8 * length, LONGS);
  }

  lemma RemainderAdds(a: nat, b: nat, m: nat)
    requires m > 0
    ensures (a % m + b) % m == (a + b) % m
  {
    var c := a % m + b;
    assert a + b == c % m + m * (c / m + a / m);
    RemainderUnique(a + b, m, c / m + a / m, c % m);
  }

  lemma BufferedBytes(low: Word, high: Word, n: nat)
    requires CountOf(low, high) == BitCount(n)
    ensures low / 8 % BLOCK == n % BLOCK
  {
    var q := 8 * n / LONGS;
    assert 8 * n == low + WORDS * high + LONGS * q;
  }

  /** However a message is cut into calls of update, the digest is that of the whole message. */
  method DigestOfPieces(f: Compression, pieces: seq<seq<Byte>>) returns (digest: seq<Byte>)
    requires forall i | 0 <= i < |pieces| :: |pieces[i]| <= WORDS - BLOCK
    ensures digest == Digest(f, Concat(pieces))
  {
    var md := new MD5(f);
    var i := 0;
    while i < |pieces|
      invariant i <= |pieces| && md.Valid() && !md.finalized && md.f == f
      invariant md.message == Concat(pieces[..i])
      invariant fresh(md) && fresh(md.buffer)
    {
      ShortInputsInRange(|md.message| % BLOCK, |pieces[i]|);
      assert pieces[..i + 1][..i] == pieces[..i];
      md.Update(pieces[i]);
      i := i + 1;
    }
    assert pieces[..i] == pieces;
    md.Finalize();
    digest := md.digest;
  }
}
