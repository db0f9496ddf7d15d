/** restore_stream undoes every archive whose data records hold the blocks of the input, in whatever order. */
module RestoreProof {
  import opened Bytes
  import opened BlockFormat
  import opened Restore

  // ---------------------------------------------------------------------------------------
  // Finding a record and its block map entry in the bytes of an archive

  lemma {:induction false} BodyPrefix(recs: seq<Record>, n: nat)
    requires n <= |recs|
    ensures |Body(recs[..n])| + 2 * (|recs| - n) <= |Body(recs)|
    ensures Body(recs)[..|Body(recs[..n])|] == Body(recs[..n])
    decreases |recs|
  {
    if n == |recs| {
      assert recs[..n] == recs;
    } else {
      var m := |recs| - 1;
      BodyPrefix(recs[..m], n);
      assert recs[..m][..n] == recs[..n];
    }
  }

  lemma BodyNext(recs: seq<Record>, n: nat)
    requires n < |recs|
    ensures Body(recs[..n + 1]) == Body(recs[..n]) + RecordBytes(recs[n])
    ensures ItemsOf(recs[..n + 1]) == ItemsOf(recs[..n]) + (match recs[n] case Zero(_) => [] case Data(item) => [item])
  {
    assert recs[..n + 1] == recs[..n] + [recs[n]];
    AppendRecord(recs[..n], recs[n]);
  }

  lemma PrefixSlice(a: seq<Byte>, b: seq<Byte>, i: nat, j: nat)
    requires i <= j <= |a|
    ensures (a + b)[i..j] == a[i..j]
  {
  }

  lemma {:induction false} MapBytesAt(m: seq<int>, n: nat)
    requires n < |m|
    ensures MapBytes(m)[4 * n..4 * n + 4] == Int32Bytes(m[n])
    decreases |m|
  {
    if n < |m| - 1 {
      MapBytesAt(m[..|m| - 1], n);
      PrefixSlice(MapBytes(m[..|m| - 1]), Int32Bytes(m[|m| - 1]), 4 * n, 4 * n + 4);
    }
  }

  lemma {:induction false} BlockMapAt(recs: seq<Record>, n: nat)
    requires n < |recs|
    ensures BlockMap(recs)[n] == MapEntry(recs[n], n)
    decreases |recs|
  {
    if n < |recs| - 1 {
      BlockMapAt(recs[..|recs| - 1], n);
    }
  }

  function MapStart(recs: seq<Record>): nat { HEADER_SIZE + |Body(recs)| }

  function RecordStart(recs: seq<Record>, n: nat): nat
    requires n <= |recs|
  {
    HEADER_SIZE + |Body(recs[..n])|
  }

  lemma FiveParts(a: seq<Byte>, b: seq<Byte>, c: seq<Byte>, d: seq<Byte>, e: seq<Byte>)
    ensures var s := a + b + c + d + e;
      && s[..|a|] == a && s[|a|..|a| + |b|] == b && s[|a| + |b|..|a| + |b| + |c|] == c
      && s[|a| + |b| + |c|..|s| - |e|] == d && s[|s| - |e|..] == e
  {
    var ab := a + b;
    var abc := ab + c;
    ThreeParts(abc, d, e);
    ThreeParts(ab, c, d + e);
    ThreeParts(a, b, c + (d + e));
    assert a + b + c + d + e == ab + c + (d + e) == a + b + (c + (d + e));
  }

  lemma ThreeParts(a: seq<Byte>, b: seq<Byte>, c: seq<Byte>)
    ensures var s := a + b + c; s[..|a|] == a && s[|a|..|a| + |b|] == b && s[|a| + |b|..] == c
  {
  }

  lemma SubSlice(s: seq<Byte>, lo: nat, hi: nat, i: nat, j: nat)
    requires i <= j && lo + j <= hi <= |s|
    ensures s[lo..hi][i..j] == s[lo + i..lo + j]
  {
    var t := s[lo..hi];
    forall k | 0 <= k < j - i ensures t[i..j][k] == s[lo + i..lo + j][k] {
      assert t[i..j][k] == t[i + k] == s[lo + (i + k)];
    }
  }

  lemma {:induction false} HeaderValues(count: nat)
    requires count < Pow256(7)
    ensures FromLittleEndian(LittleEndian(BLOCKSIZE_AVG, 4)) == BLOCKSIZE_AVG
    ensures Signed64(FromLittleEndian(LittleEndian(count, 8))) == count
  {
    assert Pow256(4) == 256 * Pow256(3) && Pow256(3) == 256 * Pow256(2) && Pow256(2) >= 256;
    LittleEndianRoundTrip(BLOCKSIZE_AVG, 4);
    Pow256Seven();
    assert Pow256(8) == 256 * Pow256(7);
    LittleEndianRoundTrip(count, 8);
  }

  lemma {:induction false} ArchiveShape(recs: seq<Record>)
    requires |recs| < Pow256(7)
    ensures var file := Archive(recs);
      && |file| == MapStart(recs) + 4 * |recs| + 8
      && file[..12] == MAGIC
      && FromLittleEndian(file[12..16]) == BLOCKSIZE_AVG
      && Signed64(FromLittleEndian(file[|file| - 8..])) == |recs|
      && file[HEADER_SIZE..MapStart(recs)] == Body(recs)
      && file[MapStart(recs)..|file| - 8] == MapBytes(BlockMap(recs))
  {
    FiveParts(MAGIC, LittleEndian(BLOCKSIZE_AVG, 4), Body(recs), MapBytes(BlockMap(recs)), LittleEndian(|recs|, 8));
    HeaderValues(|recs|);
  }

  lemma Pow256Seven()
    ensures Pow256(7) == 0x100_0000_0000_0000
  {
    assert Pow256(1) == 256;
    assert Pow256(2) == 0x1_0000;
    assert Pow256(3) == 0x100_0000;
    assert Pow256(4) == 0x1_0000_0000;
    assert Pow256(5) == 0x100_0000_0000;
    assert Pow256(6) == 0x1_0000_0000_0000;
  }

  /** The bytes of record n, where the loop looks for them. */
  lemma {:induction false} RecordBytesAt(recs: seq<Record>, n: nat)
    requires n < |recs| && |recs| < Pow256(7)
    ensures var file, p, q := Archive(recs), RecordStart(recs, n), RecordStart(recs, n + 1);
      p + 2 + |Payload(recs[n])| == q <= MapStart(recs) < |file| && file[p..q] == RecordBytes(recs[n])
  {
    var file, p, q := Archive(recs), RecordStart(recs, n), RecordStart(recs, n + 1);
    ArchiveShape(recs);
    BodyNext(recs, n);
    BodyPrefix(recs, n + 1);
    hide Archive, Body, RecordBytes, Payload;
    var i, j := p - HEADER_SIZE, q - HEADER_SIZE;
    SubSlice(file, HEADER_SIZE, MapStart(recs), i, j);
    PrefixEnd(Body(recs), Body(recs[..n]), RecordBytes(recs[n]));
  }

  lemma PrefixEnd(s: seq<Byte>, a: seq<Byte>, b: seq<Byte>)
    requires |a + b| <= |s| && s[..|a + b|] == a + b
    ensures s[|a|..|a + b|] == b
  {
    assert s[|a|..|a + b|] == s[..|a + b|][|a|..];
  }

  lemma RecordParts(r: Record)
    ensures RecordBytes(r)[..2] == LittleEndian(|Payload(r)|, 2) && RecordBytes(r)[2..] == Payload(r)
    ensures WellFormedRecord(r) ==> FromLittleEndian(RecordBytes(r)[..2]) == |Payload(r)|
  {
    if WellFormedRecord(r) {
      assert Pow256(1) == 256;
      LittleEndianRoundTrip(|Payload(r)|, 2);
    }
  }

  /** What the loop reads when it stands at record n. */
  lemma {:induction false} ReadRecord(recs: seq<Record>, n: nat)
    requires n < |recs| && WellFormed(recs) && |recs| < Pow256(7)
    ensures var file, p, q := Archive(recs), RecordStart(recs, n), RecordStart(recs, n + 1);
      && p + 2 + |Payload(recs[n])| == q <= MapStart(recs) < |file|
      && FromLittleEndian(file[p..p + 2]) == |Payload(recs[n])|
      && file[p + 2..q] == Payload(recs[n])
  {
    hide Archive, Body, RecordBytes, FromLittleEndian, Payload;
    var file, p, q := Archive(recs), RecordStart(recs, n), RecordStart(recs, n + 1);
    RecordBytesAt(recs, n);
    RecordParts(recs[n]);
    SubSlice(file, p, q, 0, 2);
    SubSlice(file, p, q, 2, q - p);
  }

  lemma DecodeInt32(bytes: seq<Byte>, x: int)
    requires |bytes| == 4 && bytes == Int32Bytes(x) && FitsInt32(x)
    ensures FromInt32Bytes(bytes) == x
  {
    Int32RoundTrip(x);
  }

  lemma {:induction false} ReadMapEntry(recs: seq<Record>, n: nat)
    requires n < |recs| && |recs| < Pow256(7)
    ensures var file, q := Archive(recs), MapStart(recs) + 4 * n;
      q + 4 <= |file| && FromInt32Bytes(file[q..q + 4]) == MapEntry(recs[n], n)
  {
    hide Archive, BlockMap, MapBytes;
    var file, m := Archive(recs), BlockMap(recs);
    ArchiveShape(recs);
    MapBytesAt(m, n);
    BlockMapAt(recs, n);
    SubSlice(file, MapStart(recs), |file| - 8, 4 * n, 4 * n + 4);
    var q := MapStart(recs) + 4 * n;
    DecodeInt32(file[q..q + 4], m[n]);
  }

  // ---------------------------------------------------------------------------------------
  // Out-of-order reassembly

  lemma {:induction false} PlaceAt(hash: seq<Byte> -> Hash, blocks: seq<seq<Byte>>, i: nat)
    requires i < |blocks|
    ensures Place(hash, blocks)[i] == Item(hash(blocks[i]), blocks[i], |Concat(blocks[..i])|)
    decreases |blocks|
  {
    var n := |blocks| - 1;
    if i < n {
      PlaceAt(hash, blocks[..n], i);
      assert blocks[..n][..i] == blocks[..i];
    }
  }

  lemma ConcatNext(blocks: seq<seq<Byte>>, i: nat)
    requires i < |blocks|
    ensures Concat(blocks[..i + 1]) == Concat(blocks[..i]) + blocks[i]
  {
    assert blocks[..i + 1][..i] == blocks[..i];
  }

  lemma {:induction false} ConcatGrows(blocks: seq<seq<Byte>>, i: nat, j: nat)
    requires i <= j <= |blocks|
    ensures |Concat(blocks[..i])| <= |Concat(blocks[..j])|
    ensures i < j && Blocks(blocks) && j < |blocks| ==> |Concat(blocks[..i])| < |Concat(blocks[..j])|
    decreases j - i
  {
    if i < j {
      ConcatNext(blocks, j - 1);
      ConcatGrows(blocks, i, j - 1);
    }
  }

  lemma {:induction false} ConcatSlice(blocks: seq<seq<Byte>>, i: nat)
    requires i < |blocks|
    ensures |Concat(blocks[..i])| + |blocks[i]| <= |Concat(blocks)|
    ensures Concat(blocks)[|Concat(blocks[..i])|..|Concat(blocks[..i])| + |blocks[i]|] == blocks[i]
    decreases |blocks|
  {
    var n := |blocks| - 1;
    if i < n {
      ConcatSlice(blocks[..n], i);
      assert blocks[..n][..i] == blocks[..i];
      var lo := |Concat(blocks[..i])|;
      PrefixSlice(Concat(blocks[..n]), blocks[n], lo, lo + |blocks[i]|);
    }
  }

  /** Where item k begins, and where the last one ends. */
  function Start(p: seq<Item>, input: seq<Byte>, k: nat): nat
    requires k <= |p|
  {
    if k < |p| then p[k].pos else |input|
  }

  ghost predicate TileAt(p: seq<Item>, input: seq<Byte>, i: nat)
    requires i < |p|
  {
    && p[i].pos + |p[i].data| == Start(p, input, i + 1) <= |input|
    && input[p[i].pos..p[i].pos + |p[i].data|] == p[i].data
  }

  /** The items cut the input into consecutive pieces, of which only the last may be empty. */
  ghost predicate Tiling(p: seq<Item>, input: seq<Byte>) {
    && Start(p, input, 0) == 0
    && (forall i | 0 <= i < |p| :: TileAt(p, input, i))
    && (forall i, j | 0 <= i < j < |p| :: p[i].pos < p[j].pos)
  }

  lemma PlaceTiles(hash: seq<Byte> -> Hash, blocks: seq<seq<Byte>>)
    requires Blocks(blocks)
    ensures Tiling(Place(hash, blocks), Concat(blocks))
  {
    var p, input := Place(hash, blocks), Concat(blocks);
    forall i | 0 <= i < |p| ensures TileAt(p, input, i) {
      PlaceAt(hash, blocks, i);
      ConcatSlice(blocks, i);
      ConcatNext(blocks, i);
      if i + 1 < |p| {
        PlaceAt(hash, blocks, i + 1);
      } else {
        assert blocks[..i + 1] == blocks;
      }
    }
    forall i, j | 0 <= i < j < |p| ensures p[i].pos < p[j].pos {
      PlaceAt(hash, blocks, i);
      PlaceAt(hash, blocks, j);
      ConcatGrows(blocks, i, j);
    }
    if p != [] { PlaceAt(hash, blocks, 0); }
  }

  lemma {:induction false} DistinctOnce<T>(s: seq<T>, x: T)
    requires forall i, j | 0 <= i < j < |s| :: s[i] != s[j]
    ensures multiset(s)[x] <= 1
  {
    if s != [] {
      var n := |s| - 1;
      assert s == s[..n] + [s[n]];
      if s[n] == x {
        assert x !in s[..n];
      } else {
        DistinctOnce(s[..n], x);
      }
    }
  }

  /** Item x is among the seen items from number k on, and its data waits at its position. */
  ghost predicate Waits(p: seq<Item>, seen: seq<Item>, k: nat, x: int) {
    exists i :: k <= i < |p| && p[i].pos == x && p[i] in seen
  }

  /** The first k items are written; the seen items among the others wait at their positions. */
  ghost predicate Progress(p: seq<Item>, input: seq<Byte>, seen: seq<Item>, k: nat, s: Flushed)
  {
    && k <= |p| && s.offset == Start(p, input, k) && 0 <= s.offset <= |input| && s.out == input[..s.offset]
    && (forall i | 0 <= i < k :: p[i] in seen)
    && (forall i | k <= i < |p| && p[i] in seen :: p[i].pos in s.pending && s.pending[p[i].pos] == p[i].data)
    && (forall x | x in s.pending :: Waits(p, seen, k, x))
  }

  /** The pending block at the next position is the next block. */
  lemma NextPending(p: seq<Item>, input: seq<Byte>, seen: seq<Item>, k: nat, s: Flushed)
    requires Tiling(p, input) && Progress(p, input, seen, k, s) && s.offset in s.pending
    ensures k < |p| && s.pending[s.offset] == p[k].data
    ensures Progress(p, input, seen, k + 1, Flushed(s.pending - {s.offset}, s.offset + |p[k].data|, s.out + p[k].data))
  {
    assert Waits(p, seen, k, s.offset);
    assert TileAt(p, input, k);
    var pending' := s.pending - {s.offset};
    forall x | x in pending' ensures Waits(p, seen, k + 1, x) {
      assert Waits(p, seen, k, x);
    }
  }

  lemma FlushOnce(s: Flushed)
    ensures Flush(s.pending, s.offset, s.out) ==
            if s.offset in s.pending then
              Flush(s.pending - {s.offset}, s.offset + |s.pending[s.offset]|, s.out + s.pending[s.offset])
            else s
  {
  }

  lemma {:induction false} FlushProgress(p: seq<Item>, input: seq<Byte>, seen: seq<Item>, k: nat, s: Flushed)
    returns (k': nat)
    requires Tiling(p, input) && Progress(p, input, seen, k, s)
    ensures var f := Flush(s.pending, s.offset, s.out);
      f.offset !in f.pending && Progress(p, input, seen, k', f)
    decreases |s.pending|
  {
    hide Tiling, Progress, Flush;
    k' := k;
    FlushOnce(s);
    if s.offset in s.pending {
      NextPending(p, input, seen, k, s);
      RemoveShrinks(s.pending, s.offset);
      var block := p[k].data;
      k' := FlushProgress(p, input, seen, k + 1, Flushed(s.pending - {s.offset}, s.offset + |block|, s.out + block));
    }
  }

  /** A block that was not seen before is the next one or one to keep; it is never behind. */
  lemma SeeNext(p: seq<Item>, input: seq<Byte>, seen: seq<Item>, k: nat, s: Flushed, item: Item)
    requires Tiling(p, input) && Progress(p, input, seen, k, s) && s.offset !in s.pending
    requires item in p && item !in seen
    ensures item.pos >= s.offset
    ensures item.pos == s.offset ==>
              Progress(p, input, seen + [item], k + 1, Flushed(s.pending, s.offset + |item.data|, s.out + item.data))
  {
    var j :| 0 <= j < |p| && p[j] == item;
    assert TileAt(p, input, j);
    if item.pos == s.offset {
      assert j == k;
      forall x | x in s.pending ensures Waits(p, seen + [item], k + 1, x) {
        assert Waits(p, seen, k, x);
        var i :| k <= i < |p| && p[i].pos == x && p[i] in seen;
        assert p[i] in seen + [item];
      }
    }
  }

  lemma SeeLater(p: seq<Item>, input: seq<Byte>, seen: seq<Item>, k: nat, s: Flushed, item: Item)
    requires Tiling(p, input) && Progress(p, input, seen, k, s)
    requires item in p && item !in seen && item.pos > s.offset
    ensures Progress(p, input, seen + [item], k, s.(pending := s.pending[item.pos := item.data]))
  {
    var j :| 0 <= j < |p| && p[j] == item;
    var pending' := s.pending[item.pos := item.data];
    forall x | x in pending' ensures Waits(p, seen + [item], k, x) {
      if x == item.pos {
        assert p[j] in seen + [item];
      } else {
        assert Waits(p, seen, k, x);
        var i :| k <= i < |p| && p[i].pos == x && p[i] in seen;
        assert p[i] in seen + [item];
      }
    }
  }

  /** What the loop does with a block that belongs at key, which is not behind. */
  function AdvanceAt(key: int, data: seq<Byte>, s: Flushed): Flushed {
    if key == s.offset then Flush(s.pending, s.offset + |data|, s.out + data)
    else s.(pending := s.pending[key := data])
  }

  function Advance(item: Item, s: Flushed): Flushed { AdvanceAt(item.pos, item.data, s) }

  lemma AdvanceProgress(p: seq<Item>, input: seq<Byte>, seen: seq<Item>, k: nat, s: Flushed, item: Item)
    returns (k': nat)
    requires Tiling(p, input) && Progress(p, input, seen, k, s) && s.offset !in s.pending
    requires item in p && item !in seen
    ensures item.pos >= s.offset
    ensures Progress(p, input, seen + [item], k', Advance(item, s))
    ensures Advance(item, s).offset !in Advance(item, s).pending
  {
    SeeNext(p, input, seen, k, s, item);
    if item.pos == s.offset {
      var t := Flushed(s.pending, s.offset + |item.data|, s.out + item.data);
      k' := FlushProgress(p, input, seen + [item], k + 1, t);
      assert Advance(item, s) == Flush(t.pending, t.offset, t.out);
    } else {
      SeeLater(p, input, seen, k, s, item);
      k' := k;
      assert Advance(item, s) == s.(pending := s.pending[item.pos := item.data]);
    }
  }

  // ---------------------------------------------------------------------------------------
  // The whole file

  /** No block is seen twice. */
  lemma Unseen(recs: seq<Record>, p: seq<Item>, input: seq<Byte>, n: nat)
    requires n < |recs| && recs[n].Data? && Tiling(p, input) && multiset(ItemsOf(recs)) == multiset(p)
    ensures recs[n].item in p && recs[n].item !in ItemsOf(recs[..n])
  {
    var item := recs[n].item;
    BodyNext(recs, n);
    ItemsMonotone(recs, n + 1);
    assert item in ItemsOf(recs[..n + 1]);
    assert item in multiset(p);
    forall i, j | 0 <= i < j < |p| ensures p[i] != p[j] { }
    DistinctOnce(p, item);
    assert multiset(ItemsOf(recs[..n + 1]))[item] <= 1;
  }

  lemma {:induction false} ItemsMonotone(recs: seq<Record>, n: nat)
    requires n <= |recs|
    ensures multiset(ItemsOf(recs[..n])) <= multiset(ItemsOf(recs))
    decreases |recs| - n
  {
    if n == |recs| {
      assert recs[..n] == recs;
    } else {
      BodyNext(recs, n);
      ItemsMonotone(recs, n + 1);
    }
  }

  lemma AllSeen(recs: seq<Record>, p: seq<Item>, input: seq<Byte>, k: nat, s: Flushed)
    requires Tiling(p, input) && multiset(ItemsOf(recs)) == multiset(p)
    requires Progress(p, input, ItemsOf(recs), k, s) && s.offset !in s.pending
    ensures s.out == input
  {
    forall i | 0 <= i < |p| ensures p[i] in ItemsOf(recs) {
      assert p[i] in multiset(p);
    }
    assert k == |p|;
  }

  /** The loop on records instead of bytes. */
  function Reassemble(recs: seq<Record>, s: Flushed): Restored {
    if recs == [] then Restored(true, s.out)
    else match recs[0]
      case Zero(_) => Reassemble(recs[1..], s)
      case Data(item) =>
        if item.pos < s.offset then Restored(false, s.out) else Reassemble(recs[1..], Advance(item, s))
  }

  /** Whatever the order of the records, every block ends up in its place. */
  lemma {:induction false} ReassembleAll(recs: seq<Record>, p: seq<Item>, input: seq<Byte>, n: nat, k: nat, s: Flushed)
    requires Tiling(p, input) && multiset(ItemsOf(recs)) == multiset(p)
    requires n <= |recs| && Progress(p, input, ItemsOf(recs[..n]), k, s) && s.offset !in s.pending
    ensures Reassemble(recs[n..], s) == Restored(true, input)
    decreases |recs| - n
  {
    hide Tiling, Progress, Advance, ItemsOf, Body;
    if n == |recs| {
      assert recs[..n] == recs;
      AllSeen(recs, p, input, k, s);
      return;
    }
    assert recs[n..][1..] == recs[n + 1..];
    BodyNext(recs, n);
    match recs[n] {
      case Zero(len) =>
        assert ItemsOf(recs[..n + 1]) == ItemsOf(recs[..n]);
        ReassembleAll(recs, p, input, n + 1, k, s);
      case Data(item) =>
        Unseen(recs, p, input, n);
        var k' := AdvanceProgress(p, input, ItemsOf(recs[..n]), k, s, item);
        ReassembleAll(recs, p, input, n + 1, k', Advance(item, s));
    }
  }

  // ---------------------------------------------------------------------------------------
  // The byte loop on an archive is the record loop.

  /** The loop standing at record n of an archive. */
  function AtRecord(recs: seq<Record>, n: nat, s: Flushed): Restored
    requires n <= |recs|
  {
    RestoreFrom(Archive(recs), MapStart(recs), BLOCKSIZE_AVG, RecordStart(recs, n), n, s.offset, s.pending, s.out)
  }

  lemma {:induction false} AtEnd(recs: seq<Record>, s: Flushed)
    ensures AtRecord(recs, |recs|, s) == Restored(true, s.out)
  {
    assert recs[..|recs|] == recs;
  }

  /** The position that the loop computes for record n. */
  function Key(recs: seq<Record>, n: nat): int
    requires n < |recs|
  {
    n * BLOCKSIZE_AVG + MapEntry(recs[n], n)
  }

  lemma StartBeforeMap(recs: seq<Record>, n: nat)
    requires n < |recs|
    ensures RecordStart(recs, n) < MapStart(recs)
  {
    BodyPrefix(recs, n);
  }

  lemma PayloadFits(recs: seq<Record>, n: nat)
    requires WellFormed(recs) && n < |recs|
    ensures MapEntry(recs[n], n) != INT_MAX ==> |Payload(recs[n])| <= BLOCKSIZE_MAX
  {
  }

  /** One round of the loop on any archive. */
  lemma {:induction false} PassAny(recs: seq<Record>, n: nat, s: Flushed)
    requires WellFormed(recs) && |recs| < Pow256(7) && n < |recs|
    ensures AtRecord(recs, n, s) ==
      if MapEntry(recs[n], n) == INT_MAX then AtRecord(recs, n + 1, s)
      else if Key(recs, n) < s.offset then Restored(false, s.out)
      else AtRecord(recs, n + 1, AdvanceAt(Key(recs, n), Payload(recs[n]), s))
  {
    hide Archive, Body, RecordStart, MapStart, FromLittleEndian, FromInt32Bytes, Flush, MapEntry;
    ReadRecord(recs, n);
    ReadMapEntry(recs, n);
    StartBeforeMap(recs, n);
    PayloadFits(recs, n);
  }

  lemma KeyFits(recs: seq<Record>, n: nat)
    requires n < |recs| && recs[n].Data?
    ensures PositionFits(recs[n].item.pos, n) <==> MapEntry(recs[n], n) != INT_MAX && Key(recs, n) == recs[n].item.pos
  {
    CastInt32Exact(recs[n].item.pos - n * BLOCKSIZE_AVG);
  }

  lemma {:induction false} RestoreIsReassemble(recs: seq<Record>, n: nat, s: Flushed)
    requires WellFormed(recs) && PositionsFit(recs) && n <= |recs|
    ensures AtRecord(recs, n, s) == Reassemble(recs[n..], s)
    decreases |recs| - n
  {
    hide AtRecord, AdvanceAt, PositionFits, Key;
    if n == |recs| {
      AtEnd(recs, s);
    } else {
      assert recs[n..][1..] == recs[n + 1..];
      PassAny(recs, n, s);
      match recs[n] {
        case Zero(len) =>
          RestoreIsReassemble(recs, n + 1, s);
        case Data(item) =>
          assert PositionFits(item.pos, n);
          KeyFits(recs, n);
          RestoreIsReassemble(recs, n + 1, Advance(item, s));
      }
    }
  }

  const START := Flushed(map[], 0, [])

  /** On files written by blockalign the byte loop is the record loop. */
  lemma {:induction false} RestoreFileIsReassemble(recs: seq<Record>)
    requires WellFormed(recs) && PositionsFit(recs)
    ensures RestoreFile(Archive(recs)) == Reassemble(recs, START)
  {
    ArchiveShape(recs);
    assert recs[..0] == [] && recs[0..] == recs;
    RestoreIsReassemble(recs, 0, START);
  }

  /** Restoring an archive that holds the blocks of an input succeeds and yields the input. */
  lemma RestoreArchive(recs: seq<Record>, hash: seq<Byte> -> Hash, blocks: seq<seq<Byte>>)
    requires WellFormed(recs) && PositionsFit(recs) && Blocks(blocks) && Holds(recs, hash, blocks)
    ensures RestoreFile(Archive(recs)) == Restored(true, Concat(blocks))
  {
    var p, input := Place(hash, blocks), Concat(blocks);
    PlaceTiles(hash, blocks);
    assert recs[..0] == [] && recs[0..] == recs;
    assert Progress(p, input, [], 0, START);
    ReassembleAll(recs, p, input, 0, 0, START);
    RestoreFileIsReassemble(recs);
  }
}
