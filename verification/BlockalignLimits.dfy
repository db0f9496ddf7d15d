/** Inputs that blockalign writes but restore cannot read back, and exactly when that happens. */
module BlockalignLimits {
  import opened Bytes
  import opened BlockFormat
  import opened Chunker
  import opened HashDatabase
  import opened Blockalign
  import opened Placer
  import opened DirectRun
  import opened Restore
  import opened RestoreProof
  import opened RestoreExact
  import opened BlockalignTheorems

  // ---------------------------------------------------------------------------------------
  // Short blocks: the positions fall behind the average of 546 bytes a record

  /** The test accepts every cut, so that blocks are as short as they may be. */
  ghost predicate AcceptsAll(cfg: Config) { forall h: Hash, n: nat :: AcceptsAt(cfg, h, n) }

  predicate AcceptsAt(cfg: Config, h: Hash, n: nat) { cfg.accept(h, n) }

  lemma CutShort(cfg: Config, w: seq<Byte>)
    requires AcceptsAll(cfg) && |w| >= BLOCKSIZE_MIN
    ensures Cut(cfg, w) == BLOCKSIZE_MIN
  {
    if |w| > BLOCKSIZE_MIN {
      assert AcceptsAt(cfg, cfg.crc(37, w[..BLOCKSIZE_MIN + 1]), 0);
      assert Accepts(cfg, w, BLOCKSIZE_MIN);
    }
  }

  ghost predicate ShortAt(blocks: seq<seq<Byte>>, k: nat) {
    k < |blocks| && |blocks[k]| == BLOCKSIZE_MIN && |Concat(blocks[..k])| == BLOCKSIZE_MIN * k
  }

  lemma ShortNext(b: seq<Byte>, later: seq<seq<Byte>>, k: nat)
    requires |b| == BLOCKSIZE_MIN && (k > 0 ==> ShortAt(later, k - 1))
    ensures ShortAt([b] + later, k)
  {
    var blocks := [b] + later;
    if k == 0 {
      assert blocks[..0] == [];
    } else {
      assert blocks[..k] == [b] + later[..k - 1] && blocks[k] == later[k - 1];
      ConcatFirst(b, later[..k - 1]);
    }
  }

  lemma {:induction false} ShortTail(cfg: Config, rest: seq<Byte>, k: nat)
    requires AcceptsAll(cfg) && BLOCKSIZE_MIN * (k + 1) <= |rest|
    ensures ShortAt(TailBlocks(cfg, rest), k)
    decreases |rest|
  {
    hide Concat, Cut, ShortAt;
    CutShort(cfg, rest);
    var later := rest[BLOCKSIZE_MIN..];
    if k > 0 { ShortTail(cfg, later, k - 1); }
    ShortNext(rest[..BLOCKSIZE_MIN], TailBlocks(cfg, later), k);
  }

  /** As long as 64 bytes are left, every block has 64 bytes. */
  lemma {:induction false} ShortBlocks(cfg: Config, rest: seq<Byte>, k: nat)
    requires AcceptsAll(cfg) && BLOCKSIZE_MIN * (k + 1) <= |rest|
    ensures ShortAt(InputBlocks(cfg, rest), k)
    decreases |rest|
  {
    FirstShort(cfg, rest);
    hide Concat, ShortAt, InputBlocks, TailBlocks;
    var later := rest[BLOCKSIZE_MIN..];
    if |rest| < BLOCKSIZE_MAX {
      if k > 0 { ShortTail(cfg, later, k - 1); }
      ShortNext(rest[..BLOCKSIZE_MIN], TailBlocks(cfg, later), k);
    } else {
      if k > 0 { ShortBlocks(cfg, later, k - 1); }
      ShortNext(rest[..BLOCKSIZE_MIN], InputBlocks(cfg, later), k);
    }
  }

  lemma FirstShort(cfg: Config, rest: seq<Byte>)
    requires AcceptsAll(cfg) && |rest| >= BLOCKSIZE_MIN
    ensures var later := rest[BLOCKSIZE_MIN..];
            var more := if |rest| < BLOCKSIZE_MAX then TailBlocks(cfg, later) else InputBlocks(cfg, later);
            InputBlocks(cfg, rest) == [rest[..BLOCKSIZE_MIN]] + more
  {
    hide Cut;
    var w := Window(rest);
    CutShort(cfg, w);
    assert w[..BLOCKSIZE_MIN] == rest[..BLOCKSIZE_MIN];
  }

  /** The first record number k with 482 k above 2^31: 482 bytes is what a block of 64 falls behind the average. */
  const FIRST_MISFIT: nat := 4_455_361

  lemma ShortMisfit(k: nat)
    ensures PositionFits(BLOCKSIZE_MIN * k, k) <==> k < FIRST_MISFIT
  {
  }

  /** In a run without a hash file the records are the blocks in order. */
  lemma ShortRecord(cfg: Config, input: seq<Byte>, view: HashView, placed: seq<Record>, k: nat)
    requires AcceptsAll(cfg) && view.hasError && Result(cfg, input, view, placed) && BLOCKSIZE_MIN * (k + 1) <= |input|
    ensures var recs := Finished(placed);
            k < |recs| && recs[k].Data? && recs[k].item.data != [] && recs[k].item.pos == BLOCKSIZE_MIN * k
  {
    hide InputBlocks, Concat, Place, Padding, Body;
    var blocks := InputBlocks(cfg, input);
    FirstIsDirect(cfg, input, view, placed);
    ShortBlocks(cfg, input, k);
    PlaceAt(BlockHash(cfg), blocks, k);
    assert Finished(placed)[k] == placed[k];
  }

  /** From 285 143 168 bytes on, an input cut into short blocks gets positions that do not fit. */
  lemma LongInputMisfits(cfg: Config, input: seq<Byte>, view: HashView, placed: seq<Record>)
    requires AcceptsAll(cfg) && view.hasError && Result(cfg, input, view, placed)
    requires |input| >= BLOCKSIZE_MIN * (FIRST_MISFIT + 1)
    ensures !PositionsFit(Finished(placed))
  {
    hide Result, Finished, PositionFits;
    ShortRecord(cfg, input, view, placed, FIRST_MISFIT);
    ShortMisfit(FIRST_MISFIT);
    var recs := Finished(placed);
    assert !PositionFits(recs[FIRST_MISFIT].item.pos, FIRST_MISFIT);
  }

  /** And, below 4 GiB, restore does not give such an input back. */
  lemma LongInputIsLost(cfg: Config, input: seq<Byte>, view: HashView, placed: seq<Record>)
    requires AcceptsAll(cfg) && view.hasError && Result(cfg, input, view, placed)
    requires BLOCKSIZE_MIN * (FIRST_MISFIT + 1) <= |input| < TWO_32
    ensures RestoreFile(Archive(Finished(placed))) != Restored(true, input)
  {
    FewRecords(cfg, input, view, placed);
    hide Result, Finished, PositionFits, RestoreFile, Archive;
    ShortRecord(cfg, input, view, placed, FIRST_MISFIT);
    ShortMisfit(FIRST_MISFIT);
    if RestoreFile(Archive(Finished(placed))) == Restored(true, input) {
      RoundTripNeedsPositions(cfg, input, view, placed, FIRST_MISFIT);
    }
  }

  lemma FewRecords(cfg: Config, input: seq<Byte>, view: HashView, placed: seq<Record>)
    requires view.hasError && Result(cfg, input, view, placed) && |input| < TWO_32
    ensures |Finished(placed)| < Pow256(7)
  {
    Pow256Seven();
    InputBlocksCount(cfg, input);
    hide InputBlocks, Aligned, Finished, Body, ItemsOf, HashFile, Pow256;
    FinishedShape(placed);
    FirstIsDirect(cfg, input, view, placed);
  }

  // ---------------------------------------------------------------------------------------
  // Exactly when the round trip works, with or without an empty last block

  /** A block with bytes must be stored where it belongs; an empty one must not be stored behind the output. */
  predicate RecordReadable(recs: seq<Record>, x: nat)
    requires x < |recs| && recs[x].Data?
  {
    if recs[x].item.data != [] then PositionFits(recs[x].item.pos, x)
    else MapEntry(recs[x], x) == INT_MAX || Key(recs, x) >= 0
  }

  ghost predicate Readable(recs: seq<Record>) {
    |recs| < Pow256(7) && forall x | 0 <= x < |recs| && recs[x].Data? :: RecordReadable(recs, x)
  }

  /** The two states differ only in blocks that wait where the output never arrives. */
  ghost predicate Beyond(s: Flushed, t: Flushed) {
    && t.offset == s.offset && t.out == s.out
    && (forall k | k < TWO_32 :: k in t.pending <==> k in s.pending)
    && (forall k | k < TWO_32 && k in s.pending :: k in t.pending && t.pending[k] == s.pending[k])
  }

  lemma {:induction false} FlushForward(s: Flushed)
    ensures Flush(s.pending, s.offset, s.out).offset >= s.offset
    decreases |s.pending|
  {
    FlushOnce(s);
    if s.offset in s.pending {
      RemoveShrinks(s.pending, s.offset);
      var block := s.pending[s.offset];
      FlushForward(Flushed(s.pending - {s.offset}, s.offset + |block|, s.out + block));
    }
  }

  lemma {:induction false} FlushBeyond(s: Flushed, t: Flushed)
    requires Beyond(s, t) && Flush(s.pending, s.offset, s.out).offset < TWO_32
    ensures Beyond(Flush(s.pending, s.offset, s.out), Flush(t.pending, t.offset, t.out))
    decreases |s.pending|
  {
    FlushForward(s);
    FlushOnce(s);
    FlushOnce(t);
    hide Flush;
    if s.offset in s.pending {
      RemoveShrinks(s.pending, s.offset);
      var block := s.pending[s.offset];
      FlushBeyond(Flushed(s.pending - {s.offset}, s.offset + |block|, s.out + block),
                  Flushed(t.pending - {s.offset}, s.offset + |block|, s.out + block));
    }
  }

  lemma AdvanceForward(key: int, data: seq<Byte>, s: Flushed)
    ensures AdvanceAt(key, data, s).offset >= s.offset
  {
    hide Flush;
    FlushForward(Flushed(s.pending, s.offset + |data|, s.out + data));
  }

  lemma AdvanceBeyond(key: int, data: seq<Byte>, s: Flushed, t: Flushed)
    requires Beyond(s, t) && AdvanceAt(key, data, s).offset < TWO_32
    ensures Beyond(AdvanceAt(key, data, s), AdvanceAt(key, data, t))
  {
    hide Flush;
    if key == s.offset {
      FlushBeyond(Flushed(s.pending, s.offset + |data|, s.out + data),
                  Flushed(t.pending, t.offset + |data|, t.out + data));
    }
  }

  /** Record x of the archive is empty and is passed over, or waits beyond the end of the output. */
  ghost predicate Harmless(recs: seq<Record>, x: nat) {
    && x < |recs| && recs[x].Data? && recs[x].item.data == []
    && (MapEntry(recs[x], x) == INT_MAX || Key(recs, x) >= TWO_32)
  }

  ghost predicate OthersFit(recs: seq<Record>, x: nat) {
    forall y | 0 <= y < |recs| && y != x && recs[y].Data? :: PositionFits(recs[y].item.pos, y)
  }

  lemma PassHarmless(recs: seq<Record>, x: nat, s: Flushed, t: Flushed) returns (t': Flushed)
    requires WellFormed(recs) && |recs| < Pow256(7) && Harmless(recs, x) && Beyond(s, t) && s.offset < TWO_32
    ensures Beyond(s, t') && AtRecord(recs, x, t) == AtRecord(recs, x + 1, t')
  {
    hide AtRecord, MapEntry, Key;
    PassAny(recs, x, t);
    t' := if MapEntry(recs[x], x) == INT_MAX then t else AdvanceAt(Key(recs, x), [], t);
  }

  /** The records but for x hold the blocks p of the input, in places that fit. */
  ghost predicate Around(recs: seq<Record>, others: seq<Record>, x: nat, p: seq<Item>, input: seq<Byte>) {
    && WellFormed(recs) && |recs| < Pow256(7) && Harmless(recs, x) && OthersFit(recs, x)
    && others == recs[x := Zero(0)] && multiset(ItemsOf(others)) == multiset(p)
    && Tiling(p, input) && |input| < TWO_32
  }

  /** Without the harmless record, and with all others in place, the blocks are put together. */
  lemma {:induction false} RestoresAround(recs: seq<Record>, others: seq<Record>, x: nat, p: seq<Item>,
      input: seq<Byte>, n: nat, k: nat, s: Flushed, t: Flushed)
    requires Around(recs, others, x, p, input) && n <= |recs| == |others|
    requires Progress(p, input, ItemsOf(others[..n]), k, s) && s.offset !in s.pending && Beyond(s, t)
    ensures AtRecord(recs, n, t) == Restored(true, input)
    decreases |recs| - n
  {
    hide Around, Progress, AtRecord, ItemsOf, Beyond;
    if n == |recs| {
      EndAround(recs, others, x, p, input, k, s, t);
    } else if others[n].Zero? {
      var t' := PassZero(recs, others, x, p, input, n, k, s, t);
      RestoresAround(recs, others, x, p, input, n + 1, k, s, t');
    } else {
      var k', s', t' := PassBlock(recs, others, x, p, input, n, k, s, t);
      RestoresAround(recs, others, x, p, input, n + 1, k', s', t');
    }
  }

  lemma EndAround(recs: seq<Record>, others: seq<Record>, x: nat, p: seq<Item>, input: seq<Byte>, k: nat, s: Flushed,
      t: Flushed)
    requires Around(recs, others, x, p, input)
    requires Progress(p, input, ItemsOf(others[..|others|]), k, s) && s.offset !in s.pending && Beyond(s, t)
    ensures AtRecord(recs, |recs|, t) == Restored(true, input)
  {
    hide Tiling, Progress, AtRecord, ItemsOf;
    assert others[..|others|] == others;
    AllSeen(others, p, input, k, s);
    AtEnd(recs, t);
  }

  /** A zero record, or the harmless one, changes nothing that matters. */
  lemma PassZero(recs: seq<Record>, others: seq<Record>, x: nat, p: seq<Item>, input: seq<Byte>, n: nat, k: nat,
      s: Flushed, t: Flushed) returns (t': Flushed)
    requires Around(recs, others, x, p, input) && n < |others| == |recs| && others[n].Zero? && Beyond(s, t)
    requires Progress(p, input, ItemsOf(others[..n]), k, s)
    ensures Beyond(s, t') && AtRecord(recs, n, t) == AtRecord(recs, n + 1, t')
    ensures ItemsOf(others[..n + 1]) == ItemsOf(others[..n])
  {
    ProgressOffset(p, input, ItemsOf(others[..n]), k, s);
    hide AtRecord, ItemsOf, Body, MapEntry, Key, Beyond, WellFormed, Tiling, Progress, Harmless;
    BodyNext(others, n);
    t' := t;
    if n == x {
      t' := PassHarmless(recs, x, s, t);
    } else {
      PassAny(recs, n, t);
      ZeroEntry(recs, n);
    }
  }

  /** Any other block is put in its place. */
  lemma PassBlock(recs: seq<Record>, others: seq<Record>, x: nat, p: seq<Item>, input: seq<Byte>, n: nat, k: nat,
      s: Flushed, t: Flushed) returns (k': nat, s': Flushed, t': Flushed)
    requires Around(recs, others, x, p, input) && n < |others| == |recs| && others[n].Data? && Beyond(s, t)
    requires Progress(p, input, ItemsOf(others[..n]), k, s) && s.offset !in s.pending
    ensures Progress(p, input, ItemsOf(others[..n + 1]), k', s') && s'.offset !in s'.pending
    ensures Beyond(s', t') && AtRecord(recs, n, t) == AtRecord(recs, n + 1, t')
  {
    var item := recs[n].item;
    assert PositionFits(recs[n].item.pos, n);
    hide Tiling, Progress, AtRecord, AdvanceAt, ItemsOf, Body, MapEntry, Key, PositionFits, Beyond, WellFormed,
        Harmless, OthersFit;
    BodyNext(others, n);
    Unseen(others, p, input, n);
    k' := AdvanceProgress(p, input, ItemsOf(others[..n]), k, s, item);
    s', t' := Advance(item, s), AdvanceAt(item.pos, item.data, t);
    ProgressOffset(p, input, ItemsOf(others[..n + 1]), k', s');
    AdvanceBeyond(item.pos, item.data, s, t);
    BeyondOut(s, t);
    KeyFits(recs, n);
    PassAny(recs, n, t);
  }

  lemma BeyondOut(s: Flushed, t: Flushed)
    requires Beyond(s, t)
    ensures t.offset == s.offset && t.out == s.out
  {
  }

  lemma ProgressOffset(p: seq<Item>, input: seq<Byte>, seen: seq<Item>, k: nat, s: Flushed)
    requires Progress(p, input, seen, k, s)
    ensures s.offset <= |input|
  {
  }

  // ---------------------------------------------------------------------------------------

  lemma {:induction false} NegativeKeyFails(recs: seq<Record>, n: nat, x: nat, s: Flushed)
    requires WellFormed(recs) && |recs| < Pow256(7) && n <= x < |recs| && s.offset >= 0
    requires MapEntry(recs[x], x) != INT_MAX && Key(recs, x) < 0
    ensures !AtRecord(recs, n, s).ok
    decreases x - n
  {
    hide AtRecord, AdvanceAt, MapEntry, Key;
    PassAny(recs, n, s);
    if n < x {
      AdvanceForward(Key(recs, n), Payload(recs[n]), s);
      var t := if MapEntry(recs[n], n) == INT_MAX then s else AdvanceAt(Key(recs, n), Payload(recs[n]), s);
      NegativeKeyFails(recs, n + 1, x, t);
    }
  }

  lemma StartsAtRecordZero(recs: seq<Record>)
    requires |recs| < Pow256(7)
    ensures RestoreFile(Archive(recs)) == AtRecord(recs, 0, START)
  {
    hide Archive, RestoreFrom;
    ArchiveShape(recs);
    assert recs[..0] == [];
    EmptyBody();
  }

  function OneItem(r: Record): seq<Item> { if r.Data? then [r.item] else [] }

  lemma ItemsLast(recs: seq<Record>)
    requires recs != []
    ensures multiset(ItemsOf(recs)) == multiset(ItemsOf(recs[..|recs| - 1])) + multiset(OneItem(recs[|recs| - 1]))
  {
    var n := |recs| - 1;
    BodyNext(recs, n);
    assert recs[..n + 1] == recs;
    hide ItemsOf, Body;
  }

  lemma {:induction false} ItemsReplaced(recs: seq<Record>, x: nat)
    requires x < |recs| && recs[x].Data?
    ensures multiset(ItemsOf(recs)) == multiset(ItemsOf(recs[x := Zero(0)])) + multiset{recs[x].item}
    decreases |recs|
  {
    hide ItemsOf;
    var n, others := |recs| - 1, recs[x := Zero(0)];
    ItemsLast(recs);
    ItemsLast(others);
    if x < n {
      ItemsReplaced(recs[..n], x);
      assert others[..n] == recs[..n][x := Zero(0)];
      assert OneItem(others[n]) == OneItem(recs[n]);
    } else {
      assert others[..n] == recs[..n];
    }
  }

  /** A record of an archive holds a block of the input. */
  lemma BlockOf(recs: seq<Record>, hash: seq<Byte> -> Hash, blocks: seq<seq<Byte>>, x: nat) returns (j: nat)
    requires Holds(recs, hash, blocks) && x < |recs| && recs[x].Data?
    ensures j < |blocks| && recs[x].item == Place(hash, blocks)[j] && recs[x].item.data == blocks[j]
  {
    hide ItemsOf, Place;
    var p := Place(hash, blocks);
    BodyNext(recs, x);
    ItemsMonotone(recs, x + 1);
    assert recs[x].item in multiset(ItemsOf(recs[..x + 1]));
    assert recs[x].item in multiset(p);
    j :| 0 <= j < |p| && p[j] == recs[x].item;
    PlaceAt(hash, blocks, j);
  }

  /** Taking out the record of the empty last block leaves an archive of the other blocks, none of them empty. */
  lemma WithoutEmpty(recs: seq<Record>, hash: seq<Byte> -> Hash, blocks: seq<seq<Byte>>, x: nat)
    requires Blocks(blocks) && Holds(recs, hash, blocks) && x < |recs| && recs[x].Data? && recs[x].item.data == []
    ensures blocks != [] && Blocks(blocks[..|blocks| - 1]) && Concat(blocks[..|blocks| - 1]) == Concat(blocks)
    ensures Holds(recs[x := Zero(0)], hash, blocks[..|blocks| - 1])
    ensures forall y | 0 <= y < |recs| && y != x && recs[y].Data? :: recs[y].item.data != []
  {
    hide ItemsOf, Place, Concat, Holds;
    var j := BlockOf(recs, hash, blocks, x);
    var m, others := |blocks| - 1, recs[x := Zero(0)];
    assert j == m;
    LastBlockEmpty(hash, blocks);
    HoldsOthers(recs, hash, blocks, x);
    forall y | 0 <= y < |recs| && y != x && recs[y].Data? ensures recs[y].item.data != [] {
      var i := BlockOf(others, hash, blocks[..m], y);
    }
  }

  lemma LastBlockEmpty(hash: seq<Byte> -> Hash, blocks: seq<seq<Byte>>)
    requires blocks != [] && blocks[|blocks| - 1] == []
    ensures var m := |blocks| - 1;
            && Concat(blocks[..m]) == Concat(blocks)
            && Place(hash, blocks) == Place(hash, blocks[..m]) + [Place(hash, blocks)[m]]
  {
  }

  lemma HoldsOthers(recs: seq<Record>, hash: seq<Byte> -> Hash, blocks: seq<seq<Byte>>, x: nat)
    requires Holds(recs, hash, blocks) && x < |recs| && recs[x].Data? && blocks != []
    requires recs[x].item == Place(hash, blocks)[|blocks| - 1]
    ensures Holds(recs[x := Zero(0)], hash, blocks[..|blocks| - 1])
  {
    ItemsReplaced(recs, x);
    var p, p' := Place(hash, blocks), Place(hash, blocks[..|blocks| - 1]);
    assert p == p' + [recs[x].item];
    hide ItemsOf, Place;
    CancelOne(multiset(ItemsOf(recs[x := Zero(0)])), multiset(p'), recs[x].item);
  }

  lemma EmptyMisfit(recs: seq<Record>, x: nat)
    requires x < |recs| && recs[x].Data? && recs[x].item.data == [] && recs[x].item.pos < TWO_32
    requires !PositionFits(recs[x].item.pos, x) && RecordReadable(recs, x)
    ensures Harmless(recs, x)
  {
    MisfitKey(recs, x);
  }

  /** A readable archive is restored, also when the position of its empty block does not fit. */
  lemma ReadableRestores(recs: seq<Record>, hash: seq<Byte> -> Hash, blocks: seq<seq<Byte>>)
    requires WellFormed(recs) && Readable(recs) && Blocks(blocks) && Holds(recs, hash, blocks)
    requires |Concat(blocks)| < TWO_32
    ensures RestoreFile(Archive(recs)) == Restored(true, Concat(blocks))
  {
    hide RestoreFile, Archive, ItemsOf, Place, Concat, PositionFits, Key, MapEntry;
    if x :| 0 <= x < |recs| && recs[x].Data? && !PositionFits(recs[x].item.pos, x) {
      assert RecordReadable(recs, x);
      PositionWithin(recs, hash, blocks, x);
      EmptyMisfit(recs, x);
      WithoutEmpty(recs, hash, blocks, x);
      var rest, input := blocks[..|blocks| - 1], Concat(blocks);
      forall y | 0 <= y < |recs| && y != x && recs[y].Data?
        ensures PositionFits(recs[y].item.pos, y)
      {
        assert RecordReadable(recs, y);
      }
      PlaceTiles(hash, rest);
      StartsAtRecordZero(recs);
      RestoresWithout(recs, x, Place(hash, rest), input);
    } else {
      RestoreArchive(recs, hash, blocks);
    }
  }

  lemma RestoresWithout(recs: seq<Record>, x: nat, p: seq<Item>, input: seq<Byte>)
    requires WellFormed(recs) && |recs| < Pow256(7) && Harmless(recs, x) && OthersFit(recs, x)
    requires Tiling(p, input) && |input| < TWO_32 && multiset(ItemsOf(recs[x := Zero(0)])) == multiset(p)
    ensures AtRecord(recs, 0, START) == Restored(true, input)
  {
    var others := recs[x := Zero(0)];
    assert others[..0] == [];
    assert ItemsOf([]) == [];
    assert Progress(p, input, [], 0, START);
    RestoresAround(recs, others, x, p, input, 0, 0, START, START);
  }

  /**
   * Below 4 GiB the round trip works if and only if every block with bytes has a position that fits and an
   * empty last block, if there is one, is not stored behind the output.
   */
  lemma RoundTripExactly(cfg: Config, input: seq<Byte>, view: HashView, placed: seq<Record>)
    requires Result(cfg, input, view, placed) && |input| < TWO_32 && |Finished(placed)| < Pow256(7)
    ensures RestoreFile(Archive(Finished(placed))) == Restored(true, input) <==> Readable(Finished(placed))
  {
    hide Body, ItemsOf, HashFile, BlockMap, InputBlocks, Place, Concat, Finished, RestoreFile, Archive, PositionFits,
        Aligned, MapEntry, Key;
    var recs := Finished(placed);
    FinishedShape(placed);
    if RestoreFile(Archive(recs)) == Restored(true, input) {
      forall x | 0 <= x < |recs| && recs[x].Data? ensures RecordReadable(recs, x) {
        if recs[x].item.data != [] {
          RoundTripNeedsPositions(cfg, input, view, placed, x);
        } else if MapEntry(recs[x], x) != INT_MAX && Key(recs, x) < 0 {
          StartsAtRecordZero(recs);
          NegativeKeyFails(recs, 0, x, START);
        }
      }
    } else if Readable(recs) {
      InputBlocksSound(cfg, input);
      ReadableRestores(recs, BlockHash(cfg), InputBlocks(cfg, input));
    }
  }
}
