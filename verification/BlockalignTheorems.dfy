/** What blockalign and restore promise together. */
module BlockalignTheorems {
  import opened Bytes
  import opened BlockFormat
  import opened Chunker
  import opened HashDatabase
  import opened Backlog
  import opened Writer
  import opened Aligner
  import opened Placer
  import opened DirectRun
  import opened Blockalign
  import opened Restore
  import opened RestoreProof
  import opened RestoreExact

  // ---------------------------------------------------------------------------------------
  // The padding adds nothing but one zero record.

  lemma FinishedShape(placed: seq<Record>)
    requires WellFormed(placed)
    ensures WellFormed(Finished(placed)) && ItemsOf(Finished(placed)) == ItemsOf(placed)
    ensures HashFile(Finished(placed)) == HashFile(placed) && |Finished(placed)| <= |placed| + 1
    ensures |Body(Finished(placed))| % 4 == 0
  {
    hide Body, ItemsOf, HashFile, BlockMap;
    var pos := |Body(placed)|;
    PaddingAligns(pos);
    if pos % 4 != 0 {
      var r := Zero(PadTarget(pos) - pos - 2);
      assert Finished(placed) == placed + [r];
      AppendRecord(placed, r);
      RecordBytesLength(r);
    } else {
      assert Finished(placed) == placed;
    }
  }

  lemma RecordBytesLength(r: Record)
    ensures |RecordBytes(r)| == 2 + |Payload(r)|
  {
  }

  // ---------------------------------------------------------------------------------------
  // Round trip

  /** Restoring what blockalign wrote yields the input, for every input and every hash file. */
  lemma RoundTrip(cfg: Config, input: seq<Byte>, view: HashView, placed: seq<Record>)
    requires Result(cfg, input, view, placed) && PositionsFit(Finished(placed))
    ensures RestoreFile(Archive(Finished(placed))) == Restored(true, input)
  {
    hide Body, ItemsOf, HashFile, BlockMap, InputBlocks, Place, Concat, Finished, RestoreFile, Archive, PositionsFit,
        Aligned;
    FinishedShape(placed);
    InputBlocksSound(cfg, input);
    RestoreArchive(Finished(placed), BlockHash(cfg), InputBlocks(cfg, input));
  }

  // ---------------------------------------------------------------------------------------
  // How many records a run can write

  lemma {:induction false} TailBlocksCount(cfg: Config, rest: seq<Byte>)
    ensures |TailBlocks(cfg, rest)| <= (|rest| + 63) / 64
    decreases |rest|
  {
    if rest != [] {
      TailBlocksCount(cfg, rest[Cut(cfg, rest)..]);
    }
  }

  lemma {:induction false} InputBlocksCount(cfg: Config, rest: seq<Byte>)
    ensures |InputBlocks(cfg, rest)| <= |rest| / 64 + 1
    decreases |rest|
  {
    hide FirstAccept;
    var n := Cut(cfg, Window(rest));
    if |rest| < BLOCKSIZE_MAX {
      TailBlocksCount(cfg, rest[n..]);
    } else {
      InputBlocksCount(cfg, rest[n..]);
    }
  }

  lemma CancelOne<T>(a: multiset<T>, b: multiset<T>, x: T)
    requires a + multiset{x} == b + multiset{x}
    ensures a == b
  {
    assert a == (a + multiset{x}) - multiset{x};
    assert b == (b + multiset{x}) - multiset{x};
  }

  lemma {:induction false} TotalPermutation(s: seq<Item>, t: seq<Item>)
    requires multiset(s) == multiset(t)
    ensures Total(s) == Total(t) && |s| == |t|
    decreases |s|
  {
    hide Total, Without;
    assert |s| == |multiset(s)| == |multiset(t)| == |t|;
    if s == [] {
      assert s == t;
    } else {
      var x := s[|s| - 1];
      var i := |s| - 1;
      WithoutItem(s, i);
      assert x in multiset(t);
      var j :| 0 <= j < |t| && t[j] == x;
      WithoutItem(t, j);
      CancelOne(multiset(Without(s, i)), multiset(Without(t, j)), x);
      WithoutShorter(s, i);
      TotalPermutation(Without(s, i), Without(t, j));
    }
  }

  lemma {:induction false} PlaceTotal(hash: seq<Byte> -> Hash, blocks: seq<seq<Byte>>)
    ensures Total(Place(hash, blocks)) == |Concat(blocks)|
  {
    if blocks != [] {
      var n := |blocks| - 1;
      PlaceTotal(hash, blocks[..n]);
      var s := Place(hash, blocks);
      assert s[..n] == Place(hash, blocks[..n]);
    }
  }

  lemma {:induction false} RecordCounts(recs: seq<Record>)
    ensures |recs| == |ItemsOf(recs)| + ZeroCount(recs)
    ensures DataBytes(recs) == Total(ItemsOf(recs)) + 2 * |ItemsOf(recs)|
  {
    if recs != [] {
      var n := |recs| - 1;
      RecordCounts(recs[..n]);
      match recs[n] {
        case Zero(_) =>
          assert ItemsOf(recs) == ItemsOf(recs[..n]);
        case Data(item) =>
          assert ItemsOf(recs)[..|ItemsOf(recs)| - 1] == ItemsOf(recs[..n]);
      }
    }
  }

  /** The number of records of a run, from what is known before it: the input length and the size of the hash file. */
  function RecordBound(length: nat, words: nat): nat {
    var n := length / 64 + 1;
    2 * n + 1 + (273 * words + 0x8000_0000 + 65536 + length + 2 * n) / 65537
  }

  lemma RecordsWithinBound(cfg: Config, input: seq<Byte>, view: HashView, placed: seq<Record>)
    requires Result(cfg, input, view, placed)
    ensures |Finished(placed)| <= RecordBound(|input|, view.words)
  {
    hide Body, ItemsOf, HashFile, BlockMap, InputBlocks, Place, Concat, Finished, DataBytes, ZeroCount, Total, Aligned;
    var blocks := InputBlocks(cfg, input);
    var n := |input| / 64 + 1;
    InputBlocksCount(cfg, input);
    InputBlocksSound(cfg, input);
    TotalPermutation(ItemsOf(placed), Place(BlockHash(cfg), blocks));
    PlaceTotal(BlockHash(cfg), blocks);
    RecordCounts(placed);
    FinishedShape(placed);
    var zeroes := ZeroCount(placed);
    assert |ItemsOf(placed)| == |blocks| <= n;
    assert |Body(placed)| <= Limit(view) + 65536 + |input| + 2 * |blocks|;
    assert 65537 * zeroes <= |Body(placed)| + 65537 * |blocks|;
    assert 65537 * (zeroes - |blocks|) <= Limit(view) + 65536 + |input| + 2 * n;
  }

  /** Below 4 GiB, a block whose position does not fit is really lost: the condition of RoundTrip is needed. */
  lemma RoundTripNeedsPositions(cfg: Config, input: seq<Byte>, view: HashView, placed: seq<Record>, x: nat)
    requires Result(cfg, input, view, placed) && |input| < TWO_32 && |Finished(placed)| < Pow256(7)
    requires x < |Finished(placed)| && Finished(placed)[x].Data? && Finished(placed)[x].item.data != []
    requires RestoreFile(Archive(Finished(placed))) == Restored(true, input)
    ensures PositionFits(Finished(placed)[x].item.pos, x)
  {
    hide Body, ItemsOf, HashFile, BlockMap, InputBlocks, Place, Concat, Finished, Total, Aligned, RestoreFile, Archive;
    var recs := Finished(placed);
    FinishedShape(placed);
    InputBlocksSound(cfg, input);
    var p := Place(BlockHash(cfg), InputBlocks(cfg, input));
    TotalPermutation(ItemsOf(recs), p);
    PlaceTotal(BlockHash(cfg), InputBlocks(cfg, input));
    PositionWithin(recs, BlockHash(cfg), InputBlocks(cfg, input), x);
    if !PositionFits(recs[x].item.pos, x) {
      MisfitLosesData(recs, x);
    }
  }

  /** A check before the run: with it every stored position survives. */
  predicate SmallRun(length: nat, words: nat) {
    length < INT_MAX && RecordBound(length, words) * BLOCKSIZE_AVG <= TWO_31
  }

  lemma SmallRunFits(cfg: Config, input: seq<Byte>, view: HashView, placed: seq<Record>)
    requires Result(cfg, input, view, placed) && SmallRun(|input|, view.words)
    ensures PositionsFit(Finished(placed))
  {
    hide Body, ItemsOf, HashFile, BlockMap, InputBlocks, Place, Concat, Finished, RecordBound, Aligned;
    var recs := Finished(placed);
    RecordsWithinBound(cfg, input, view, placed);
    FinishedShape(placed);
    InputBlocksSound(cfg, input);
    Pow256Seven();
    forall i | 0 <= i < |recs| && recs[i].Data? ensures PositionFits(recs[i].item.pos, i) {
      PositionWithin(recs, BlockHash(cfg), InputBlocks(cfg, input), i);
    }
  }

  lemma PositionWithin(recs: seq<Record>, hash: seq<Byte> -> Hash, blocks: seq<seq<Byte>>, i: nat)
    requires Blocks(blocks) && Holds(recs, hash, blocks) && i < |recs| && recs[i].Data?
    ensures recs[i].item.pos <= |Concat(blocks)|
  {
    hide Place, Concat, ItemsOf;
    var p, item := Place(hash, blocks), recs[i].item;
    PlaceTiles(hash, blocks);
    Unseen(recs, p, Concat(blocks), i);
    var j :| 0 <= j < |p| && p[j] == item;
    assert TileAt(p, Concat(blocks), j);
  }

  /** Both programs, one after the other. */
  method AlignAndRestore(cfg: Config, input: seq<Byte>, view: HashView) returns (ok: bool, restored: seq<Byte>)
    requires Extends(cfg) && SmallRun(|input|, view.words)
    ensures ok && restored == input
  {
    hide Archive, Finished, RestoreFile, Result, PositionsFit, SmallRun, Extends, HashFile;
    var archive, hashFile := Blockalign.Blockalign(cfg, input, view);
    ghost var placed :| Result(cfg, input, view, placed) && archive == Archive(Finished(placed))
        && hashFile == HashFile(Finished(placed));
    SmallRunFits(cfg, input, view, placed);
    RoundTrip(cfg, input, view, placed);
    ok, restored := RestoreStream(archive);
  }

  // ---------------------------------------------------------------------------------------
  // Fixed point

  /** The second run, with the hash file of the first, places every block as the first did. */
  lemma FixedPoint(cfg: Config, input: seq<Byte>, none: HashView, first: seq<Record>, again: HashView,
      second: seq<Record>)
    requires none.hasError && Result(cfg, input, none, first)
    requires ViewOf(again, HashFile(Finished(first))) && Result(cfg, input, again, second)
    requires OffsetsFit(first)
    ensures second == first == Direct(cfg, InputBlocks(cfg, input))
    ensures Archive(Finished(second)) == Archive(Finished(first))
    ensures HashFile(Finished(second)) == HashFile(Finished(first))
  {
    hide Body, ItemsOf, BlockMap, InputBlocks, Place, Concat, Finished, Archive, HashFile, Direct, OffsetsFit, Holds,
        ZeroBound, Aligned;
    FinishedShape(first);
    AlignedDirectly(cfg, none, InputBlocks(cfg, input));
    AlignedDirectly(cfg, again, InputBlocks(cfg, input));
  }

  /** The entry of record i has the number of the data records before it. */
  lemma {:induction false} EntryOfRecord(recs: seq<Record>, i: nat)
    requires i < |recs| && recs[i].Data?
    ensures |HashFile(recs)| == |ItemsOf(recs)| > |ItemsOf(recs[..i])|
    ensures HashFile(recs)[|ItemsOf(recs[..i])|] ==
            Entry(recs[i].item.chash, CastInt32(|Body(recs[..i])| - i * BLOCKSIZE_AVG))
    decreases |recs|
  {
    hide Body, CastInt32;
    var n := |recs| - 1;
    EntryCount(recs[..n]);
    if i < n {
      EntryOfRecord(recs[..n], i);
      assert recs[..n][..i] == recs[..i];
    }
  }

  lemma {:induction false} EntryCount(recs: seq<Record>)
    ensures |HashFile(recs)| == |ItemsOf(recs)|
  {
    hide Body, CastInt32;
    if recs != [] { EntryCount(recs[..|recs| - 1]); }
  }

  /**
   * Zero records count as blocks but have no entry: an entry stands for a position that is 546 bytes too low for every
   * zero record before it, and so for the true one if and only if there is none.
   */
  lemma EntryPositionExactly(view: HashView, recs: seq<Record>, i: nat)
    requires ViewOf(view, HashFile(recs)) && i < |recs| && recs[i].Data? && OffsetFits(recs, i)
    ensures var pos, e := |Body(recs[..i])|, |ItemsOf(recs[..i])|;
            && Decoded(view, e) == pos - BLOCKSIZE_AVG * ZeroCount(recs[..i])
            && (Decoded(view, e) == pos <==> ZeroCount(recs[..i]) == 0)
  {
    hide Body, ItemsOf, HashFile, ZeroCount, DataBytes, Total;
    EntryOfRecord(recs, i);
    CastInt32Exact(|Body(recs[..i])| - i * BLOCKSIZE_AVG);
    RecordCounts(recs[..i]);
  }

  /** Without a hash file, 250 MB of input are few enough for every entry of the hash file to fit. */
  predicate SmallInput(length: nat) { 544 * (length / 64 + 1) <= TWO_31 }

  lemma SmallInputFits(cfg: Config, input: seq<Byte>)
    requires SmallInput(|input|)
    ensures OffsetsFit(Direct(cfg, InputBlocks(cfg, input)))
  {
    hide Body, Place, Concat, Direct, InputBlocks;
    var blocks := InputBlocks(cfg, input);
    var recs := Direct(cfg, blocks);
    InputBlocksCount(cfg, input);
    InputBlocksSound(cfg, input);
    forall k | 0 <= k < |recs| ensures OffsetFits(recs, k) {
      DirectBody(cfg, blocks, k);
      ConcatGrows(blocks, k, |blocks|);
      assert blocks[..|blocks|] == blocks;
    }
  }

  /** Two runs on the same input: the second one reads the hash file that the first one wrote. */
  method AlignTwice(cfg: Config, input: seq<Byte>, none: HashView)
    returns (archive1: seq<Byte>, hashFile1: seq<Entry>, archive2: seq<Byte>, hashFile2: seq<Entry>)
    requires Extends(cfg) && none.hasError && SmallInput(|input|)
    ensures archive2 == archive1 && hashFile2 == hashFile1
  {
    hide Archive, Finished, Result, HashFile, OffsetsFit, Extends, InputBlocks, Direct, SmallInput;
    archive1, hashFile1 := Blockalign.Blockalign(cfg, input, none);
    ghost var first :| Result(cfg, input, none, first) && archive1 == Archive(Finished(first))
        && hashFile1 == HashFile(Finished(first));
    var file := hashFile1;
    var again := HashView(false, 2 * |file|, (e: nat) => if e < |file| then file[e] else Entry(0, 0));
    archive2, hashFile2 := Blockalign.Blockalign(cfg, input, again);
    ghost var second :| Result(cfg, input, again, second) && archive2 == Archive(Finished(second))
        && hashFile2 == HashFile(Finished(second));
    FirstIsDirect(cfg, input, none, first);
    SmallInputFits(cfg, input);
    FixedPoint(cfg, input, none, first, again, second);
  }

  lemma FirstIsDirect(cfg: Config, input: seq<Byte>, none: HashView, first: seq<Record>)
    requires none.hasError && Result(cfg, input, none, first)
    ensures first == Direct(cfg, InputBlocks(cfg, input))
  {
    hide InputBlocks, Direct, Aligned;
    AlignedDirectly(cfg, none, InputBlocks(cfg, input));
  }
}
