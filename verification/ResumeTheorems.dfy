/** When the first blocks of an input are gone, the others stay where they were. */
module ResumeTheorems {
  import opened Bytes
  import opened BlockFormat
  import opened Chunker
  import opened HashDatabase
  import opened Backlog
  import opened Writer
  import opened Placer
  import opened DirectRun
  import opened Resume
  import opened Replace
  import opened Blockalign
  import opened RestoreProof
  import opened BlockalignTheorems
  import opened BlockalignLimits

  // ---------------------------------------------------------------------------------------
  // The blocks of the rest of an input

  lemma RestBlocks(cfg: Config, rest: seq<Byte>)
    requires |InputBlocks(cfg, rest)| > 1
    ensures |InputBlocks(cfg, rest)[0]| <= |rest|
    ensures InputBlocks(cfg, rest[|InputBlocks(cfg, rest)[0]|..]) == InputBlocks(cfg, rest)[1..]
  {
    hide Cut;
    var w := Window(rest);
    var n := Cut(cfg, w);
    CutBounds(cfg, w);
    if |w| < BLOCKSIZE_MAX {
      var later := rest[n..];
      assert Window(later) == later;
      assert TailBlocks(cfg, later) == InputBlocks(cfg, later);
    }
  }

  /** Cutting the input behind a block does not change the later blocks. */
  lemma {:induction false} SuffixBlocks(cfg: Config, input: seq<Byte>, k: nat)
    requires k < |InputBlocks(cfg, input)|
    ensures |Concat(InputBlocks(cfg, input)[..k])| <= |input|
    ensures InputBlocks(cfg, input[|Concat(InputBlocks(cfg, input)[..k])|..]) == InputBlocks(cfg, input)[k..]
    decreases k
  {
    hide InputBlocks, Concat;
    var blocks := InputBlocks(cfg, input);
    if k == 0 {
      assert blocks[..0] == [];
      ConcatEmpty();
      assert input[0..] == input;
    } else {
      RestBlocks(cfg, input);
      var b := blocks[0];
      var later := input[|b|..];
      SuffixBlocks(cfg, later, k - 1);
      assert blocks[..k] == [b] + blocks[1..][..k - 1];
      ConcatFirst(b, blocks[1..][..k - 1]);
      var n := |Concat(blocks[1..][..k - 1])|;
      assert later[n..] == input[|b| + n..];
    }
  }

  lemma {:induction false} TailBlocksLong(cfg: Config, rest: seq<Byte>, i: nat)
    requires i + 1 < |TailBlocks(cfg, rest)|
    ensures |TailBlocks(cfg, rest)[i]| >= BLOCKSIZE_MIN
    decreases |rest|
  {
    hide Cut;
    var n := Cut(cfg, rest);
    CutBounds(cfg, rest);
    if i > 0 {
      TailBlocksLong(cfg, rest[n..], i - 1);
    }
  }

  /** Only the last block can be shorter than 64 bytes. */
  lemma {:induction false} BlocksLong(cfg: Config, rest: seq<Byte>, i: nat)
    requires i + 1 < |InputBlocks(cfg, rest)|
    ensures |InputBlocks(cfg, rest)[i]| >= BLOCKSIZE_MIN
    decreases |rest|
  {
    hide Cut;
    var w := Window(rest);
    var n := Cut(cfg, w);
    CutBounds(cfg, w);
    if i > 0 {
      if |w| < BLOCKSIZE_MAX {
        TailBlocksLong(cfg, rest[n..], i - 1);
      } else {
        BlocksLong(cfg, rest[n..], i - 1);
      }
    }
  }

  lemma {:induction false} OffAtLeast(cfg: Config, input: seq<Byte>, k: nat)
    requires k < |InputBlocks(cfg, input)|
    ensures Off(cfg, InputBlocks(cfg, input), k) >= 66 * k
  {
    hide InputBlocks, Off;
    if k > 0 {
      OffAtLeast(cfg, input, k - 1);
      OffNext(cfg, InputBlocks(cfg, input), k - 1);
      BlocksLong(cfg, input, k - 1);
    }
  }

  // ---------------------------------------------------------------------------------------
  // The first block with the same checksum

  /** The first block from i on that has the checksum of block k. */
  function FirstLike(cfg: Config, blocks: seq<seq<Byte>>, k: nat, i: nat): (f: nat)
    requires i <= k < |blocks|
    ensures i <= f <= k && BlockHash(cfg)(blocks[f]) == BlockHash(cfg)(blocks[k])
    ensures forall j | i <= j < f :: BlockHash(cfg)(blocks[j]) != BlockHash(cfg)(blocks[k])
    decreases k - i
  {
    if BlockHash(cfg)(blocks[i]) == BlockHash(cfg)(blocks[k]) then i else FirstLike(cfg, blocks, k, i + 1)
  }

  lemma FindsFirstLike(cfg: Config, view: HashView, blocks: seq<seq<Byte>>, k: nat)
    requires ViewOf(view, HashFile(Direct(cfg, blocks))) && OffsetsFit(Direct(cfg, blocks))
    requires k < |blocks| && k < SEARCH_LIMIT
    ensures FirstHit(view, 0, BlockHash(cfg)(blocks[k]), 0, FirstLike(cfg, blocks, k, 0))
  {
    hide Direct, HashFile, BlockHash, OffsetsFit, Off, Decoded;
    var f := FirstLike(cfg, blocks, k, 0);
    EntryOf(cfg, view, blocks, f);
    forall j | 0 <= j < f ensures !Hit(view, j, BlockHash(cfg)(blocks[k]), 0) {
      EntryOf(cfg, view, blocks, j);
    }
  }

  // ---------------------------------------------------------------------------------------
  // Where the blocks start

  /** A record holds the item, and it starts at this position of the output. */
  ghost predicate StartsAt(recs: seq<Record>, item: Item, pos: nat) {
    exists i | 0 <= i < |recs| :: RecordAt(recs, i, item, pos)
  }

  ghost predicate RecordAt(recs: seq<Record>, i: nat, item: Item, pos: nat)
    requires i < |recs|
  {
    recs[i] == Data(item) && |Body(recs[..i])| == pos
  }

  /** Every block from block k on starts where it did. */
  ghost predicate AllKeep(cfg: Config, blocks: seq<seq<Byte>>, k: nat, placed: seq<Record>)
    requires k <= |blocks|
  {
    forall j | 0 <= j < |blocks| - k ::
      StartsAt(placed, Place(BlockHash(cfg), blocks[k..])[j], Off(cfg, blocks, k + j))
  }

  lemma KeptStarts(cfg: Config, o: Earlier, rest: seq<seq<Byte>>, j: nat)
    requires 0 < o.k < |o.blocks| && rest == o.blocks[o.k..] && o.f < |o.blocks| && j < |rest|
    requires ZeroEnd(0, Target(cfg, o)) == Off(cfg, o.blocks, o.k)
    ensures StartsAt(KeptRecords(cfg, o, rest), Place(BlockHash(cfg), rest)[j], Off(cfg, o.blocks, o.k + j))
  {
    hide Body, Concat, Off, ZeroEnd, ZeroRecords, Place;
    var zeroes, recs := ZeroRecords(0, Target(cfg, o)), KeptRecords(cfg, o, rest);
    var i := |zeroes| + j;
    assert recs[..i] == zeroes + Direct(cfg, rest)[..j];
    BodyConcat(zeroes, Direct(cfg, rest)[..j]);
    ZeroBody(0, Target(cfg, o));
    OffSplit(cfg, o.blocks, o.k, rest[..j]);
    assert rest[..j] + [rest[j]] <= rest;
    DirectPrefix(cfg, rest, rest[..j], rest[j]);
    assert RecordAt(recs, i, Place(BlockHash(cfg), rest)[j], Off(cfg, o.blocks, o.k + j));
  }

  /** An item has one record only. */
  lemma StartsOnce(recs: seq<Record>, hash: seq<Byte> -> Hash, blocks: seq<seq<Byte>>, item: Item, i: nat, pos: nat)
    requires Blocks(blocks) && Holds(recs, hash, blocks)
    requires i < |recs| && recs[i] == Data(item) && StartsAt(recs, item, pos)
    ensures |Body(recs[..i])| == pos
  {
    hide Body, Place, Concat, ItemsOf;
    var n :| 0 <= n < |recs| && RecordAt(recs, n, item, pos);
    var p, input := Place(hash, blocks), Concat(blocks);
    PlaceTiles(hash, blocks);
    Unseen(recs, p, input, n);
    Unseen(recs, p, input, i);
    if i < n {
      ItemIn(recs, i, n);
    } else if n < i {
      ItemIn(recs, n, i);
    }
  }

  lemma {:induction false} ItemIn(recs: seq<Record>, i: nat, n: nat)
    requires i < n <= |recs| && recs[i].Data?
    ensures recs[i].item in ItemsOf(recs[..n])
    decreases n
  {
    var last := recs[..n];
    assert last[..n - 1] == recs[..n - 1];
    if i < n - 1 {
      ItemIn(recs, i, n - 1);
    }
  }

  // ---------------------------------------------------------------------------------------
  // The theorems

  /** The input without its first k blocks. */
  function Rest(cfg: Config, input: seq<Byte>, k: nat): seq<Byte>
    requires k < |InputBlocks(cfg, input)|
  {
    SuffixBlocks(cfg, input, k);
    input[|Concat(InputBlocks(cfg, input)[..k])|..]
  }

  /** A run on the rest of an input with the hash file of a run on all of it. */
  ghost predicate SecondRun(cfg: Config, input: seq<Byte>, view: HashView, k: nat, placed: seq<Record>) {
    var blocks := InputBlocks(cfg, input);
    && 0 < k < |blocks| && Result(cfg, Rest(cfg, input, k), view, placed)
    && ViewOf(view, HashFile(Direct(cfg, blocks))) && OffsetsFit(Direct(cfg, blocks))
  }

  lemma SecondRunResumed(cfg: Config, input: seq<Byte>, view: HashView, k: nat, placed: seq<Record>)
    requires SecondRun(cfg, input, view, k, placed) && k + 1 < SEARCH_LIMIT
    ensures var blocks := InputBlocks(cfg, input);
            var o := Earlier(blocks, k, FirstLike(cfg, blocks, k, 0));
            && Resumes(cfg, view, o, blocks[k..]) && Resumed(cfg, view, o, blocks[k..], placed)
            && Blocks(blocks[k..]) && Holds(placed, BlockHash(cfg), blocks[k..])
  {
    hide InputBlocks, Concat, Direct, HashFile, OffsetsFit, BlockHash, Resumed, ItemsOf, Place, FirstHit, Blocks,
        Aligned, ZeroBound, WellFormed, DataBytes, Body, ViewOf;
    var blocks := InputBlocks(cfg, input);
    SuffixBlocks(cfg, input, k);
    InputBlocksSound(cfg, Rest(cfg, input, k));
    FindsFirstLike(cfg, view, blocks, k);
    ResumedAligned(cfg, view, Earlier(blocks, k, FirstLike(cfg, blocks, k, 0)), blocks[k..]);
  }

  /**
   * Up to 100 KiB are gone: all other blocks start where they did, if and only if at least two are left and zero
   * filling to the first block with the same checksum leads to the place of the first one left.
   */
  lemma KeepsPlacesExactly(cfg: Config, input: seq<Byte>, view: HashView, k: nat, placed: seq<Record>)
    requires SecondRun(cfg, input, view, k, placed)
    requires Off(cfg, InputBlocks(cfg, input), k) <= DOUBLE_CHECK_LIM
    ensures var blocks := InputBlocks(cfg, input);
            AllKeep(cfg, blocks, k, placed) <==>
            (|blocks| - k >= 2 &&
             ZeroEnd(0, Off(cfg, blocks, FirstLike(cfg, blocks, k, 0))) == Off(cfg, blocks, k))
  {
    hide InputBlocks, Direct, Off, SecondRun, Result, Resumes, ZeroEnd, Place, StartsAt, Holds;
    var blocks := InputBlocks(cfg, input);
    SecondRunBounds(cfg, input, view, k, placed);
    var o := Earlier(blocks, k, FirstLike(cfg, blocks, k, 0));
    OffAtLeast(cfg, input, k);
    SecondRunResumed(cfg, input, view, k, placed);
    OffMonotone(cfg, blocks, o.f, k);
    if |blocks| - k >= 2 && ZeroEnd(0, Target(cfg, o)) == Off(cfg, blocks, k) {
      KeptRun(cfg, view, o, blocks[k..], placed);
    } else if AllKeep(cfg, blocks, k, placed) {
      MovedRun(cfg, view, o, blocks[k..], placed);
    }
  }

  lemma SecondRunBounds(cfg: Config, input: seq<Byte>, view: HashView, k: nat, placed: seq<Record>)
    requires SecondRun(cfg, input, view, k, placed)
    ensures 0 < k < |InputBlocks(cfg, input)|
  {
  }

  lemma OffMonotone(cfg: Config, blocks: seq<seq<Byte>>, i: nat, j: nat)
    requires i <= j <= |blocks|
    ensures Off(cfg, blocks, i) <= Off(cfg, blocks, j)
  {
    hide Off;
    if i < j { OffGrows(cfg, blocks, i, j); }
  }

  lemma KeptRun(cfg: Config, view: HashView, o: Earlier, rest: seq<seq<Byte>>, placed: seq<Record>)
    requires 0 < o.k < |o.blocks| && rest == o.blocks[o.k..] && |rest| >= 2
    requires Resumed(cfg, view, o, rest, placed) && Kept(cfg, view, o)
    ensures AllKeep(cfg, o.blocks, o.k, placed)
  {
    hide Direct, Off, ZeroEnd, Place, StartsAt, KeptRecords, BlockHash, Target, FirstHit;
    forall j | 0 <= j < |rest|
      ensures StartsAt(placed, Place(BlockHash(cfg), rest)[j], Off(cfg, o.blocks, o.k + j))
    {
      KeptStarts(cfg, o, rest, j);
    }
  }

  /** Otherwise the first block left is written somewhere else. */
  lemma MovedRun(cfg: Config, view: HashView, o: Earlier, rest: seq<seq<Byte>>, placed: seq<Record>)
    requires 0 < o.k < |o.blocks| && rest == o.blocks[o.k..] && Blocks(rest) && Holds(placed, BlockHash(cfg), rest)
    requires Resumed(cfg, view, o, rest, placed) && Target(cfg, o) <= DOUBLE_CHECK_LIM
    requires AllKeep(cfg, o.blocks, o.k, placed)
    ensures |rest| >= 2 && ZeroEnd(0, Target(cfg, o)) == Off(cfg, o.blocks, o.k)
  {
    hide Direct, Off, ZeroEnd, StartsAt, BlockHash, Target, Body, Concat, Holds, ZeroRecords, Place, Kept;
    var item, at := FirstItem(cfg, rest[0]), Off(cfg, o.blocks, o.k);
    PlaceAt(BlockHash(cfg), rest, 0);
    assert rest[..0] == [];
    ConcatEmpty();
    assert StartsAt(placed, Place(BlockHash(cfg), rest)[0], Off(cfg, o.blocks, o.k + 0));
    if |rest| == 1 {
      StartsOnce(placed, BlockHash(cfg), rest, item, 0, at);
      EmptyBody();
      assert placed[..0] == [];
      OffZero(cfg, o.blocks);
      OffGrows(cfg, o.blocks, 0, o.k);
    } else {
      var zeroes := ZeroRecords(0, Target(cfg, o));
      var first := Settled(FirstWaits(cfg, o, rest[0])).recs;
      assert first == zeroes + [Data(item)];
      StartsOnce(placed, BlockHash(cfg), rest, item, |zeroes|, at);
      assert placed[..|zeroes|] == zeroes;
      ZeroBody(0, Target(cfg, o));
    }
  }

  /** A checksum that is met for the first time and a gap that is not 1 modulo 65537 keep all places. */
  lemma KeepsPlaces(cfg: Config, input: seq<Byte>, view: HashView, k: nat, placed: seq<Record>)
    requires SecondRun(cfg, input, view, k, placed) && k + 1 < |InputBlocks(cfg, input)|
    requires FirstLike(cfg, InputBlocks(cfg, input), k, 0) == k
    requires Off(cfg, InputBlocks(cfg, input), k) % 65537 != 1
    requires var blocks := InputBlocks(cfg, input);
             Off(cfg, blocks, k) <= DOUBLE_CHECK_LIM ||
             (k + 1 < SEARCH_LIMIT && FirstLike(cfg, blocks, k + 1, 0) == k + 1)
    ensures AllKeep(cfg, InputBlocks(cfg, input), k, placed)
  {
    hide InputBlocks, Direct, Off, SecondRun, Result, Place, StartsAt, Holds, Resumed, FirstHit, ViewOf,
        HashFile, OffsetsFit, Blocks;
    var blocks := InputBlocks(cfg, input);
    SecondRunBounds(cfg, input, view, k, placed);
    if Off(cfg, blocks, k) <= DOUBLE_CHECK_LIM {
      KeepsPlacesExactly(cfg, input, view, k, placed);
    } else {
      SecondRunResumed(cfg, input, view, k, placed);
      FindsFirstLike(cfg, view, blocks, k + 1);
      KeptRun(cfg, view, Earlier(blocks, k, k), blocks[k..], placed);
    }
  }

  /** A last block alone is written at the start, wherever it was. */
  lemma LastBlockMoves(cfg: Config, input: seq<Byte>, view: HashView, placed: seq<Record>)
    requires var blocks := InputBlocks(cfg, input);
             && |blocks| > 1 && Off(cfg, blocks, |blocks| - 1) <= DOUBLE_CHECK_LIM
             && SecondRun(cfg, input, view, |blocks| - 1, placed)
    ensures !AllKeep(cfg, InputBlocks(cfg, input), |InputBlocks(cfg, input)| - 1, placed)
  {
    hide SecondRun, AllKeep, InputBlocks, Off;
    KeepsPlacesExactly(cfg, input, view, |InputBlocks(cfg, input)| - 1, placed);
  }

  /** An input of 192 zero bytes, cut into blocks of 64, does not keep the places of the blocks that are left. */
  lemma EqualBlocksMove(cfg: Config, view: HashView, k: nat, placed: seq<Record>)
    requires AcceptsAll(cfg) && SecondRun(cfg, seq(192, _ => 0), view, k, placed) && k < 3
    ensures !AllKeep(cfg, InputBlocks(cfg, seq(192, _ => 0)), k, placed)
  {
    hide SecondRun, AllKeep, InputBlocks, Off, Concat, ZeroEnd;
    var input: seq<Byte> := seq(192, _ => 0);
    var blocks := InputBlocks(cfg, input);
    SecondRunBounds(cfg, input, view, k, placed);
    ZeroBlock(cfg, input, k);
    ZeroBlock(cfg, input, 0);
    InputBlocksSound(cfg, input);
    assert blocks[k] == blocks[0];
    assert FirstLike(cfg, blocks, k, 0) == 0;
    OffZero(cfg, blocks);
    OffGrows(cfg, blocks, 0, k);
    NothingToFill(0, 0);
    OffNear(cfg, blocks, k);
    KeepsPlacesExactly(cfg, input, view, k, placed);
  }

  lemma ZeroBlock(cfg: Config, input: seq<Byte>, k: nat)
    requires AcceptsAll(cfg) && input == seq(192, _ => 0) && k < 3
    ensures k < |InputBlocks(cfg, input)| && InputBlocks(cfg, input)[k] == seq(64, _ => 0)
  {
    hide InputBlocks, Concat;
    var blocks := InputBlocks(cfg, input);
    ShortBlocks(cfg, input, k);
    InputBlocksSound(cfg, input);
    ConcatSlice(blocks, k);
    assert input[64 * k..64 * k + 64] == seq(64, _ => 0);
  }

  lemma {:induction false} OffNear(cfg: Config, blocks: seq<seq<Byte>>, k: nat)
    requires k <= |blocks| && Blocks(blocks)
    ensures Off(cfg, blocks, k) <= 1026 * k
  {
    hide Off;
    if k == 0 {
      OffZero(cfg, blocks);
    } else {
      OffNear(cfg, blocks, k - 1);
      OffNext(cfg, blocks, k - 1);
    }
  }

  // ---------------------------------------------------------------------------------------
  // A third run

  /** A first block that is found near but not at the start gets a record where zero filling to that hit ends. */
  lemma FirstGoes(cfg: Config, view: HashView, rest: seq<seq<Byte>>, e: nat)
    requires |rest| >= 2 && Blocks(rest) && FirstHit(view, 0, BlockHash(cfg)(rest[0]), 0, e)
    requires 0 < Decoded(view, e) <= DOUBLE_CHECK_LIM
    ensures ZeroRecords(0, Decoded(view, e)) + [Data(FirstItem(cfg, rest[0]))] <=
            Aligned(view, Place(BlockHash(cfg), rest))
  {
    hide Place, Concat, FirstHit, Decoded, ZeroRecords, ZeroEnd, Process, BlockHash, Before, Aligned, ItemAt;
    var item, d := FirstItem(cfg, rest[0]), Decoded(view, e);
    var s := NOTHING_PLACED.(items := [Positioned(d, item)]);
    FirstBefore(cfg, view, rest);
    ProcessAhead(view, NOTHING_PLACED, item, e);
    BeforeNext(cfg, view, rest, 1);
    ProcessNear(view, s, ItemAt(cfg, rest, 1));
    KeepsRecords(cfg, view, rest, 2, |rest|);
    LastBefore(cfg, view, rest);
    assert Settled(s).recs == ZeroRecords(0, d) + [Data(item)];
  }

  lemma LastBefore(cfg: Config, view: HashView, rest: seq<seq<Byte>>)
    ensures Before(cfg, view, rest, |rest|).recs <= Aligned(view, Place(BlockHash(cfg), rest))
  {
    hide Run, Place, Drained;
    assert rest[..|rest|] == rest;
  }

  lemma FirstBefore(cfg: Config, view: HashView, rest: seq<seq<Byte>>)
    requires rest != []
    ensures Before(cfg, view, rest, 1) == Process(view, NOTHING_PLACED, FirstItem(cfg, rest[0]))
  {
    hide Process, Concat;
    BeforeNext(cfg, view, rest, 0);
    assert rest[..0] == [];
    ConcatEmpty();
  }

  /** The entry of the first block in the hash file of a run that began with zeroes. */
  lemma FirstEntry(cfg: Config, view: HashView, target: nat, rest: seq<seq<Byte>>)
    requires rest != [] && target % 65537 != 1
    requires var recs := ZeroRecords(0, target) + Direct(cfg, rest);
             ViewOf(view, HashFile(recs)) && OffsetFits(recs, |ZeroRecords(0, target)|)
    ensures Decoded(view, 0) == target - BLOCKSIZE_AVG * |ZeroRecords(0, target)| && 0 < view.words
    ensures view.entry(0).chash == BlockHash(cfg)(rest[0]) && !view.hasError
  {
    hide Body, ItemsOf, HashFile, ZeroCount, ZeroRecords, Direct, BlockHash, Concat, Decoded;
    var zeroes := ZeroRecords(0, target);
    var recs, z := zeroes + Direct(cfg, rest), |ZeroRecords(0, target)|;
    assert recs[..z] == zeroes && rest[..0] == [] && [] + [rest[0]] <= rest;
    DirectPrefix(cfg, rest, [], rest[0]);
    ZeroesAreZero(0, target);
    NoItems(zeroes);
    ZeroBody(0, target);
    EntryOfRecord(recs, z);
    EntryPositionExactly(view, recs, z);
  }

  lemma {:induction false} ZeroesAreZero(pos: nat, target: int)
    ensures forall i | 0 <= i < |ZeroRecords(pos, target)| :: ZeroRecords(pos, target)[i].Zero?
    decreases target - pos
  {
    hide ZeroLength;
    if pos < target {
      ZeroesAreZero(pos + 2 + ZeroLength(target - pos), target);
    }
  }

  lemma {:induction false} NoItems(recs: seq<Record>)
    requires forall i | 0 <= i < |recs| :: recs[i].Zero?
    ensures ItemsOf(recs) == [] && ZeroCount(recs) == |recs|
  {
    if recs != [] { NoItems(recs[..|recs| - 1]); }
  }

  /**
   * A run on the rest of an input wrote zeroes and kept all places. The next run, on the same input and with the hash
   * file of that one, does not when more than 546 bytes for each zero record were gone.
   */
  lemma ThirdRunMoves(cfg: Config, blocks: seq<seq<Byte>>, k: nat, view: HashView, placed: seq<Record>)
    requires 0 < k && k + 1 < |blocks| && Blocks(blocks[k..]) && Off(cfg, blocks, k) % 65537 != 1
    requires var target := Off(cfg, blocks, k);
             var kept := ZeroRecords(0, target) + Direct(cfg, blocks[k..]);
             && BLOCKSIZE_AVG * |ZeroRecords(0, target)| < target <= DOUBLE_CHECK_LIM
             && ViewOf(view, HashFile(kept)) && OffsetFits(kept, |ZeroRecords(0, target)|)
    requires placed == Aligned(view, Place(BlockHash(cfg), blocks[k..]))
    requires Holds(placed, BlockHash(cfg), blocks[k..])
    ensures !AllKeep(cfg, blocks, k, placed)
  {
    hide Body, HashFile, Direct, Place, Off, ZeroRecords, Aligned, Holds, StartsAt, OffsetFits, ViewOf, Concat,
        Decoded, BlockHash;
    var rest, target := blocks[k..], Off(cfg, blocks, k);
    var z := |ZeroRecords(0, target)|;
    var d := target - BLOCKSIZE_AVG * z;
    var item := FirstItem(cfg, rest[0]);
    FirstEntry(cfg, view, target, rest);
    FirstGoes(cfg, view, rest, 0);
    SomeZeroes(target);
    if AllKeep(cfg, blocks, k, placed) {
      PlaceAt(BlockHash(cfg), rest, 0);
      assert rest[..0] == [];
      ConcatEmpty();
      assert StartsAt(placed, Place(BlockHash(cfg), rest)[0], Off(cfg, blocks, k + 0));
      var zeroes := ZeroRecords(0, d);
      assert placed[|zeroes|] == Data(item) && placed[..|zeroes|] == zeroes;
      StartsOnce(placed, BlockHash(cfg), rest, item, |zeroes|, target);
      ZeroBody(0, d);
    }
  }

  lemma SomeZeroes(target: nat)
    requires target > 0
    ensures |ZeroRecords(0, target)| > 0
  {
  }

  /** A run on an input in which one block was replaced, with the hash file of a run on the earlier input. */
  ghost predicate EditedRun(cfg: Config, input: seq<Byte>, k: nat, edited: seq<Byte>, view: HashView,
      placed: seq<Record>) {
    var was, now := InputBlocks(cfg, input), InputBlocks(cfg, edited);
    && k < |was| == |now| && now == was[k := now[k]] && Replaces(cfg, view, was, k, now[k])
    && Result(cfg, edited, view, placed)
  }

  /**
   * One block was replaced by a new one of the same length: the run writes all blocks in order and every block starts
   * where the block with its number did, if and only if the next block does not have the checksum of the replaced one.
   */
  lemma EditKeepsPlacesExactly(cfg: Config, input: seq<Byte>, k: nat, edited: seq<Byte>, view: HashView,
      placed: seq<Record>)
    requires EditedRun(cfg, input, k, edited, view, placed)
    ensures var was, now := InputBlocks(cfg, input), InputBlocks(cfg, edited);
            && (placed == Direct(cfg, now) <==> Distinct(cfg, was, k))
            && (Distinct(cfg, was, k) ==>
                  forall j | 0 <= j < |now| ::
                    StartsAt(placed, Place(BlockHash(cfg), now)[j], Off(cfg, was, j)))
  {
    hide InputBlocks, Direct, Place, Aligned, Distinct, Replaces, StartsAt, Off, Holds, ZeroBound, WellFormed,
        DataBytes;
    var was, now := InputBlocks(cfg, input), InputBlocks(cfg, edited);
    ReplacedExactly(cfg, view, was, k, now[k]);
    if Distinct(cfg, was, k) {
      forall j | 0 <= j < |now| ensures StartsAt(placed, Place(BlockHash(cfg), now)[j], Off(cfg, was, j)) {
        DirectStarts(cfg, now, j);
        SameLength(cfg, view, was, k, now[k]);
        OffReplaced(cfg, was, k, now[k], j);
      }
    }
  }

  lemma SameLength(cfg: Config, view: HashView, was: seq<seq<Byte>>, k: nat, x: seq<Byte>)
    requires Replaces(cfg, view, was, k, x)
    ensures k < |was| && |x| == |was[k]|
  {
  }

  lemma DirectStarts(cfg: Config, blocks: seq<seq<Byte>>, j: nat)
    requires j < |blocks|
    ensures StartsAt(Direct(cfg, blocks), Place(BlockHash(cfg), blocks)[j], Off(cfg, blocks, j))
  {
    hide Body, Place;
    assert RecordAt(Direct(cfg, blocks), j, Place(BlockHash(cfg), blocks)[j], Off(cfg, blocks, j));
  }

  /** The program runs on an input, and then on what is left of it with the hash file of the first run. */
  method AlignRest(cfg: Config, input: seq<Byte>, none: HashView, k: nat)
    returns (hashFile: seq<Entry>, archive: seq<Byte>, ghost placed: seq<Record>)
    requires Extends(cfg) && none.hasError && SmallInput(|input|)
    requires 0 < k < |InputBlocks(cfg, input)|
    ensures archive == Archive(Finished(placed)) && hashFile == HashFile(Finished(placed))
    ensures var blocks := InputBlocks(cfg, input);
            Off(cfg, blocks, k) <= DOUBLE_CHECK_LIM ==>
              (AllKeep(cfg, blocks, k, placed) <==>
               (|blocks| - k >= 2 &&
                ZeroEnd(0, Off(cfg, blocks, FirstLike(cfg, blocks, k, 0))) == Off(cfg, blocks, k)))
  {
    hide Archive, Finished, Result, HashFile, OffsetsFit, Extends, InputBlocks, Direct, SmallInput, AllKeep, Off,
        ZeroEnd, Concat, Rest;
    var archive1, file := Blockalign.Blockalign(cfg, input, none);
    ghost var first :| Result(cfg, input, none, first) && archive1 == Archive(Finished(first))
        && file == HashFile(Finished(first));
    var again := HashView(false, 2 * |file|, (e: nat) => if e < |file| then file[e] else Entry(0, 0));
    archive, hashFile := Blockalign.Blockalign(cfg, Rest(cfg, input, k), again);
    placed :| Result(cfg, Rest(cfg, input, k), again, placed) && archive == Archive(Finished(placed))
        && hashFile == HashFile(Finished(placed));
    FirstIsDirect(cfg, input, none, first);
    FirstFile(cfg, input, none, first);
    SmallInputFits(cfg, input);
    assert SecondRun(cfg, input, again, k, placed);
    if Off(cfg, InputBlocks(cfg, input), k) <= DOUBLE_CHECK_LIM {
      KeepsPlacesExactly(cfg, input, again, k, placed);
    }
  }

  lemma FirstFile(cfg: Config, input: seq<Byte>, none: HashView, first: seq<Record>)
    requires Result(cfg, input, none, first)
    ensures HashFile(Finished(first)) == HashFile(first)
  {
    hide HashFile, Finished, Body, ItemsOf, Aligned;
    FinishedShape(first);
  }
}
