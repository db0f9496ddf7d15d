/** A run that meets every block at its own place writes the blocks in input order. */
module DirectRun {
  import opened Bytes
  import opened BlockFormat
  import opened Chunker
  import opened HashDatabase
  import opened Placer

  /** One data record per item, in order. */
  function DirectRecords(items: seq<Item>): (r: seq<Record>)
    ensures |r| == |items| && forall i | 0 <= i < |items| :: r[i] == Data(items[i])
  {
    seq(|items|, i requires 0 <= i < |items| => Data(items[i]))
  }

  /** The output position of record k fits the hash file entry. */
  predicate OffsetFits(recs: seq<Record>, k: nat)
    requires k <= |recs|
  {
    FitsInt32(|Body(recs[..k])| - k * BLOCKSIZE_AVG)
  }

  ghost predicate OffsetsFit(recs: seq<Record>) {
    forall k | 0 <= k < |recs| :: OffsetFits(recs, k)
  }

  /** The view of exactly this hash file. */
  ghost predicate ViewOf(view: HashView, file: seq<Entry>) {
    !view.hasError && view.words == 2 * |file| && forall e | 0 <= e < |file| :: view.entry(e) == file[e]
  }

  lemma {:induction false} HashFileAt(recs: seq<Record>, k: nat)
    requires (forall i | 0 <= i < |recs| :: recs[i].Data?) && k < |recs|
    ensures |HashFile(recs)| == |recs|
    ensures HashFile(recs)[k] == Entry(recs[k].item.chash, CastInt32(|Body(recs[..k])| - k * BLOCKSIZE_AVG))
    decreases |recs|
  {
    hide Body;
    var n := |recs| - 1;
    if n > 0 {
      HashFileAt(recs[..n], if k < n then k else 0);
    }
    if k < n {
      assert recs[..n][..k] == recs[..k];
    }
  }

  lemma {:induction false} BodyGrows(recs: seq<Record>, k: nat)
    requires k < |recs|
    ensures |Body(recs[..k])| < |Body(recs[..k + 1])|
  {
    assert recs[..k + 1] == recs[..k] + [recs[k]];
    AppendCounts(recs[..k], recs[k]);
  }

  /**
   * Why find selects entry k for block k, whatever the checksums: the search starts at the previous
   * block's entry, whose position is already behind the output position.
   */
  lemma FindsOwnEntry(view: HashView, recs: seq<Record>, k: nat)
    requires (forall i | 0 <= i < |recs| :: recs[i].Data?) && OffsetsFit(recs)
    requires ViewOf(view, HashFile(recs)) && k < |recs|
    ensures Hit(view, k, recs[k].item.chash, |Body(recs[..k])|) && Decoded(view, k) == |Body(recs[..k])|
    ensures k > 0 ==> !Hit(view, k - 1, recs[k].item.chash, |Body(recs[..k])|)
  {
    HashFileAt(recs, k);
    assert OffsetFits(recs, k);
    CastInt32Exact(|Body(recs[..k])| - k * BLOCKSIZE_AVG);
    if k > 0 {
      HashFileAt(recs, k - 1);
      assert OffsetFits(recs, k - 1);
      CastInt32Exact(|Body(recs[..k - 1])| - (k - 1) * BLOCKSIZE_AVG);
      BodyGrows(recs, k - 1);
    }
  }

  /** The records of a run in which every block is written as soon as it is met. */
  function Direct(cfg: Config, blocks: seq<seq<Byte>>): (r: seq<Record>)
    ensures |r| == |blocks| && forall i | 0 <= i < |r| :: r[i].Data?
  {
    DirectRecords(Place(BlockHash(cfg), blocks))
  }

  lemma {:induction false} PlacePrefix(hash: seq<Byte> -> Hash, blocks: seq<seq<Byte>>, k: nat)
    requires k <= |blocks|
    ensures Place(hash, blocks[..k]) == Place(hash, blocks)[..k]
    decreases |blocks|
  {
    var n := |blocks| - 1;
    if k <= n {
      PlacePrefix(hash, blocks[..n], k);
      assert blocks[..n][..k] == blocks[..k];
    } else {
      assert blocks[..k] == blocks;
    }
  }

  lemma {:induction false} DirectPrefix(cfg: Config, blocks: seq<seq<Byte>>, done: seq<seq<Byte>>, b: seq<Byte>)
    requires done + [b] <= blocks
    ensures |Direct(cfg, blocks)| == |blocks| && Direct(cfg, blocks)[..|done|] == Direct(cfg, done)
    ensures Direct(cfg, done + [b]) == Direct(cfg, done) + [Data(Item(BlockHash(cfg)(b), b, |Concat(done)|))]
    ensures Direct(cfg, blocks)[|done|] == Data(Item(BlockHash(cfg)(b), b, |Concat(done)|))
  {
    hide Place, Concat;
    var hash, k := BlockHash(cfg), |done|;
    assert blocks[..k] == done && blocks[..k + 1] == done + [b];
    PlacePrefix(hash, blocks, k);
    PlacePrefix(hash, blocks, k + 1);
    AppendBlock(hash, done, b);
    assert Place(hash, blocks)[k] == Place(hash, blocks[..k + 1])[k];
  }

  lemma {:induction false} DirectBody(cfg: Config, blocks: seq<seq<Byte>>, k: nat)
    requires k <= |blocks|
    ensures |Body(Direct(cfg, blocks)[..k])| == |Concat(blocks[..k])| + 2 * k
  {
    hide Place, Concat, Direct, Body;
    if k == 0 {
      ConcatEmpty();
      EmptyBody();
      assert blocks[..0] == [] && Direct(cfg, blocks)[..0] == [];
    } else {
      var done, b := blocks[..k - 1], blocks[k - 1];
      assert blocks[..k] == done + [b];
      DirectBody(cfg, blocks, k - 1);
      DirectPrefix(cfg, blocks, done, b);
      AppendBlock(BlockHash(cfg), done, b);
      var recs := Direct(cfg, blocks);
      assert recs[..k] == recs[..k - 1] + [recs[k - 1]];
      AppendCounts(recs[..k - 1], recs[k - 1]);
    }
  }

  // ---------------------------------------------------------------------------------------
  // The run

  /** Without a hash file, or with the hash file of a direct run, the run is direct. */
  ghost predicate Replays(cfg: Config, view: HashView, blocks: seq<seq<Byte>>) {
    view.hasError || (ViewOf(view, HashFile(Direct(cfg, blocks))) && OffsetsFit(Direct(cfg, blocks)))
  }

  ghost predicate IsDirect(cfg: Config, view: HashView, done: seq<seq<Byte>>, s: Placing) {
    && s.Idle() && s.recs == Direct(cfg, done) && s.pos == |Body(s.recs)|
    && (!view.hasError ==> s.next == if done == [] then 0 else |done| - 1)
  }

  /** In a direct run the next block hits its own entry. */
  lemma DirectHit(cfg: Config, view: HashView, blocks: seq<seq<Byte>>, done: seq<seq<Byte>>, b: seq<Byte>, s: Placing)
    requires IsDirect(cfg, view, done, s) && done + [b] <= blocks && !view.hasError && Replays(cfg, view, blocks)
    ensures FirstHit(view, s.next, BlockHash(cfg)(b), s.pos, |done|) && Decoded(view, |done|) == s.pos
  {
    hide Body, HashFile, Place, Concat, Hit, Decoded, Direct, DirectRecords, OffsetsFit;
    var k := |done|;
    var recs := Direct(cfg, blocks);
    DirectPrefix(cfg, blocks, done, b);
    FindsOwnEntry(view, recs, k);
    HashFileAt(recs, k);
  }

  lemma DirectStep(cfg: Config, view: HashView, blocks: seq<seq<Byte>>, done: seq<seq<Byte>>, b: seq<Byte>, s: Placing)
    requires IsDirect(cfg, view, done, s) && done + [b] <= blocks && Replays(cfg, view, blocks)
    ensures IsDirect(cfg, view, done + [b], Process(view, s, Item(BlockHash(cfg)(b), b, |Concat(done)|)))
  {
    hide Body, HashFile, Place, Concat, Hit, Decoded, Direct, Replays, Process;
    var item := Item(BlockHash(cfg)(b), b, |Concat(done)|);
    DirectPrefix(cfg, blocks, done, b);
    AppendCounts(s.recs, Data(item));
    if view.hasError {
      ProcessWithoutFile(view, s, item);
    } else {
      DirectHit(cfg, view, blocks, done, b, s);
      ProcessHere(view, s, item, |done|);
    }
  }

  lemma {:induction false} DirectSteps(cfg: Config, view: HashView, blocks: seq<seq<Byte>>, k: nat)
    requires Replays(cfg, view, blocks) && k <= |blocks|
    ensures IsDirect(cfg, view, blocks[..k], Run(view, Place(BlockHash(cfg), blocks[..k])))
  {
    hide Body, Place, Concat, Replays, Process, IsDirect;
    if k == 0 {
      assert blocks[..0] == [];
      NothingDone(cfg, view);
    } else {
      var done, b := blocks[..k - 1], blocks[k - 1];
      assert done + [b] == blocks[..k];
      DirectSteps(cfg, view, blocks, k - 1);
      DirectStep(cfg, view, blocks, done, b, Run(view, Place(BlockHash(cfg), done)));
      AppendBlock(BlockHash(cfg), done, b);
      RunNext(view, Place(BlockHash(cfg), done), Item(BlockHash(cfg)(b), b, |Concat(done)|));
    }
  }

  lemma NothingDone(cfg: Config, view: HashView)
    ensures IsDirect(cfg, view, [], Run(view, Place(BlockHash(cfg), [])))
  {
    EmptyBody();
  }

  /** Every block is written as soon as it is met. */
  lemma AlignedDirectly(cfg: Config, view: HashView, blocks: seq<seq<Byte>>)
    requires Replays(cfg, view, blocks)
    ensures Aligned(view, Place(BlockHash(cfg), blocks)) == Direct(cfg, blocks)
  {
    hide Body, Place, Replays, Run, Direct;
    DirectSteps(cfg, view, blocks, |blocks|);
    assert blocks[..|blocks|] == blocks;
  }
}
