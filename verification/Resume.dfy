/** A run on the rest of an earlier input: its first blocks are gone, and the others keep their places. */
module Resume {
  import opened Bytes
  import opened BlockFormat
  import opened Chunker
  import opened HashDatabase
  import opened Backlog
  import opened Writer
  import opened Placer
  import opened DirectRun

  /**
   * An earlier run on these blocks, of which the first k are gone now. Entry f is the first one with the checksum of
   * the first block that is left.
   */
  datatype Earlier = Earlier(blocks: seq<seq<Byte>>, k: nat, f: nat)

  /** Where block j started in the earlier run. */
  function Off(cfg: Config, blocks: seq<seq<Byte>>, j: nat): nat
    requires j <= |blocks|
  {
    |Body(Direct(cfg, blocks)[..j])|
  }

  ghost predicate Resumes(cfg: Config, view: HashView, o: Earlier, rest: seq<seq<Byte>>) {
    && 0 < o.k < |o.blocks| && rest == o.blocks[o.k..] && o.k + 1 < SEARCH_LIMIT && o.f < |o.blocks|
    && ViewOf(view, HashFile(Direct(cfg, o.blocks))) && OffsetsFit(Direct(cfg, o.blocks))
    && FirstHit(view, 0, BlockHash(cfg)(o.blocks[o.k]), 0, o.f)
  }

  /** The position for which the first block waits. */
  function Target(cfg: Config, o: Earlier): nat
    requires o.f < |o.blocks|
  {
    Off(cfg, o.blocks, o.f)
  }

  /** Zero filling leads to where the first block was, and if that is far the second block confirms it. */
  ghost predicate Kept(cfg: Config, view: HashView, o: Earlier) {
    && o.k + 1 < |o.blocks| && o.f < |o.blocks|
    && ZeroEnd(0, Target(cfg, o)) == Off(cfg, o.blocks, o.k)
    && (Target(cfg, o) <= DOUBLE_CHECK_LIM ||
        (o.f == o.k && FirstHit(view, 0, BlockHash(cfg)(o.blocks[o.k + 1]), 0, o.k + 1)))
  }

  /** The records when all blocks keep their places: zeroes instead of those that are gone. */
  function KeptRecords(cfg: Config, o: Earlier, done: seq<seq<Byte>>): seq<Record>
    requires o.f < |o.blocks|
  {
    ZeroRecords(0, Target(cfg, o)) + Direct(cfg, done)
  }

  /** The state in which the first block waits. */
  function FirstWaits(cfg: Config, o: Earlier, b: seq<Byte>): Placing
    requires o.f < |o.blocks|
  {
    NOTHING_PLACED.(items := [Positioned(Target(cfg, o), FirstItem(cfg, b))])
  }

  function FirstItem(cfg: Config, b: seq<Byte>): Item { Item(BlockHash(cfg)(b), b, 0) }

  /** The first block was written behind the zeroes, and if places are kept the others follow directly. */
  ghost predicate FirstWritten(cfg: Config, view: HashView, o: Earlier, done: seq<seq<Byte>>, s: Placing)
    requires done != [] && o.f < |o.blocks|
  {
    && (Target(cfg, o) <= DOUBLE_CHECK_LIM ==> Settled(FirstWaits(cfg, o, done[0])).recs <= s.recs)
    && (Kept(cfg, view, o) ==>
          && s.recs == KeptRecords(cfg, o, done) && s.pos == Off(cfg, o.blocks, o.k) + |Body(Direct(cfg, done))|
          && s.Idle() && s.next == o.k + |done| - 1)
  }

  /** The state after the blocks done: the first one waits for its place until the second one comes. */
  ghost predicate ResumedIn(cfg: Config, view: HashView, o: Earlier, done: seq<seq<Byte>>, s: Placing) {
    && o.f < |o.blocks|
    && if done == [] then s == NOTHING_PLACED
       else if |done| == 1 && o.f > 0 then s == FirstWaits(cfg, o, done[0])
       else FirstWritten(cfg, view, o, done, s)
  }

  // ---------------------------------------------------------------------------------------
  // Positions

  lemma {:induction false} OffGrows(cfg: Config, blocks: seq<seq<Byte>>, i: nat, j: nat)
    requires i < j <= |blocks|
    ensures Off(cfg, blocks, i) < Off(cfg, blocks, j)
    decreases j
  {
    hide Body, Direct;
    BodyGrows(Direct(cfg, blocks), j - 1);
    if i < j - 1 {
      OffGrows(cfg, blocks, i, j - 1);
    }
  }

  lemma OffZero(cfg: Config, blocks: seq<seq<Byte>>)
    ensures Off(cfg, blocks, 0) == 0
  {
    hide Body, Direct;
    EmptyBody();
    assert Direct(cfg, blocks)[..0] == [];
  }

  lemma OffNext(cfg: Config, blocks: seq<seq<Byte>>, j: nat)
    requires j < |blocks|
    ensures Off(cfg, blocks, j + 1) == Off(cfg, blocks, j) + 2 + |blocks[j]|
  {
    hide Body, Direct, Place, Concat;
    var recs := Direct(cfg, blocks);
    assert blocks[..j] + [blocks[j]] <= blocks;
    DirectPrefix(cfg, blocks, blocks[..j], blocks[j]);
    assert recs[..j + 1] == recs[..j] + [recs[j]];
    AppendCounts(recs[..j], recs[j]);
  }

  /** The first m blocks from block k on take as much room as they did. */
  lemma {:induction false} OffSplit(cfg: Config, blocks: seq<seq<Byte>>, k: nat, done: seq<seq<Byte>>)
    requires k <= |blocks| && done <= blocks[k..]
    ensures Off(cfg, blocks, k + |done|) == Off(cfg, blocks, k) + |Body(Direct(cfg, done))|
    decreases |done|
  {
    hide Body, Direct, Place, Concat;
    if done == [] {
      EmptyBody();
      assert Direct(cfg, done) == [];
    } else {
      var m := |done| - 1;
      var before, b := done[..m], done[m];
      OffSplit(cfg, blocks, k, before);
      OffNext(cfg, blocks, k + m);
      assert before + [b] == done && b == blocks[k..][m] == blocks[k + m];
      DirectPrefix(cfg, done, before, b);
      AppendCounts(Direct(cfg, before), Data(Item(BlockHash(cfg)(b), b, |Concat(before)|)));
    }
  }

  // ---------------------------------------------------------------------------------------
  // Entries

  /** Entry j of the hash file stands for block j. */
  lemma EntryOf(cfg: Config, view: HashView, blocks: seq<seq<Byte>>, j: nat)
    requires ViewOf(view, HashFile(Direct(cfg, blocks))) && OffsetsFit(Direct(cfg, blocks)) && j < |blocks|
    ensures 2 * j < view.words && Decoded(view, j) == Off(cfg, blocks, j)
    ensures view.entry(j).chash == BlockHash(cfg)(blocks[j])
  {
    hide Body, Direct, Place, Concat, HashFile, BlockHash, OffsetsFit;
    var recs := Direct(cfg, blocks);
    HashFileAt(recs, j);
    FindsOwnEntry(view, recs, j);
    assert blocks[..j] + [blocks[j]] <= blocks;
    DirectPrefix(cfg, blocks, blocks[..j], blocks[j]);
  }

  /** At the place of block j, find selects entry j, wherever it starts before. */
  lemma FindsPlace(cfg: Config, view: HashView, blocks: seq<seq<Byte>>, next: nat, j: nat)
    requires ViewOf(view, HashFile(Direct(cfg, blocks))) && OffsetsFit(Direct(cfg, blocks))
    requires next <= j < |blocks| && j < next + SEARCH_LIMIT
    ensures FirstHit(view, next, BlockHash(cfg)(blocks[j]), Off(cfg, blocks, j), j)
    ensures Decoded(view, j) == Off(cfg, blocks, j)
  {
    hide Direct, HashFile, BlockHash, OffsetsFit, Off, Decoded;
    EntryOf(cfg, view, blocks, j);
    forall i | next <= i < j ensures !Hit(view, i, BlockHash(cfg)(blocks[j]), Off(cfg, blocks, j)) {
      EntryOf(cfg, view, blocks, i);
      OffGrows(cfg, blocks, i, j);
    }
  }

  // ---------------------------------------------------------------------------------------
  // The steps of the run

  /** The first block is found at the position of entry f, and waits there unless that is the start. */
  lemma FirstStep(cfg: Config, view: HashView, o: Earlier, rest: seq<seq<Byte>>)
    requires Resumes(cfg, view, o, rest) && |rest[0]| <= BLOCKSIZE_MAX
    ensures ResumedIn(cfg, view, o, [rest[0]], Process(view, NOTHING_PLACED, FirstItem(cfg, rest[0])))
  {
    hide Body, Direct, Place, Concat, HashFile, BlockHash, OffsetsFit, Off, Decoded, FirstHit, ViewOf, Process;
    var item := FirstItem(cfg, rest[0]);
    EntryOf(cfg, view, o.blocks, o.f);
    OffZero(cfg, o.blocks);
    if o.f == 0 {
      ProcessHere(view, NOTHING_PLACED, item, o.f);
      NothingToFill(0, 0);
      OffGrows(cfg, o.blocks, 0, o.k);
    } else {
      OffGrows(cfg, o.blocks, 0, o.f);
      ProcessAhead(view, NOTHING_PLACED, item, o.f);
    }
  }

  /** The second block makes the first one go to its position, and is found directly behind it. */
  lemma SecondStep(cfg: Config, view: HashView, o: Earlier, rest: seq<seq<Byte>>, item: Item)
    requires Resumes(cfg, view, o, rest) && |rest| > 1 && o.f > 0
    requires item == Item(BlockHash(cfg)(rest[1]), rest[1], |rest[0]|)
    ensures var s := FirstWaits(cfg, o, rest[0]);
            var t := Process(view, s, item);
            && (Target(cfg, o) <= DOUBLE_CHECK_LIM ==> Settled(s).recs <= t.recs)
            && (Kept(cfg, view, o) ==>
                  t == Written(Settled(s).(next := o.k + 1), item) &&
                  t.pos == Off(cfg, o.blocks, o.k + 1) + 2 + |rest[1]|)
  {
    hide Body, Direct, Place, Concat, HashFile, BlockHash, OffsetsFit, Off, Decoded, FirstHit, ZeroEnd, ZeroRecords,
        Process;
    var k, s := o.k, FirstWaits(cfg, o, rest[0]);
    assert rest[0] == o.blocks[k] && rest[1] == o.blocks[k + 1] && !view.hasError;
    OffNext(cfg, o.blocks, k);
    if Target(cfg, o) <= DOUBLE_CHECK_LIM {
      ProcessNear(view, s, item);
      if Kept(cfg, view, o) {
        FindsPlace(cfg, view, o.blocks, 0, k + 1);
        ProcessHere(view, Settled(s), item, k + 1);
      }
    } else if Kept(cfg, view, o) {
      FindsPlace(cfg, view, o.blocks, k + 1, k + 1);
      ProcessFar(view, s, item, k + 1);
      ProcessHere(view, Settled(s.(next := k + 1)), item, k + 1);
    }
  }

  /** From the third block on every block is found at the output position. */
  lemma LaterStep(cfg: Config, view: HashView, o: Earlier, rest: seq<seq<Byte>>, done: seq<seq<Byte>>, b: seq<Byte>,
      s: Placing, item: Item)
    requires Resumes(cfg, view, o, rest) && done + [b] <= rest && done != []
    requires s.Idle() && s.next == o.k + |done| - 1
    requires s.pos == Off(cfg, o.blocks, o.k) + |Body(Direct(cfg, done))| && item.chash == BlockHash(cfg)(b)
    ensures Process(view, s, item) == Written(s.(next := o.k + |done|), item)
  {
    hide Body, Direct, Place, Concat, HashFile, BlockHash, OffsetsFit, Off, Decoded, FirstHit, ViewOf, Process;
    var j := o.k + |done|;
    assert done <= rest && b == rest[|done|] == o.blocks[j];
    OffSplit(cfg, o.blocks, o.k, done);
    FindsPlace(cfg, view, o.blocks, s.next, j);
    ProcessHere(view, s, item, j);
  }

  /** Every call of process_block goes on with the resumed run. */
  lemma ResumeStep(cfg: Config, view: HashView, o: Earlier, rest: seq<seq<Byte>>, done: seq<seq<Byte>>, b: seq<Byte>,
      s: Placing, item: Item)
    requires Resumes(cfg, view, o, rest) && done + [b] <= rest && ResumedIn(cfg, view, o, done, s)
    requires item == Item(BlockHash(cfg)(b), b, |Concat(done)|) && |b| <= BLOCKSIZE_MAX
    ensures ResumedIn(cfg, view, o, done + [b], Process(view, s, item))
  {
    hide Body, Direct, Place, Concat, HashFile, BlockHash, OffsetsFit, Off, Decoded, FirstHit, ViewOf, ZeroEnd,
        ZeroRecords, Process, Kept;
    if done == [] {
      ConcatEmpty();
      assert done + [b] == [rest[0]];
      FirstStep(cfg, view, o, rest);
    } else if |done| == 1 && o.f > 0 {
      assert done == [rest[0]] && b == rest[1] && done + [b] == [rest[0], rest[1]];
      SecondWritten(cfg, view, o, rest, item);
    } else {
      Grows(view, s, item);
      DirectPrefix(cfg, done + [b], done, b);
      AppendCounts(Direct(cfg, done), Data(item));
      if Kept(cfg, view, o) {
        LaterStep(cfg, view, o, rest, done, b, s, item);
      }
    }
  }

  lemma SecondWritten(cfg: Config, view: HashView, o: Earlier, rest: seq<seq<Byte>>, item: Item)
    requires Resumes(cfg, view, o, rest) && |rest| > 1 && o.f > 0
    requires item == Item(BlockHash(cfg)(rest[1]), rest[1], |Concat([rest[0]])|)
    ensures FirstWritten(cfg, view, o, [rest[0], rest[1]], Process(view, FirstWaits(cfg, o, rest[0]), item))
  {
    hide Body, Direct, Place, Concat, HashFile, BlockHash, OffsetsFit, Off, Decoded, FirstHit, ViewOf, ZeroEnd,
        ZeroRecords, Process, Kept;
    var one: seq<seq<Byte>>, two := [rest[0]], [rest[0], rest[1]];
    var none: seq<seq<Byte>> := [];
    ConcatEmpty();
    assert none + one == one && one + [rest[1]] == two;
    AppendBlock(BlockHash(cfg), none, rest[0]);
    DirectPrefix(cfg, two, none, rest[0]);
    DirectPrefix(cfg, two, one, rest[1]);
    AppendCounts(Direct(cfg, one), Data(item));
    SecondStep(cfg, view, o, rest, item);
    OffSplit(cfg, o.blocks, o.k, one);
  }

  lemma {:induction false} ResumedRun(cfg: Config, view: HashView, o: Earlier, rest: seq<seq<Byte>>, m: nat)
    requires Resumes(cfg, view, o, rest) && m <= |rest| && Blocks(rest)
    ensures ResumedIn(cfg, view, o, rest[..m], Run(view, Place(BlockHash(cfg), rest[..m])))
  {
    hide Place, Concat, Process, ResumedIn, Resumes;
    if m == 0 {
      assert rest[..0] == [];
      NothingResumed(cfg, view, o, rest);
    } else {
      var done, b := rest[..m - 1], rest[m - 1];
      var item := Item(BlockHash(cfg)(b), b, |Concat(done)|);
      assert done + [b] == rest[..m];
      ResumedRun(cfg, view, o, rest, m - 1);
      ResumeStep(cfg, view, o, rest, done, b, Run(view, Place(BlockHash(cfg), done)), item);
      AppendBlock(BlockHash(cfg), done, b);
      RunNext(view, Place(BlockHash(cfg), done), item);
    }
  }

  lemma NothingResumed(cfg: Config, view: HashView, o: Earlier, rest: seq<seq<Byte>>)
    requires Resumes(cfg, view, o, rest)
    ensures ResumedIn(cfg, view, o, [], Run(view, Place(BlockHash(cfg), [])))
  {
  }

  // ---------------------------------------------------------------------------------------
  // The final drain

  /** The records of the run; a single block was still waiting, and the drain wrote it at the start. */
  ghost predicate Resumed(cfg: Config, view: HashView, o: Earlier, rest: seq<seq<Byte>>, recs: seq<Record>) {
    && o.f < |o.blocks| && rest != []
    && if |rest| == 1 then [Data(FirstItem(cfg, rest[0]))] <= recs
       else
         && (Target(cfg, o) <= DOUBLE_CHECK_LIM ==> Settled(FirstWaits(cfg, o, rest[0])).recs <= recs)
         && (Kept(cfg, view, o) ==> recs == KeptRecords(cfg, o, rest))
  }

  lemma ResumedAligned(cfg: Config, view: HashView, o: Earlier, rest: seq<seq<Byte>>)
    requires Resumes(cfg, view, o, rest) && Blocks(rest)
    ensures Resumed(cfg, view, o, rest, Aligned(view, Place(BlockHash(cfg), rest)))
  {
    hide Direct, HashFile, BlockHash, OffsetsFit, Off, FirstHit, Kept, ViewOf, ZeroRecords, Run, Place, ZeroEnd;
    ResumedRun(cfg, view, o, rest, |rest|);
    assert rest[..|rest|] == rest;
    if |rest| == 1 && o.f == 0 {
      OffZero(cfg, o.blocks);
      NothingToFill(0, 0);
      assert Settled(FirstWaits(cfg, o, rest[0])).recs == [Data(FirstItem(cfg, rest[0]))];
    }
  }
}
