/** A run on an earlier input in which one block was replaced by one of the same length. */
module Replace {
  import opened Options
  import opened Bytes
  import opened BlockFormat
  import opened Chunker
  import opened HashDatabase
  import opened Backlog
  import opened Writer
  import opened Placer
  import opened DirectRun
  import opened Resume

  /** Block k of an earlier run becomes x, whose checksum no later block has. */
  ghost predicate Replaces(cfg: Config, view: HashView, was: seq<seq<Byte>>, k: nat, x: seq<Byte>) {
    && k < |was| && |x| == |was[k]| && Blocks(was)
    && ViewOf(view, HashFile(Direct(cfg, was))) && OffsetsFit(Direct(cfg, was))
    && forall j | k <= j < |was| :: BlockHash(cfg)(was[j]) != BlockHash(cfg)(x)
  }

  /** The entry at which find starts when k blocks were written. */
  function NextAt(k: nat): nat { if k == 0 then 0 else k - 1 }

  /** Item j of the new input. */
  function ItemAt(cfg: Config, blocks: seq<seq<Byte>>, j: nat): Item
    requires j < |blocks|
  {
    Item(BlockHash(cfg)(blocks[j]), blocks[j], |Concat(blocks[..j])|)
  }

  /** The next block is not the one that stood before the replaced one a second time. */
  predicate Distinct(cfg: Config, was: seq<seq<Byte>>, k: nat)
    requires k < |was|
  {
    k + 1 < |was| ==> BlockHash(cfg)(was[k + 1]) != BlockHash(cfg)(was[k])
  }

  /**
   * The state after m blocks: the new block waits without a position until the block behind it leaves a gap of just
   * its length.
   */
  ghost predicate ReplacedIn(cfg: Config, blocks: seq<seq<Byte>>, k: nat, m: nat, s: Placing)
    requires k < |blocks| && m <= |blocks|
  {
    if m == k + 1 then
      s == Placing(Direct(cfg, blocks[..k]), Off(cfg, blocks, k), [], [ItemAt(cfg, blocks, k)], NextAt(k))
    else if m == k + 2 then
      s == Placing(Direct(cfg, blocks[..k + 1]), Off(cfg, blocks, k + 1),
                   [Positioned(Off(cfg, blocks, k + 1), ItemAt(cfg, blocks, k + 1))], [], NextAt(k))
    else s == Placing(Direct(cfg, blocks[..m]), Off(cfg, blocks, m), [], [], NextAt(m))
  }

  // ---------------------------------------------------------------------------------------
  // Positions and entries

  /** The new block does not move the others. */
  lemma {:induction false} OffReplaced(cfg: Config, was: seq<seq<Byte>>, k: nat, x: seq<Byte>, j: nat)
    requires k < |was| && |x| == |was[k]| && j <= |was|
    ensures Off(cfg, was[k := x], j) == Off(cfg, was, j)
  {
    hide Off;
    if j == 0 {
      OffZero(cfg, was);
      OffZero(cfg, was[k := x]);
    } else {
      OffReplaced(cfg, was, k, x, j - 1);
      OffNext(cfg, was, j - 1);
      OffNext(cfg, was[k := x], j - 1);
    }
  }

  /** A block that was there before is found at its place, from anywhere not behind it. */
  lemma FindsOld(cfg: Config, view: HashView, was: seq<seq<Byte>>, k: nat, x: seq<Byte>, next: nat, j: nat)
    requires Replaces(cfg, view, was, k, x) && next <= j < |was| && j < next + SEARCH_LIMIT && j != k
    ensures var blocks := was[k := x];
            && FirstHit(view, next, BlockHash(cfg)(blocks[j]), Off(cfg, blocks, j), j)
            && Decoded(view, j) == Off(cfg, blocks, j)
  {
    hide Off, FirstHit, Decoded, BlockHash, Direct, ViewOf, OffsetsFit, HashFile;
    OffReplaced(cfg, was, k, x, j);
    FindsPlace(cfg, view, was, next, j);
  }

  /** The new block is not found. */
  lemma FindsNotNew(cfg: Config, view: HashView, was: seq<seq<Byte>>, k: nat, x: seq<Byte>)
    requires Replaces(cfg, view, was, k, x)
    ensures NoHit(view, NextAt(k), BlockHash(cfg)(x), Off(cfg, was, k))
  {
    hide Off, Decoded, BlockHash, Direct, OffsetsFit, HashFile;
    forall j | NextAt(k) <= j < NextAt(k) + SEARCH_LIMIT && 2 * j < view.words
      ensures !Hit(view, j, BlockHash(cfg)(x), Off(cfg, was, k))
    {
      WordsAre(cfg, view, was);
      EntryOf(cfg, view, was, j);
      if j < k { OffGrows(cfg, was, j, k); }
    }
  }

  lemma WordsAre(cfg: Config, view: HashView, blocks: seq<seq<Byte>>)
    requires ViewOf(view, HashFile(Direct(cfg, blocks)))
    ensures view.words == 2 * |blocks|
  {
    hide Direct, Body;
    var recs := Direct(cfg, blocks);
    if recs != [] {
      HashFileAt(recs, 0);
    }
  }

  /** At the place of the new block, the next one finds its own entry, or that of the replaced one. */
  lemma FindsNext(cfg: Config, view: HashView, was: seq<seq<Byte>>, k: nat, x: seq<Byte>)
    requires Replaces(cfg, view, was, k, x) && k + 1 < |was|
    ensures var e := if Distinct(cfg, was, k) then k + 1 else k;
            && FirstHit(view, NextAt(k), BlockHash(cfg)(was[k + 1]), Off(cfg, was, k), e)
            && Decoded(view, e) == Off(cfg, was, e)
  {
    hide Off, Decoded, BlockHash, Direct, ViewOf, OffsetsFit, HashFile;
    EntryOf(cfg, view, was, k);
    EntryOf(cfg, view, was, k + 1);
    OffGrows(cfg, was, k, k + 1);
    assert !view.hasError by { NoErrorIn(view, HashFile(Direct(cfg, was))); }
    if k > 0 {
      EntryOf(cfg, view, was, k - 1);
      OffGrows(cfg, was, k - 1, k);
    }
  }

  lemma NoErrorIn(view: HashView, file: seq<Entry>)
    requires ViewOf(view, file)
    ensures !view.hasError
  {
  }

  // ---------------------------------------------------------------------------------------
  // The steps of the run

  /** Blocks away from the new one are written directly. */
  lemma OldStep(cfg: Config, view: HashView, was: seq<seq<Byte>>, k: nat, x: seq<Byte>, m: nat, s: Placing)
    requires Replaces(cfg, view, was, k, x) && m < |was| && (m < k || m > k + 2)
    requires ReplacedIn(cfg, was[k := x], k, m, s)
    ensures ReplacedIn(cfg, was[k := x], k, m + 1, Process(view, s, ItemAt(cfg, was[k := x], m)))
  {
    hide Off, FirstHit, Decoded, BlockHash, Direct, ViewOf, OffsetsFit, HashFile, Process, Concat;
    var blocks := was[k := x];
    FindsOld(cfg, view, was, k, x, NextAt(m), m);
    ProcessHere(view, s, ItemAt(cfg, blocks, m), m);
    DirectNext(cfg, blocks, m);
  }

  lemma DirectNext(cfg: Config, blocks: seq<seq<Byte>>, m: nat)
    requires m < |blocks|
    ensures Direct(cfg, blocks[..m + 1]) == Direct(cfg, blocks[..m]) + [Data(ItemAt(cfg, blocks, m))]
    ensures Off(cfg, blocks, m + 1) == Off(cfg, blocks, m) + 2 + |blocks[m]|
  {
    hide Off, Direct, Concat;
    assert blocks[..m] + [blocks[m]] == blocks[..m + 1];
    DirectPrefix(cfg, blocks, blocks[..m], blocks[m]);
    OffNext(cfg, blocks, m);
  }

  /** The new block is put with those that have no position. */
  lemma NewStep(cfg: Config, view: HashView, was: seq<seq<Byte>>, k: nat, x: seq<Byte>, s: Placing)
    requires Replaces(cfg, view, was, k, x) && ReplacedIn(cfg, was[k := x], k, k, s)
    ensures ReplacedIn(cfg, was[k := x], k, k + 1, Process(view, s, ItemAt(cfg, was[k := x], k)))
  {
    hide Off, NoHit, BlockHash, Direct, OffsetsFit, HashFile, Process, Concat;
    FindsNotNew(cfg, view, was, k, x);
    OffReplaced(cfg, was, k, x, k);
    ProcessNoHit(view, s, ItemAt(cfg, was[k := x], k));
  }

  /** The block behind it waits for its place, and the new block fills the gap in front of it. */
  lemma NextStep(cfg: Config, view: HashView, was: seq<seq<Byte>>, k: nat, x: seq<Byte>, s: Placing)
    requires Replaces(cfg, view, was, k, x) && k + 1 < |was| && Distinct(cfg, was, k)
    requires ReplacedIn(cfg, was[k := x], k, k + 1, s)
    ensures ReplacedIn(cfg, was[k := x], k, k + 2, Process(view, s, ItemAt(cfg, was[k := x], k + 1)))
  {
    hide Off, FirstHit, Decoded, BlockHash, Direct, ViewOf, OffsetsFit, HashFile, Concat, Distinct, Filled, Enforced,
        Process;
    var blocks := was[k := x];
    FindsNext(cfg, view, was, k, x);
    OffReplaced(cfg, was, k, x, k);
    OffReplaced(cfg, was, k, x, k + 1);
    DirectNext(cfg, blocks, k);
    ProcessFills(view, s, ItemAt(cfg, blocks, k + 1), k + 1);
  }

  /** One item waits and just fits the gap in front of a block that is found ahead. */
  lemma ProcessFills(view: HashView, s: Placing, item: Item, e: nat)
    requires s.items == [] && |s.anywhere| == 1 && FirstHit(view, s.next, item.chash, s.pos, e)
    requires Decoded(view, e) == s.pos + 2 + |s.anywhere[0].data| && |s.anywhere[0].data| <= BLOCKSIZE_MAX
    ensures Process(view, s, item) == WriteAnywhere(s, 0).(items := [Positioned(Decoded(view, e), item)])
  {
    hide Hit, Found, Enforced, Decoded;
    FoundExactly(view, s.next, item.chash, s.pos);
    var t := s.(items := [Positioned(Decoded(view, e), item)]);
    assert Best(t.anywhere, Decoded(view, e) - t.pos) == 0 by {
      assert Fits(|t.anywhere[0].data|, Decoded(view, e) - t.pos, FIT_OFF);
    }
    assert Filled(t) == Filled(WriteAnywhere(t, 0));
  }

  /** The block behind it is written without any zeroes, and the run is direct again. */
  lemma AfterStep(cfg: Config, view: HashView, was: seq<seq<Byte>>, k: nat, x: seq<Byte>, s: Placing)
    requires Replaces(cfg, view, was, k, x) && k + 2 < |was| && ReplacedIn(cfg, was[k := x], k, k + 2, s)
    ensures ReplacedIn(cfg, was[k := x], k, k + 3, Process(view, s, ItemAt(cfg, was[k := x], k + 2)))
  {
    hide Off, FirstHit, Decoded, BlockHash, Direct, ViewOf, OffsetsFit, HashFile, Concat, Process, ZeroEnd, ZeroRecords;
    var blocks := was[k := x];
    var item := ItemAt(cfg, blocks, k + 2);
    ProcessNear(view, s, item);
    NothingToFill(s.pos, s.pos);
    DirectNext(cfg, blocks, k + 1);
    DirectNext(cfg, blocks, k + 2);
    FindsOld(cfg, view, was, k, x, NextAt(k), k + 2);
    ProcessHere(view, Settled(s), item, k + 2);
  }

  lemma ReplacedStep(cfg: Config, view: HashView, was: seq<seq<Byte>>, k: nat, x: seq<Byte>, m: nat, s: Placing)
    requires Replaces(cfg, view, was, k, x) && m < |was| && ReplacedIn(cfg, was[k := x], k, m, s)
    requires m > k ==> Distinct(cfg, was, k)
    ensures ReplacedIn(cfg, was[k := x], k, m + 1, Process(view, s, ItemAt(cfg, was[k := x], m)))
  {
    hide ReplacedIn, Replaces, Process, ItemAt, Distinct;
    assert k < |was| && |was[k := x]| == |was| by { ReplacesBounds(cfg, view, was, k, x); }
    if m == k {
      NewStep(cfg, view, was, k, x, s);
    } else if m == k + 1 {
      NextStep(cfg, view, was, k, x, s);
    } else if m == k + 2 {
      AfterStep(cfg, view, was, k, x, s);
    } else {
      OldStep(cfg, view, was, k, x, m, s);
    }
  }

  lemma ReplacesBounds(cfg: Config, view: HashView, was: seq<seq<Byte>>, k: nat, x: seq<Byte>)
    requires Replaces(cfg, view, was, k, x)
    ensures k < |was|
  {
  }

  function Before(cfg: Config, view: HashView, blocks: seq<seq<Byte>>, m: nat): Placing
    requires m <= |blocks|
  {
    Run(view, Place(BlockHash(cfg), blocks[..m]))
  }

  lemma BeforeNext(cfg: Config, view: HashView, blocks: seq<seq<Byte>>, m: nat)
    requires m < |blocks|
    ensures Before(cfg, view, blocks, m + 1) == Process(view, Before(cfg, view, blocks, m), ItemAt(cfg, blocks, m))
  {
    hide Place, Process, Concat;
    var done, b := blocks[..m], blocks[m];
    assert done + [b] == blocks[..m + 1];
    AppendBlock(BlockHash(cfg), done, b);
    RunNext(view, Place(BlockHash(cfg), done), ItemAt(cfg, blocks, m));
  }

  lemma {:induction false} ReplacedRun(cfg: Config, view: HashView, was: seq<seq<Byte>>, k: nat, x: seq<Byte>, m: nat)
    requires Replaces(cfg, view, was, k, x) && m <= |was| && (m > k + 1 ==> Distinct(cfg, was, k))
    ensures ReplacedIn(cfg, was[k := x], k, m, Before(cfg, view, was[k := x], m))
  {
    hide Before, ReplacedIn, Process, Distinct, ItemAt;
    if m == 0 {
      NothingReplaced(cfg, view, was[k := x], k);
    } else {
      ReplacedRun(cfg, view, was, k, x, m - 1);
      BeforeNext(cfg, view, was[k := x], m - 1);
      ReplacedStep(cfg, view, was, k, x, m - 1, Before(cfg, view, was[k := x], m - 1));
    }
  }

  lemma NothingReplaced(cfg: Config, view: HashView, blocks: seq<seq<Byte>>, k: nat)
    requires k < |blocks|
    ensures ReplacedIn(cfg, blocks, k, 0, Before(cfg, view, blocks, 0))
  {
    OffZero(cfg, blocks);
    assert blocks[..0] == [];
  }

  // ---------------------------------------------------------------------------------------
  // The records

  lemma {:induction false} KeepsRecords(cfg: Config, view: HashView, blocks: seq<seq<Byte>>, m: nat, n: nat)
    requires m <= n <= |blocks|
    ensures Before(cfg, view, blocks, m).recs <= Before(cfg, view, blocks, n).recs
    decreases n
  {
    hide Before, Process, ItemAt;
    if m < n {
      KeepsRecords(cfg, view, blocks, m, n - 1);
      BeforeNext(cfg, view, blocks, n - 1);
      Grows(view, Before(cfg, view, blocks, n - 1), ItemAt(cfg, blocks, n - 1));
    }
  }

  /** Otherwise the block behind the new one takes its place. */
  lemma TakesPlace(cfg: Config, view: HashView, was: seq<seq<Byte>>, k: nat, x: seq<Byte>)
    requires Replaces(cfg, view, was, k, x) && !Distinct(cfg, was, k)
    ensures var blocks := was[k := x];
            && k + 1 < |was|
            && Direct(cfg, blocks[..k]) + [Data(ItemAt(cfg, blocks, k + 1))] <= Before(cfg, view, blocks, k + 2).recs
  {
    hide Off, FirstHit, Decoded, Direct, ViewOf, OffsetsFit, HashFile, Concat, Process, Before, BlockHash;
    var blocks := was[k := x];
    var s := Before(cfg, view, blocks, k + 1);
    ReplacedRun(cfg, view, was, k, x, k + 1);
    BeforeNext(cfg, view, blocks, k + 1);
    FindsNext(cfg, view, was, k, x);
    OffReplaced(cfg, was, k, x, k);
    ProcessHere(view, s, ItemAt(cfg, blocks, k + 1), k);
  }

  /** The items of a direct run differ, as their positions do. */
  lemma DifferentItems(cfg: Config, blocks: seq<seq<Byte>>, k: nat)
    requires k + 1 < |blocks| && blocks[k] != []
    ensures ItemAt(cfg, blocks, k) != ItemAt(cfg, blocks, k + 1)
  {
    hide Concat;
    assert blocks[..k] + [blocks[k]] == blocks[..k + 1];
    AppendBlock(BlockHash(cfg), blocks[..k], blocks[k]);
  }

  lemma DirectAt(cfg: Config, blocks: seq<seq<Byte>>, k: nat)
    requires k < |blocks|
    ensures Direct(cfg, blocks)[..k] == Direct(cfg, blocks[..k])
    ensures Direct(cfg, blocks)[k] == Data(ItemAt(cfg, blocks, k))
  {
    hide Direct, Concat;
    assert blocks[..k] + [blocks[k]] <= blocks;
    DirectPrefix(cfg, blocks, blocks[..k], blocks[k]);
  }

  /** What is left in the end is written where it belongs. */
  lemma DrainsDirect(cfg: Config, blocks: seq<seq<Byte>>, k: nat, s: Placing)
    requires k < |blocks| && ReplacedIn(cfg, blocks, k, |blocks|, s)
    ensures Drained(s).recs == Direct(cfg, blocks)
  {
    hide Off, Direct, ItemAt;
    var n := |blocks|;
    assert blocks[..n] == blocks;
    if n == k + 1 || n == k + 2 {
      DirectNext(cfg, blocks, n - 1);
      assert Flushed(s).Idle();
      assert Drained(s) == Drained(Flushed(s)) == Flushed(s);
    }
  }

  /**
   * The run writes the blocks in order, each where it was and the new one where the replaced one was, if and only if
   * the block behind it does not have the checksum of the replaced one.
   */
  lemma ReplacedExactly(cfg: Config, view: HashView, was: seq<seq<Byte>>, k: nat, x: seq<Byte>)
    requires Replaces(cfg, view, was, k, x)
    ensures var blocks := was[k := x];
            Aligned(view, Place(BlockHash(cfg), blocks)) == Direct(cfg, blocks) <==> Distinct(cfg, was, k)
  {
    hide Place, Run, Direct, Drained, ItemAt, ReplacedIn;
    var blocks := was[k := x];
    var last := Before(cfg, view, blocks, |blocks|);
    assert blocks[..|blocks|] == blocks;
    if Distinct(cfg, was, k) {
      ReplacedRun(cfg, view, was, k, x, |was|);
      DrainsDirect(cfg, blocks, k, last);
    } else {
      TakesPlace(cfg, view, was, k, x);
      KeepsRecords(cfg, view, blocks, k + 2, |blocks|);
      DifferentItems(cfg, blocks, k);
      DirectAt(cfg, blocks, k);
      var first := Direct(cfg, blocks[..k]) + [Data(ItemAt(cfg, blocks, k + 1))];
      assert first <= Before(cfg, view, blocks, k + 2).recs <= last.recs <= Drained(last).recs;
      assert first[k] == Data(ItemAt(cfg, blocks, k + 1));
    }
  }
}
