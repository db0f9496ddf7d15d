/** What process_block and the final drain do to the records and the backlog, as functions of the state. */
module Placer {
  import opened Options
  import opened BlockFormat
  import opened HashDatabase
  import opened Backlog
  import opened Writer

  const DOUBLE_CHECK_LIM: nat := 100 * 1024
  const MAX_BACKLOG: nat := 10 * 1024 * 1024
  const FIT_OFF: nat := 2

  /** The records and their length, the items with and without a position, and the entry at which find starts. */
  datatype Placing =
    Placing(recs: seq<Record>, pos: nat, items: seq<Positioned>, anywhere: seq<Item>, next: nat)
  {
    predicate Idle() { items == [] && anywhere == [] }

    function Waiting(): nat { |items| + |anywhere| }
  }

  const NOTHING_PLACED := Placing([], 0, [], [], 0)

  // ---------------------------------------------------------------------------------------
  // Finding

  /** The first entry from e on, in reach of next, with this checksum and a position not before pos. */
  function FoundFrom(view: HashView, next: nat, chash: Hash, pos: int, e: nat): Option<nat>
    decreases next + SEARCH_LIMIT - e
  {
    if e >= next + SEARCH_LIMIT || 2 * e >= view.words then None
    else if Hit(view, e, chash, pos) then Some(e)
    else FoundFrom(view, next, chash, pos, e + 1)
  }

  function Found(view: HashView, next: nat, chash: Hash, pos: int): Option<nat> {
    if view.hasError then None else FoundFrom(view, next, chash, pos, next)
  }

  /** e is the entry that find selects when it starts at entry next. */
  ghost predicate FirstHit(view: HashView, next: nat, chash: Hash, pos: int, e: nat) {
    && !view.hasError && next <= e < next + SEARCH_LIMIT && 2 * e < view.words && Hit(view, e, chash, pos)
    && forall j | next <= j < e :: !Hit(view, j, chash, pos)
  }

  ghost predicate NoHit(view: HashView, next: nat, chash: Hash, pos: int) {
    forall j | next <= j < next + SEARCH_LIMIT && 2 * j < view.words :: !Hit(view, j, chash, pos)
  }

  lemma {:induction false} FoundFromExactly(view: HashView, next: nat, chash: Hash, pos: int, e: nat)
    requires !view.hasError && next <= e <= next + SEARCH_LIMIT && forall j | next <= j < e :: !Hit(view, j, chash, pos)
    ensures match FoundFrom(view, next, chash, pos, e)
            case Some(f) => FirstHit(view, next, chash, pos, f)
            case None => NoHit(view, next, chash, pos)
    decreases next + SEARCH_LIMIT - e
  {
    hide Hit;
    if e < next + SEARCH_LIMIT && 2 * e < view.words && !Hit(view, e, chash, pos) {
      FoundFromExactly(view, next, chash, pos, e + 1);
    }
  }

  lemma FoundExactly(view: HashView, next: nat, chash: Hash, pos: int)
    requires !view.hasError
    ensures forall e: nat :: Found(view, next, chash, pos) == Some(e) <==> FirstHit(view, next, chash, pos, e)
    ensures Found(view, next, chash, pos) == None <==> NoHit(view, next, chash, pos)
  {
    hide Hit;
    FoundFromExactly(view, next, chash, pos, next);
  }

  // ---------------------------------------------------------------------------------------
  // Filling a gap

  /** The longest of the first n items that fit the gap, and the first of those; |anywhere| when none fits. */
  function BestOf(anywhere: seq<Item>, gap: nat, n: nat): (best: nat)
    requires n <= |anywhere|
    ensures best < n || best == |anywhere|
    ensures best == |anywhere| <==> forall i | 0 <= i < n :: !Fits(|anywhere[i].data|, gap, FIT_OFF)
    ensures best < n ==> IsBest(anywhere, gap, n, best)
  {
    if n == 0 then |anywhere|
    else
      var best := BestOf(anywhere, gap, n - 1);
      var size := |anywhere[n - 1].data|;
      if Fits(size, gap, FIT_OFF) && (best == |anywhere| || size > |anywhere[best].data|) then n - 1 else best
  }

  ghost predicate IsBest(anywhere: seq<Item>, gap: nat, n: nat, best: nat)
    requires best < n <= |anywhere|
  {
    var size := |anywhere[best].data|;
    && Fits(size, gap, FIT_OFF)
    && (forall i | 0 <= i < n && Fits(|anywhere[i].data|, gap, FIT_OFF) :: |anywhere[i].data| <= size)
    && (forall i | 0 <= i < best && Fits(|anywhere[i].data|, gap, FIT_OFF) :: |anywhere[i].data| < size)
  }

  /** best_fit: with unlimited space it takes the first item. */
  function Best(anywhere: seq<Item>, gap: nat): (best: nat)
    ensures best <= |anywhere|
  {
    if gap == SIZE_MAX && anywhere != [] then 0 else BestOf(anywhere, gap, |anywhere|)
  }

  function WriteAnywhere(s: Placing, i: nat): Placing
    requires i < |s.anywhere|
  {
    s.(recs := s.recs + [Data(s.anywhere[i])], pos := s.pos + 2 + |s.anywhere[i].data|,
       anywhere := Without(s.anywhere, i))
  }

  /** fill_with_backlog in front of the positioned item: again and again the longest item that fits. */
  function Filled(s: Placing): (t: Placing)
    requires s.items != []
    ensures t.items == s.items && t.next == s.next && s.recs <= t.recs
    decreases |s.anywhere|
  {
    var gap := s.items[0].key - s.pos;
    if gap <= 0 then s
    else
      var best := Best(s.anywhere, gap);
      if best == |s.anywhere| then s else Filled(WriteAnywhere(s, best))
  }

  lemma FilledStep(s: Placing)
    requires s.items != []
    ensures var gap := s.items[0].key - s.pos;
            if gap <= 0 || Best(s.anywhere, gap) == |s.anywhere| then Filled(s) == s
            else Filled(s) == Filled(WriteAnywhere(s, Best(s.anywhere, gap)))
  {
    hide Best;
  }

  // ---------------------------------------------------------------------------------------
  // The positioned item

  predicate Near(view: HashView, s: Placing)
    requires s.items != []
  {
    view.hasError || s.items[0].key - s.pos <= DOUBLE_CHECK_LIM
  }

  /** Zeroes up to the position of the item, then the item. */
  function Settled(s: Placing): Placing
    requires s.items != []
  {
    var p := s.items[0];
    s.(recs := s.recs + ZeroRecords(s.pos, p.key) + [Data(p.item)], pos := ZeroEnd(s.pos, p.key) + 2 + |p.item.data|,
       items := s.items[1..])
  }

  function GivenUp(s: Placing): Placing
    requires s.items != []
  {
    s.(items := s.items[1..], anywhere := s.anywhere + [s.items[0].item])
  }

  /** find places a block with this checksum directly behind the positioned item. */
  predicate Confirms(view: HashView, s: Placing, chash: Hash)
    requires s.items != []
  {
    var e := Found(view, s.next, chash, s.pos);
    e.Some? && Decoded(view, e.value) == s.items[0].key + |s.items[0].item.data| + FIT_OFF
  }

  /** The first half of process_block. */
  function Settle(view: HashView, s: Placing, chash: Hash): Placing {
    if s.items == [] then s
    else if Near(view, s) then Settled(s)
    else if Confirms(view, s, chash) then Settled(Filled(s.(next := Found(view, s.next, chash, s.pos).value)))
    else GivenUp(s)
  }

  // ---------------------------------------------------------------------------------------
  // The size of the backlog

  /** flush_buffer: the positioned item, wherever the output is, or else the first other one. */
  function Flushed(s: Placing): (t: Placing)
    ensures !s.Idle() ==> t.Waiting() < s.Waiting()
    ensures s.recs <= t.recs
  {
    if s.items != [] then
      s.(recs := s.recs + [Data(s.items[0].item)], pos := s.pos + 2 + |s.items[0].item.data|, items := s.items[1..])
    else if s.anywhere != [] then WriteAnywhere(s, 0)
    else s
  }

  function Size(s: Placing): nat { Total(s.anywhere) + Total(Unkeyed(s.items)) }

  function Enforced(s: Placing): (t: Placing)
    ensures s.recs <= t.recs
    decreases s.Waiting()
  {
    if Size(s) <= MAX_BACKLOG || s.Idle() then s else Enforced(Flushed(s))
  }

  // ---------------------------------------------------------------------------------------
  // The new block

  function Written(s: Placing, item: Item): Placing {
    s.(recs := s.recs + [Data(item)], pos := s.pos + 2 + |item.data|)
  }

  /** The second half of process_block, when no item has a position. */
  function Placed(view: HashView, s: Placing, item: Item): Placing {
    if view.hasError then Enforced(Written(s, item))
    else
      match Found(view, s.next, item.chash, s.pos)
      case None => Enforced(s.(anywhere := s.anywhere + [item]))
      case Some(e) =>
        var offset := Decoded(view, e);
        var t := s.(items := [Positioned(offset, item)]);
        if offset == s.pos then Written(s.(next := e), item)
        else if offset - s.pos > DOUBLE_CHECK_LIM then Enforced(t)
        else Filled(t)
  }

  /** process_block. */
  function Process(view: HashView, s: Placing, item: Item): Placing {
    Placed(view, Settle(view, s, item.chash), item)
  }

  /** The state after all these blocks. */
  function Run(view: HashView, items: seq<Item>): Placing {
    if items == [] then NOTHING_PLACED else Process(view, Run(view, items[..|items| - 1]), items[|items| - 1])
  }

  lemma RunNext(view: HashView, items: seq<Item>, item: Item)
    ensures Run(view, items + [item]) == Process(view, Run(view, items), item)
  {
    hide Process;
    assert (items + [item])[..|items|] == items;
  }

  /** The final drain. */
  function Drained(s: Placing): (t: Placing)
    ensures t.Idle() && s.recs <= t.recs
    decreases s.Waiting()
  {
    if s.Idle() then s else Drained(Flushed(s))
  }

  /** The records of a whole run. */
  function Aligned(view: HashView, items: seq<Item>): seq<Record> { Drained(Run(view, items)).recs }

  // ---------------------------------------------------------------------------------------
  // What a call does

  lemma Grows(view: HashView, s: Placing, item: Item)
    ensures s.recs <= Process(view, s, item).recs
  {
  }

  lemma SmallBacklog(s: Placing)
    requires |s.items| + |s.anywhere| <= 1
    requires forall x | x in Unkeyed(s.items) + s.anywhere :: |x.data| <= BLOCKSIZE_MAX
    ensures Enforced(s) == s
  {
    OneTotal(s.anywhere);
    OneTotal(Unkeyed(s.items));
  }

  lemma OneTotal(s: seq<Item>)
    requires |s| <= 1
    ensures Total(s) == if s == [] then 0 else |s[0].data|
  {
    if s != [] { assert s[..0] == []; }
  }

  /** A block that find places at the output position is written there; what waits goes on waiting. */
  lemma ProcessHere(view: HashView, s: Placing, item: Item, e: nat)
    requires s.items == [] && FirstHit(view, s.next, item.chash, s.pos, e) && Decoded(view, e) == s.pos
    ensures Process(view, s, item) == Written(s.(next := e), item)
  {
    hide Hit, Found, Filled, Enforced, Decoded;
    FoundExactly(view, s.next, item.chash, s.pos);
  }

  /** A block that find places ahead waits for that position, when nothing else waits. */
  lemma ProcessAhead(view: HashView, s: Placing, item: Item, e: nat)
    requires s.Idle() && FirstHit(view, s.next, item.chash, s.pos, e) && Decoded(view, e) > s.pos
    requires |item.data| <= BLOCKSIZE_MAX
    ensures Process(view, s, item) == s.(items := [Positioned(Decoded(view, e), item)])
  {
    hide Hit, Found, Enforced, Decoded;
    FoundExactly(view, s.next, item.chash, s.pos);
    SmallBacklog(s.(items := [Positioned(Decoded(view, e), item)]));
  }

  lemma ProcessNoHit(view: HashView, s: Placing, item: Item)
    requires s.Idle() && !view.hasError && NoHit(view, s.next, item.chash, s.pos) && |item.data| <= BLOCKSIZE_MAX
    ensures Process(view, s, item) == s.(anywhere := [item])
  {
    hide NoHit, Found, Enforced;
    FoundExactly(view, s.next, item.chash, s.pos);
    assert s.anywhere + [item] == [item];
    SmallBacklog(s.(anywhere := [item]));
  }

  lemma ProcessWithoutFile(view: HashView, s: Placing, item: Item)
    requires s.Idle() && view.hasError
    ensures Process(view, s, item) == Written(s, item)
  {
    hide Enforced;
    SmallBacklog(Written(s, item));
  }

  /** The item that waits alone and near is written at its position before the next block is looked at. */
  lemma ProcessNear(view: HashView, s: Placing, item: Item)
    requires |s.items| == 1 && Near(view, s)
    ensures Settled(s).items == [] && Settled(s).recs <= Process(view, s, item).recs
    ensures Process(view, s, item) == Process(view, Settled(s), item)
  {
    hide ZeroEnd, ZeroRecords, Placed;
    Grows(view, Settled(s), item);
  }

  /** An item that waits alone and far is written at its position when find places the next block behind it. */
  lemma ProcessFar(view: HashView, s: Placing, item: Item, g: nat)
    requires |s.items| == 1 && s.anywhere == [] && !Near(view, s)
    requires FirstHit(view, s.next, item.chash, s.pos, g)
    requires Decoded(view, g) == s.items[0].key + |s.items[0].item.data| + FIT_OFF
    ensures Settled(s).items == []
    ensures Process(view, s, item) == Process(view, Settled(s.(next := g)), item)
  {
    hide ZeroEnd, ZeroRecords, Placed, Hit, Found, Decoded;
    FoundExactly(view, s.next, item.chash, s.pos);
  }

  /** The item is written where zero filling from the output position to its position ends. */
  lemma SettledAt(s: Placing)
    requires s.items != [] && s.pos == |Body(s.recs)|
    ensures var t, p := Settled(s), s.items[0];
            var n := |t.recs| - 1;
            && n >= 0 && t.recs[n] == Data(p.item) && |Body(t.recs[..n])| == ZeroEnd(s.pos, p.key)
            && t.pos == |Body(t.recs)|
  {
    hide Body, ZeroRecords, ZeroEnd;
    var p, zeroes := s.items[0], ZeroRecords(s.pos, s.items[0].key);
    BodyConcat(s.recs, zeroes);
    ZeroBody(s.pos, p.key);
    AppendCounts(s.recs + zeroes, Data(p.item));
    assert Settled(s).recs[..|s.recs + zeroes|] == s.recs + zeroes;
  }

  // ---------------------------------------------------------------------------------------
  // Gaps and zeroes

  /** Items are at most as long as blocks. */
  predicate ShortItems(anywhere: seq<Item>) { forall i | 0 <= i < |anywhere| :: |anywhere[i].data| <= BLOCKSIZE_MAX }

  /**
   * Filling a gap stops in front of the positioned item when nothing fits any more, and it does not leave a gap of one
   * byte, which no record could fill.
   */
  lemma {:induction false} FilledUp(s: Placing)
    requires s.items != [] && s.pos <= s.items[0].key && ShortItems(s.anywhere)
    ensures var t := Filled(s);
            var gap := s.items[0].key - t.pos;
            && gap >= 0 && (s.items[0].key - s.pos != 1 ==> gap != 1)
            && forall i | 0 <= i < |t.anywhere| :: !Fits(|t.anywhere[i].data|, gap, FIT_OFF)
    decreases |s.anywhere|
  {
    hide Without, Best, Fits;
    var gap := s.items[0].key - s.pos;
    var best := Best(s.anywhere, gap);
    if gap <= 0 {
      NothingFits(s.anywhere, gap);
    } else {
      BestFits(s.anywhere, gap);
      if best < |s.anywhere| {
        WithoutShort(s.anywhere, best);
        FilledUp(WriteAnywhere(s, best));
      }
    }
  }

  /** The best item fits, and leaves no gap of one byte; there is none exactly when nothing fits. */
  lemma BestFits(anywhere: seq<Item>, gap: nat)
    requires ShortItems(anywhere)
    ensures var best := Best(anywhere, gap);
            if best < |anywhere| then gap - 2 - |anywhere[best].data| >= 0 && gap - 2 - |anywhere[best].data| != 1
            else forall i | 0 <= i < |anywhere| :: !Fits(|anywhere[i].data|, gap, FIT_OFF)
  {
  }

  lemma NothingFits(anywhere: seq<Item>, gap: nat)
    requires gap == 0
    ensures forall i | 0 <= i < |anywhere| :: !Fits(|anywhere[i].data|, gap, FIT_OFF)
  {
  }

  lemma WithoutShort(anywhere: seq<Item>, i: nat)
    requires i < |anywhere| && ShortItems(anywhere)
    ensures ShortItems(Without(anywhere, i)) && |Without(anywhere, i)| == |anywhere| - 1
  {
  }

  /** All records from n on hold blocks. */
  predicate DataFrom(recs: seq<Record>, n: nat) { forall i | n <= i < |recs| :: recs[i].Data? }

  lemma {:induction false} FilledData(s: Placing, n: nat)
    requires s.items != [] && DataFrom(s.recs, n)
    ensures DataFrom(Filled(s).recs, n)
    decreases |s.anywhere|
  {
    hide Without, Best;
    var gap := s.items[0].key - s.pos;
    if gap > 0 && Best(s.anywhere, gap) < |s.anywhere| {
      WithoutShorter(s.anywhere, Best(s.anywhere, gap));
      FilledData(WriteAnywhere(s, Best(s.anywhere, gap)), n);
    }
  }

  lemma {:induction false} EnforcedData(s: Placing, n: nat)
    requires DataFrom(s.recs, n)
    ensures DataFrom(Enforced(s).recs, n)
    decreases s.Waiting()
  {
    hide Size;
    if Size(s) > MAX_BACKLOG && !s.Idle() {
      EnforcedData(Flushed(s), n);
    }
  }

  /** process_block writes zeroes only in front of a positioned item that is near or confirmed by the next block. */
  lemma ZeroesOnlyToPositions(view: HashView, s: Placing, item: Item)
    requires s.items == [] || (!Near(view, s) && !Confirms(view, s, item.chash))
    ensures DataFrom(Process(view, s, item).recs, |s.recs|)
  {
    hide Filled, Enforced, Found, Decoded;
    var r := Settle(view, s, item.chash);
    var n := |s.recs|;
    assert r.recs == s.recs;
    EnforcedData(Written(r, item), n);
    EnforcedData(r.(anywhere := r.anywhere + [item]), n);
    var e := Found(view, r.next, item.chash, r.pos);
    if e.Some? {
      var t := r.(items := [Positioned(Decoded(view, e.value), item)]);
      EnforcedData(t, n);
      FilledData(t, n);
    }
  }
}
