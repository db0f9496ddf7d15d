/** The block placer: process_block and what it calls. */
module Aligner {
  import opened BlockFormat
  import opened HashDatabase
  import opened Backlog
  import opened Writer
  import opened Placer

  /** No entry of the hash file stands for a later position than this. */
  function Limit(view: HashView): nat { 273 * view.words + 0x8000_0000 }

  lemma DecodedWithin(view: HashView, e: nat)
    requires 2 * e < view.words
    ensures Decoded(view, e) < Limit(view)
  {
  }

  class Aligner {
    const db: HashDb
    const backlog: OutputBuffer
    const output: OutputState

    constructor (view: HashView)
      ensures Valid() && Tidy() && fresh(db) && fresh(backlog) && fresh(output)
      ensures output.outputPos == 0
      ensures db.view == view && db.nextEntry == 0 && backlog.Empty() && output.recs == [] && output.fills == 0
    {
      db := new HashDb(view);
      backlog := new OutputBuffer();
      output := new OutputState();
    }

    ghost predicate Valid()
      reads this, backlog, output
    {
      && output.Synced() && backlog.Valid()
      && (forall i | 0 <= i < |backlog.anywhere| :: |backlog.anywhere[i].data| <= BLOCKSIZE_MAX)
      && (forall i | 0 <= i < |backlog.items| :: |backlog.items[i].item.data| <= BLOCKSIZE_MAX)
    }

    /** At most one item has a position, and the output has not passed it. */
    ghost predicate OneAhead()
      reads this, backlog, output
    {
      |backlog.items| <= 1 && (backlog.items != [] ==> backlog.items[0].key >= output.outputPos)
    }

    /** The memory bound, in the form that every step keeps. */
    ghost predicate Bounded()
      reads this, backlog, output
    {
      && Total(backlog.anywhere) <= MAX_BACKLOG
      && (backlog.items != [] && backlog.items[0].key - output.outputPos > DOUBLE_CHECK_LIM ==>
          backlog.size <= MAX_BACKLOG)
    }

    /** Zero filling never goes far beyond the positions of the hash file. */
    ghost predicate Within()
      reads this, backlog, output
    {
      && Slack() <= Limit(db.view) + 65536
      && (forall i | 0 <= i < |backlog.items| :: backlog.items[i].key < Limit(db.view))
    }

    /** The output bytes that are not data records. */
    ghost function Slack(): int
      reads this, output
    {
      output.outputPos - DataBytes(output.recs)
    }

    /** What holds between two calls of process_block. */
    ghost predicate Tidy()
      reads this, backlog, output
    {
      OneAhead() && Bounded() && Within()
    }

    ghost function Waiting(): nat
      reads this, backlog
    {
      |backlog.items| + |backlog.anywhere|
    }

    /** All blocks handed over so far: those written and those that wait. */
    ghost function Ledger(): multiset<Item>
      reads this, backlog, output
    {
      multiset(ItemsOf(output.recs)) + backlog.Contents()
    }

    ghost function State(): Placing
      reads this, db, backlog, output
    {
      Placing(output.recs, output.outputPos, backlog.items, backlog.anywhere, db.nextEntry)
    }

    method WriteAnywhere(i: nat)
      requires Valid() && i < |backlog.anywhere|
      modifies backlog`anywhere, backlog`size, output
      ensures Valid() && Ledger() == old(Ledger()) && State() == Placer.WriteAnywhere(old(State()), i)
      ensures backlog.anywhere == Without(old(backlog.anywhere), i)
      ensures output.recs == old(output.recs) + [Data(old(backlog.anywhere)[i])] && output.fills == old(output.fills)
      ensures output.outputPos == old(output.outputPos) + 2 + |old(backlog.anywhere)[i].data| && Slack() == old(Slack())
      ensures Total(backlog.anywhere) <= old(Total(backlog.anywhere)) && backlog.size <= old(backlog.size)
    {
      hide Total, Unkeyed, ItemsOf, Body, BlockMap, HashFile, ZeroBound, DataBytes;
      var item := backlog.anywhere[i];
      AppendData(output.recs, item);
      WithoutItem(backlog.anywhere, i);
      output.WriteItem(item);
      backlog.RemoveAnywhere(i);
    }

    method WritePositioned(i: nat)
      requires Valid() && i < |backlog.items|
      modifies backlog`items, backlog`size, output
      ensures Valid() && Ledger() == old(Ledger())
      ensures backlog.items == Without(old(backlog.items), i)
      ensures output.recs == old(output.recs) + [Data(old(backlog.items)[i].item)] && output.fills == old(output.fills)
      ensures output.outputPos == old(output.outputPos) + 2 + |old(backlog.items)[i].item.data|
      ensures Slack() == old(Slack())
      ensures backlog.size <= old(backlog.size)
    {
      hide Total, Unkeyed, ItemsOf, Body, BlockMap, HashFile, ZeroBound, DataBytes;
      var item := backlog.items[i].item;
      AppendData(output.recs, item);
      output.WriteItem(item);
      backlog.Remove(i);
    }

    /**
     * fill_with_backlog never passes the next positioned item, and never leaves a gap of one byte where there was
     * none.
     */
    method FillWithBacklog(blocklength: nat)
      requires Valid() && OneAhead() && blocklength <= BLOCKSIZE_MAX
      modifies backlog`anywhere, backlog`size, output
      ensures Valid() && OneAhead() && Ledger() == old(Ledger()) && backlog.items == old(backlog.items)
      ensures output.outputPos >= old(output.outputPos)
      ensures old(output.recs) <= output.recs && output.fills == old(output.fills) && Slack() == old(Slack())
      ensures Total(backlog.anywhere) <= old(Total(backlog.anywhere)) && backlog.size <= old(backlog.size)
      ensures backlog.items != [] && backlog.items[0].key - old(output.outputPos) != 1 ==>
                backlog.items[0].key - output.outputPos != 1
      ensures backlog.items != [] ==> State() == Filled(old(State()))
    {
      hide Total, Unkeyed, ItemsOf, Body, BlockMap, HashFile, ZeroBound, Ledger, Slack, OutputState.Synced, Best,
          Filled, Sorted;
      var next := backlog.Next(output.outputPos);
      while true
        invariant Valid() && OneAhead() && Ledger() == old(Ledger()) && backlog.items == old(backlog.items)
        invariant output.outputPos >= old(output.outputPos)
        invariant old(output.recs) <= output.recs && output.fills == old(output.fills) && Slack() == old(Slack())
        invariant Total(backlog.anywhere) <= old(Total(backlog.anywhere)) && backlog.size <= old(backlog.size)
        invariant backlog.items != [] && backlog.items[0].key - old(output.outputPos) != 1 ==>
                    backlog.items[0].key - output.outputPos != 1
        invariant backlog.items != [] ==> Filled(State()) == Filled(old(State()))
        decreases |backlog.anywhere|
      {
        if backlog.items != [] { FilledStep(State()); }
        var available := blocklength;
        if next < |backlog.items| {
          available := backlog.items[next].key - output.outputPos;
        }
        if available == 0 {
          break;
        }
        var best := backlog.BestFit(available, FIT_OFF);
        BestFound(backlog.anywhere, available, best);
        if best == |backlog.anywhere| {
          break;
        }
        WriteAnywhere(best);
      }
    }
  
    /** There is only one first of the longest items that fit. */
    lemma BestFound(anywhere: seq<Item>, gap: nat, best: nat)
      requires best <= |anywhere| && gap > 0
      requires best == |anywhere| <==>
               gap < FIT_OFF || forall i | 0 <= i < |anywhere| :: !Fits(|anywhere[i].data|, gap, FIT_OFF)
      requires best < |anywhere| && gap != SIZE_MAX ==> IsBest(anywhere, gap, |anywhere|, best)
      requires gap == SIZE_MAX && anywhere != [] ==> best == 0
      ensures Best(anywhere, gap) == best
    {
    }

    /** flush_buffer: writes the positioned item if there is one, else the first other one. */
    method FlushBuffer() returns (b: bool)
      requires Valid() && OneAhead()
      modifies backlog, output
      ensures Valid() && OneAhead() && Ledger() == old(Ledger())
      ensures old(output.recs) <= output.recs && output.fills == old(output.fills) && Slack() == old(Slack())
      ensures Total(backlog.anywhere) <= old(Total(backlog.anywhere)) && backlog.size <= old(backlog.size)
      ensures b <==> old(Waiting()) > 0
      ensures b ==> Waiting() == old(Waiting()) - 1 && backlog.items == []
      ensures !b ==> backlog.Empty()
      ensures State() == Flushed(old(State()))
    {
      hide Total, Unkeyed, ItemsOf, Body, BlockMap, HashFile, ZeroBound, Ledger, Slack, OutputState.Synced;
      var next := backlog.Next(output.outputPos);
      if next < |backlog.items| {
        WritePositioned(next);
        return true;
      }
      var best := backlog.BestFit(SIZE_MAX, 6);
      if best < |backlog.anywhere| {
        WriteAnywhere(best);
        return true;
      }
      return false;
    }

    /** enforce_output_buffer_size ends within the limit, and its zero filling is never reached. */
    method EnforceSize()
      requires Valid() && OneAhead()
      modifies backlog, output
      ensures Valid() && OneAhead() && Ledger() == old(Ledger()) && backlog.size <= MAX_BACKLOG
      ensures old(output.recs) <= output.recs && output.fills == old(output.fills) && Slack() == old(Slack())
      ensures backlog.items == old(backlog.items) || backlog.items == []
      ensures old(backlog.size) <= MAX_BACKLOG ==> output.recs == old(output.recs)
      ensures old(backlog.size) <= MAX_BACKLOG ==> backlog.items == old(backlog.items)
      ensures old(backlog.size) <= MAX_BACKLOG ==> backlog.anywhere == old(backlog.anywhere)
      ensures State() == Enforced(old(State()))
    {
      hide Total, Unkeyed, ItemsOf, Body, BlockMap, HashFile, ZeroBound, Ledger, Slack, OutputState.Synced;
      while backlog.size > MAX_BACKLOG
        invariant Valid() && OneAhead() && Ledger() == old(Ledger())
        invariant old(output.recs) <= output.recs && output.fills == old(output.fills) && Slack() == old(Slack())
        invariant backlog.items == old(backlog.items) || backlog.items == []
        invariant old(backlog.size) <= MAX_BACKLOG ==> output.recs == old(output.recs)
        invariant old(backlog.size) <= MAX_BACKLOG ==> backlog.items == old(backlog.items)
        invariant old(backlog.size) <= MAX_BACKLOG ==> backlog.anywhere == old(backlog.anywhere)
        invariant Enforced(State()) == Enforced(old(State()))
        decreases Waiting()
      {
        var b := FlushBuffer();
        var full := backlog.size > MAX_BACKLOG;
        var next := backlog.Next(output.outputPos);
        if !b && full && next != |backlog.items| {
          assert false;
        } else if !b {
          EmptySize();
          return;
        }
      }
    }

    lemma EmptySize()
      ensures backlog.Valid() && backlog.Empty() ==> backlog.size == 0
    {
    }
  
    /** The first half of process_block: the positioned item is written at its position, or gives it up. */
    method SettlePositioned(chash: Hash, blocklength: nat)
      requires Valid() && Tidy() && blocklength <= BLOCKSIZE_MAX
      modifies backlog, output, db
      ensures Valid() && Within() && Ledger() == old(Ledger()) && backlog.items == []
      ensures Total(backlog.anywhere) <= MAX_BACKLOG
      ensures old(output.recs) <= output.recs && output.fills <= old(output.fills) + 1
      ensures State() == Settle(db.view, old(State()), chash)
    {
      hide Total, Unkeyed, ItemsOf, Body, BlockMap, HashFile, ZeroBound, Ledger, Slack, OutputState.Synced, Limit, Hit,
          ZeroEnd, Sorted, DataBytes, WellFormed, Decoded, ZeroRecords, Found, Filled;
      var next := backlog.Next(output.outputPos);
      if next == |backlog.items| {
        return;
      }
      if !db.view.hasError && backlog.items[next].key - output.outputPos > DOUBLE_CHECK_LIM {
        var confirmed := Confirm(next, chash, blocklength);
        if !confirmed {
          return;
        }
      }
      WriteAtKey(next);
    }

    /** An item far ahead keeps its position only when the next block was found directly behind it. */
    method Confirm(i: nat, chash: Hash, blocklength: nat) returns (confirmed: bool)
      requires Valid() && Tidy() && blocklength <= BLOCKSIZE_MAX && i < |backlog.items| && !Near(db.view, State())
      modifies backlog, output, db
      ensures Valid() && OneAhead() && Within() && Ledger() == old(Ledger())
      ensures Total(backlog.anywhere) <= MAX_BACKLOG
      ensures old(output.recs) <= output.recs && output.fills == old(output.fills)
      ensures confirmed <==> Confirms(db.view, old(State()), chash)
      ensures confirmed ==>
                var e := Found(db.view, old(db.nextEntry), chash, old(output.outputPos)).value;
                State() == Filled(old(State()).(next := e))
      ensures !confirmed ==> State() == GivenUp(old(State()))
    {
      hide Total, Unkeyed, ItemsOf, Body, BlockMap, HashFile, ZeroBound, Ledger, Slack, OutputState.Synced, Limit, Hit,
          Sorted, DataBytes, WellFormed, Decoded, Found, Filled;
      var positioned := backlog.items[i];
      var found, e := db.Find(chash, output.outputPos);
      FoundExactly(db.view, db.nextEntry, chash, output.outputPos);
      assert found ==> FirstHit(db.view, db.nextEntry, chash, output.outputPos, e);
      confirmed := found && Decoded(db.view, e) == positioned.key + |positioned.item.data| + FIT_OFF;
      if confirmed {
        db.SetNext(e);
        FillWithBacklog(blocklength);
      } else {
        GiveUpPosition(i);
      }
    }

    /** Zeroes up to the position of the item, then the item. */
    method WriteAtKey(i: nat)
      requires Valid() && OneAhead() && Within() && i < |backlog.items| && Total(backlog.anywhere) <= MAX_BACKLOG
      modifies backlog`items, backlog`size, output
      ensures Valid() && Within() && Ledger() == old(Ledger()) && backlog.items == []
      ensures output.fills <= old(output.fills) + 1 && old(output.recs) <= output.recs
      ensures State() == Settled(old(State()))
    {
      hide Total, Unkeyed, ItemsOf, Body, BlockMap, HashFile, ZeroBound, Ledger, Slack, Limit, ZeroEnd, Sorted,
          DataBytes, WellFormed, ZeroRecords;
      FillZeroes(backlog.items[i].key);
      WritePositioned(i);
    }

    method GiveUpPosition(i: nat)
      requires Valid() && OneAhead() && Within() && i < |backlog.items| && backlog.size <= MAX_BACKLOG
      modifies backlog
      ensures Valid() && Within() && Ledger() == old(Ledger()) && backlog.items == []
      ensures Total(backlog.anywhere) <= MAX_BACKLOG
      ensures State() == GivenUp(old(State()))
    {
      hide Total, Unkeyed, ItemsOf, Slack, OutputState.Synced, Sorted;
      var item := backlog.items[i].item;
      backlog.Remove(i);
      backlog.AddAnywhere(item);
      EmptyTotal();
    }

    lemma EmptyTotal()
      ensures backlog.Valid() && backlog.items == [] ==> backlog.size == Total(backlog.anywhere)
    {
    }

    method FillZeroes(key: int)
      requires Valid() && Within() && key < Limit(db.view)
      modifies output
      ensures Valid() && Within() && Ledger() == old(Ledger())
      ensures old(output.recs) <= output.recs && output.fills <= old(output.fills) + 1
      ensures output.outputPos == ZeroEnd(old(output.outputPos), key)
      ensures output.recs == old(output.recs) + ZeroRecords(old(output.outputPos), key)
    {
      hide Body, BlockMap, HashFile, DataBytes, ItemsOf;
      output.WriteZeroes(key);
    }
  
    method WriteDirect(item: Item)
      requires Valid() && |item.data| <= BLOCKSIZE_MAX
      modifies output
      ensures Valid() && Ledger() == old(Ledger()) + multiset{item}
      ensures output.recs == old(output.recs) + [Data(item)] && output.fills == old(output.fills)
      ensures Slack() == old(Slack()) && State() == Written(old(State()), item)
      ensures old(Within()) ==> Within()
    {
      hide Total, Unkeyed, ItemsOf, Body, BlockMap, HashFile, ZeroBound, DataBytes;
      AppendData(output.recs, item);
      output.WriteItem(item);
    }

    method AddFirst(key: int, item: Item)
      requires Valid() && Within() && backlog.items == [] && |item.data| <= BLOCKSIZE_MAX
      requires output.outputPos <= key < Limit(db.view)
      modifies backlog`items, backlog`size
      ensures Valid() && Within() && OneAhead() && Ledger() == old(Ledger()) + multiset{item}
      ensures backlog.items == [Positioned(key, item)] && backlog.size == old(backlog.size) + |item.data|
    {
      hide Total, Unkeyed, ItemsOf, Slack, OutputState.Synced, Sorted;
      backlog.Add(key, item);
    }

    method AddLast(item: Item)
      requires Valid() && Within() && backlog.items == [] && |item.data| <= BLOCKSIZE_MAX
      modifies backlog`anywhere, backlog`size
      ensures Valid() && Within() && OneAhead() && Ledger() == old(Ledger()) + multiset{item}
      ensures backlog.anywhere == old(backlog.anywhere) + [item] && backlog.size == old(backlog.size) + |item.data|
    {
      hide Total, Unkeyed, ItemsOf, Slack, OutputState.Synced, Sorted;
      backlog.AddAnywhere(item);
    }

    lemma SizeBounds()
      requires Valid() && |backlog.items| <= 1
      ensures Total(backlog.anywhere) <= backlog.size <= Total(backlog.anywhere) + BLOCKSIZE_MAX
      ensures backlog.items == [] ==> backlog.size == Total(backlog.anywhere)
    {
      var t := Unkeyed(backlog.items);
      if t != [] {
        assert t[..0] == [] && t[0] == backlog.items[0].item;
        assert Total(t) == Total(t[..0]) + |t[0].data|;
      }
    }

    /** The second half of process_block: the new block is written, positioned or put with the others. */
    method PlaceBlock(item: Item)
      requires Valid() && Within() && backlog.items == [] && Total(backlog.anywhere) <= MAX_BACKLOG
      requires |item.data| <= BLOCKSIZE_MAX
      modifies backlog, output, db
      ensures Valid() && Tidy() && Ledger() == old(Ledger()) + multiset{item}
      ensures old(output.recs) <= output.recs && output.fills == old(output.fills)
      ensures State() == Placed(db.view, old(State()), item)
    {
      hide Total, Unkeyed, ItemsOf, Body, BlockMap, HashFile, ZeroBound, Ledger, Slack, OutputState.Synced, Limit, Hit,
          Sorted, Within, Decoded, Found, Filled, Enforced;
      if db.view.hasError {
        WriteInOrder(item);
        return;
      }
      var found, e := db.Find(item.chash, output.outputPos);
      FoundExactly(db.view, db.nextEntry, item.chash, output.outputPos);
      if !found {
        PutLast(item);
        return;
      }
      assert FirstHit(db.view, db.nextEntry, item.chash, output.outputPos, e);
      var offset := Decoded(db.view, e);
      if offset == output.outputPos {
        db.SetNext(e);
        WriteDirect(item);
        return;
      }
      DecodedWithin(db.view, e);
      PositionBlock(offset, item);
    }

    method WriteInOrder(item: Item)
      requires Valid() && Within() && backlog.items == [] && Total(backlog.anywhere) <= MAX_BACKLOG
      requires |item.data| <= BLOCKSIZE_MAX
      modifies backlog, output
      ensures Valid() && Tidy() && Ledger() == old(Ledger()) + multiset{item}
      ensures old(output.recs) <= output.recs && output.fills == old(output.fills)
      ensures State() == Enforced(Written(old(State()), item))
    {
      hide Total, Unkeyed, ItemsOf, Body, BlockMap, HashFile, ZeroBound, Ledger, Slack, OutputState.Synced, Limit;
      WriteDirect(item);
      SizeBounds();
      EnforceSize();
    }

    method PutLast(item: Item)
      requires Valid() && Within() && backlog.items == [] && Total(backlog.anywhere) <= MAX_BACKLOG
      requires |item.data| <= BLOCKSIZE_MAX
      modifies backlog, output
      ensures Valid() && Tidy() && Ledger() == old(Ledger()) + multiset{item}
      ensures old(output.recs) <= output.recs && output.fills == old(output.fills) && backlog.items == []
      ensures State() == Enforced(old(State()).(anywhere := old(backlog.anywhere) + [item]))
    {
      hide Total, Unkeyed, ItemsOf, Body, BlockMap, HashFile, ZeroBound, Ledger, Slack, OutputState.Synced, Limit;
      SizeBounds();
      AddLast(item);
      EnforceSize();
      SizeBounds();
    }

    /** A block waits for its position, unless that is far ahead and the backlog is full. */
    method PositionBlock(offset: int, item: Item)
      requires Valid() && Within() && backlog.items == [] && Total(backlog.anywhere) <= MAX_BACKLOG
      requires |item.data| <= BLOCKSIZE_MAX && output.outputPos <= offset < Limit(db.view)
      modifies backlog, output
      ensures Valid() && Tidy() && Ledger() == old(Ledger()) + multiset{item}
      ensures old(output.recs) <= output.recs && output.fills == old(output.fills)
      ensures var t := old(State()).(items := [Positioned(offset, item)]);
              State() == if offset - old(output.outputPos) > DOUBLE_CHECK_LIM then Enforced(t) else Filled(t)
    {
      hide Total, Unkeyed, ItemsOf, Body, BlockMap, HashFile, ZeroBound, Ledger, Slack, OutputState.Synced, Limit;
      var far := offset - output.outputPos > DOUBLE_CHECK_LIM;
      SizeBounds();
      AddFirst(offset, item);
      if far {
        EnforceSize();
        SizeBounds();
      } else {
        FillWithBacklog(|item.data|);
      }
    }

    /** process_block: the block joins the ledger, and the backlog stays bounded on every path. */
    method ProcessBlock(item: Item)
      requires Valid() && Tidy() && |item.data| <= BLOCKSIZE_MAX
      modifies backlog, output, db
      ensures Valid() && Tidy() && Ledger() == old(Ledger()) + multiset{item}
      ensures backlog.size <= MAX_BACKLOG + BLOCKSIZE_MAX
      ensures old(output.recs) <= output.recs && output.fills <= old(output.fills) + 1
      ensures State() == Process(db.view, old(State()), item)
    {
      hide Total, Unkeyed, ItemsOf, Body, BlockMap, HashFile, ZeroBound, Ledger, Slack, Limit, Settle, Placed,
          OutputState.Synced;
      SettlePositioned(item.chash, |item.data|);
      PlaceBlock(item);
      SizeBounds();
    }
  }
}
