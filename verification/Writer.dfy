/** write_item and write_zeroes: every change of the output goes through these. */
module Writer {
  import opened Bytes
  import opened BlockFormat

  /**
   * Where zero filling from pos to target ends: on the target, or 65536 bytes too far when the gap is 1 modulo
   * 65537.
   */
  function ZeroEnd(pos: nat, target: int): nat {
    if target <= pos then pos
    else if (target - pos) % 65537 == 1 then target + 65536 else target
  }

  /** The length of the next zero record: the cast of -1 to unsigned short is 65535. */
  function ZeroLength(gap: int): nat
    requires gap > 0
  {
    if gap - 2 >= 65535 then 65535 else (gap - 2) % 65536
  }

  /** The records that write_zeroes adds between pos and target. */
  function ZeroRecords(pos: nat, target: int): seq<Record>
    decreases target - pos
  {
    if target <= pos then []
    else
      var len := ZeroLength(target - pos);
      [Zero(len)] + ZeroRecords(pos + 2 + len, target)
  }

  /** One zero record either leaves the same gap modulo 65537 or ends the filling. */
  lemma ZeroStep(pos: nat, target: int)
    requires pos < target
    ensures var len := ZeroLength(target - pos);
      && len <= USHRT_MAX
      && ZeroEnd(pos + 2 + len, target) == ZeroEnd(pos, target)
      && (pos + 2 + len < target ==> len == USHRT_MAX)
  {
    var gap := target - pos;
    if gap > 65537 {
      assert (gap - 65537) % 65537 == gap % 65537;
    } else if gap == 65537 {
      assert gap % 65537 == 0;
    }
  }

  lemma FirstZero(pos: nat, target: int)
    requires pos < target
    ensures var len := ZeroLength(target - pos);
      ZeroRecords(pos, target) == [Zero(len)] + ZeroRecords(pos + 2 + len, target)
  {
    hide ZeroLength;
  }

  lemma ZeroRecordBody(len: nat)
    ensures |Body([Zero(len)])| == 2 + len
  {
    hide Body;
    EmptyBody();
    AppendCounts([], Zero(len));
    assert [] + [Zero(len)] == [Zero(len)];
  }

  /** Zero records lead from pos to where zero filling ends. */
  lemma {:induction false} ZeroBody(pos: nat, target: int)
    ensures pos + |Body(ZeroRecords(pos, target))| == ZeroEnd(pos, target)
    decreases target - pos
  {
    hide Body, ZeroEnd, ZeroLength, ZeroRecords;
    if pos < target {
      var len := ZeroLength(target - pos);
      ZeroStep(pos, target);
      FirstZero(pos, target);
      ZeroBody(pos + 2 + len, target);
      BodyConcat([Zero(len)], ZeroRecords(pos + 2 + len, target));
      ZeroRecordBody(len);
    } else {
      EmptyBody();
      NothingToFill(pos, target);
    }
  }

  lemma NothingToFill(pos: nat, target: int)
    requires target <= pos
    ensures ZeroEnd(pos, target) == pos && ZeroRecords(pos, target) == []
  {
  }

  /** Only zero records were added. */
  ghost predicate ZeroesAdded(before: seq<Record>, after: seq<Record>) {
    && before <= after && ItemsOf(after) == ItemsOf(before) && DataBytes(after) == DataBytes(before)
    && forall i | |before| <= i < |after| :: after[i].Zero?
  }

  lemma {:induction false} ZeroAdded(before: seq<Record>, recs: seq<Record>, len: nat)
    requires ZeroesAdded(before, recs)
    ensures ZeroesAdded(before, recs + [Zero(len)])
  {
    AppendRecord(recs, Zero(len));
    AppendCounts(recs, Zero(len));
  }

  /** The bound on the number of zero records that Synced keeps. */
  ghost predicate ZeroBound(recs: seq<Record>, fills: nat) {
    65537 * ZeroCount(recs) <= |Body(recs)| + 65537 * fills
  }

  lemma {:induction false} ZeroBoundNext(recs: seq<Record>, fills: nat, r: Record)
    requires ZeroBound(recs, fills)
    ensures ZeroBound(recs + [r], if r.Zero? && r.len != USHRT_MAX then fills + 1 else fills)
  {
    AppendCounts(recs, r);
  }

  class OutputState {
    var nblock: nat
    var outputPos: nat
    var out: seq<Byte>
    var blockmap: seq<int>
    var hashes: seq<Entry>
    ghost var recs: seq<Record>
    /** How often zeroes were filled in. */
    ghost var fills: nat

    /** Everything written so far is determined by the sequence of records. */
    ghost predicate Synced()
      reads this
    {
      && out == Body(recs) && outputPos == |out|
      && nblock == |recs| && blockmap == BlockMap(recs) && hashes == HashFile(recs)
      && WellFormed(recs) && ZeroBound(recs, fills)
    }

    constructor ()
      ensures Synced() && recs == [] && fills == 0
    {
      nblock, outputPos, out, blockmap, hashes, recs, fills := 0, 0, [], [], [], [], 0;
    }

    method WriteItem(item: Item)
      requires Synced() && |item.data| <= BLOCKSIZE_MAX
      modifies this
      ensures Synced() && recs == old(recs) + [Data(item)] && fills == old(fills)
      ensures outputPos == old(outputPos) + 2 + |item.data|
    {
      hide Body, BlockMap, HashFile, ItemsOf, DataBytes, ZeroCount, LittleEndian, ZeroBound;
      AppendRecord(recs, Data(item));
      ZeroBoundNext(recs, fills, Data(item));
      var avg := nblock * BLOCKSIZE_AVG;
      blockmap := blockmap + [CastInt32(item.pos - avg)];
      out := out + (LittleEndian(|item.data|, 2) + item.data);
      hashes := hashes + [Entry(item.chash, CastInt32(outputPos - avg))];
      outputPos := outputPos + 2 + |item.data|;
      nblock := nblock + 1;
      recs := recs + [Data(item)];
    }

    method WriteZero(len: nat)
      requires Synced() && len <= USHRT_MAX
      modifies this`nblock, this`outputPos, this`out, this`blockmap, this`recs, this`fills
      ensures Synced() && recs == old(recs) + [Zero(len)]
      ensures fills == old(fills) + (if len == USHRT_MAX then 0 else 1)
      ensures outputPos == old(outputPos) + 2 + len
    {
      hide Body, BlockMap, HashFile, ItemsOf, DataBytes, ZeroCount, LittleEndian, ZeroBound;
      AppendRecord(recs, Zero(len));
      ZeroBoundNext(recs, fills, Zero(len));
      out := out + (LittleEndian(len, 2) + seq(len, _ => 0));
      outputPos := outputPos + 2 + len;
      blockmap := blockmap + [INT_MAX];
      nblock := nblock + 1;
      recs := recs + [Zero(len)];
      fills := fills + (if len == USHRT_MAX then 0 else 1);
    }

    /** write_zeroes adds zero records only, at most one of them shorter than the longest. */
    method WriteZeroes(target: int)
      requires Synced()
      modifies this`nblock, this`outputPos, this`out, this`blockmap, this`recs, this`fills
      ensures Synced() && ZeroesAdded(old(recs), recs)
      ensures outputPos == ZeroEnd(old(outputPos), target) && fills <= old(fills) + 1
      ensures recs == old(recs) + ZeroRecords(old(outputPos), target)
    {
      hide Body, BlockMap, HashFile, ItemsOf, DataBytes, ZeroCount;
      while outputPos < target
        invariant Synced() && ZeroesAdded(old(recs), recs) && hashes == old(hashes)
        invariant ZeroEnd(outputPos, target) == ZeroEnd(old(outputPos), target)
        invariant outputPos < target ==> fills == old(fills)
        invariant fills <= old(fills) + 1
        invariant recs + ZeroRecords(outputPos, target) == old(recs) + ZeroRecords(old(outputPos), target)
        decreases target - outputPos
      {
        var len := ZeroLength(target - outputPos);
        ZeroStep(outputPos, target);
        ZeroAdded(old(recs), recs, len);
        ghost var later := ZeroRecords(outputPos + 2 + len, target);
        assert recs + ([Zero(len)] + later) == (recs + [Zero(len)]) + later;
        WriteZero(len);
      }
    }
  }
}
