/** restore_stream: reads the records in file order and reassembles the input out of order. */
module Restore {
  import opened Bytes
  import opened BlockFormat

  /** The return value and everything written to the output stream so far. */
  datatype Restored = Restored(ok: bool, out: seq<Byte>)

  /** Blocks that arrived before their turn, by position. */
  type Pending = map<int, seq<Byte>>

  datatype Flushed = Flushed(pending: Pending, offset: int, out: seq<Byte>)

  /** restore_buffers: writes pending blocks for as long as the next position is among them. */
  function Flush(pending: Pending, offset: int, out: seq<Byte>): Flushed
    decreases |pending|
  {
    if offset !in pending then Flushed(pending, offset, out)
    else
      assert |pending - {offset}| < |pending| by { RemoveShrinks(pending, offset); }
      Flush(pending - {offset}, offset + |pending[offset]|, out + pending[offset])
  }

  lemma RemoveShrinks(pending: Pending, offset: int)
    requires offset in pending
    ensures |pending - {offset}| == |pending| - 1
  {
    assert (pending - {offset}).Keys == pending.Keys - {offset};
  }

  /** The record loop, from stream position p, record number n and output position offset. */
  function RestoreFrom(file: seq<Byte>, mapStart: int, avg: nat, p: nat, n: nat, offset: int, pending: Pending,
                       out: seq<Byte>): Restored
    decreases |file| - p
  {
    if p == mapStart then Restored(true, out)
    else if p + 2 > |file| then
      var f := Flush(pending, offset, out);
      Restored(f.pending == map[], f.out)
    else if !(0 <= mapStart + 4 * n && mapStart + 4 * n + 4 <= |file|) then Restored(false, out)
    else
      var blen := FromLittleEndian(file[p..p + 2]);
      var entry := FromInt32Bytes(file[mapStart + 4 * n..mapStart + 4 * n + 4]);
      if entry == INT_MAX then RestoreFrom(file, mapStart, avg, p + 2 + blen, n + 1, offset, pending, out)
      else if blen > BLOCKSIZE_MAX then Restored(false, out)
      else if p + 2 + blen > |file| then Restored(false, out)
      else
        var data := file[p + 2..p + 2 + blen];
        var pos := n * avg + entry;
        if pos < offset then Restored(false, out)
        else if pos == offset then
          var f := Flush(pending, offset + blen, out + data);
          RestoreFrom(file, mapStart, avg, p + 2 + blen, n + 1, f.offset, f.pending, f.out)
        else RestoreFrom(file, mapStart, avg, p + 2 + blen, n + 1, offset, pending[pos := data], out)
  }

  function Signed64(x: nat): int { if x < 0x8000_0000_0000_0000 then x else x - 0x1_0000_0000_0000_0000 }

  /** The whole of restore_stream on a file of these bytes. */
  function RestoreFile(file: seq<Byte>): Restored {
    if |file| < HEADER_SIZE || file[..12] != MAGIC then Restored(false, [])
    else
      var count := Signed64(FromLittleEndian(file[|file| - 8..]));
      RestoreFrom(file, |file| - 8 - 4 * count, FromLittleEndian(file[12..16]), HEADER_SIZE, 0, 0, map[], [])
  }

  /** A file that is too short or does not begin with BLOCKALIGN#1 is refused, and nothing is written. */
  lemma BadHeaderFails(file: seq<Byte>)
    requires |file| < 16 || exists i | 0 <= i < 12 :: file[i] != "BLOCKALIGN#1"[i] as int
    ensures RestoreFile(file) == Restored(false, [])
  {
    hide RestoreFrom;
    assert forall i | 0 <= i < 12 :: MAGIC[i] == "BLOCKALIGN#1"[i] as int;
    if |file| >= 16 {
      var i :| 0 <= i < 12 && file[i] != "BLOCKALIGN#1"[i] as int;
      assert file[..12][i] != MAGIC[i];
    }
  }

  // ---------------------------------------------------------------------------------------
  // The loops of the program compute these functions.

  method RestoreBuffers(pending: Pending, offset: int, out: seq<Byte>)
    returns (pending': Pending, offset': int, out': seq<Byte>)
    ensures Flushed(pending', offset', out') == Flush(pending, offset, out)
    ensures offset' !in pending'
  {
    pending', offset', out' := pending, offset, out;
    while offset' in pending'
      invariant Flush(pending', offset', out') == Flush(pending, offset, out)
      decreases |pending'|
    {
      RemoveShrinks(pending', offset');
      var block := pending'[offset'];
      out' := out' + block;
      pending' := pending' - {offset'};
      offset' := offset' + |block|;
    }
  }

  method RestoreStream(file: seq<Byte>) returns (ok: bool, out: seq<Byte>)
    ensures Restored(ok, out) == RestoreFile(file)
  {
    hide Flush, FromLittleEndian, FromInt32Bytes, Signed64;
    out := [];
    if |file| < HEADER_SIZE || file[..12] != MAGIC {
      return false, out;
    }
    var count := Signed64(FromLittleEndian(file[|file| - 8..]));
    var mapStart := |file| - 8 - 4 * count;
    var avg := FromLittleEndian(file[12..16]);
    var p, n, offset := HEADER_SIZE, 0, 0;
    var pending: Pending := map[];
    while true
      invariant RestoreFrom(file, mapStart, avg, p, n, offset, pending, out) == RestoreFile(file)
      decreases |file| - p
    {
      if p == mapStart {
        return true, out;
      }
      if p + 2 > |file| {
        pending, offset, out := RestoreBuffers(pending, offset, out);
        return pending == map[], out;
      }
      if !(0 <= mapStart + 4 * n && mapStart + 4 * n + 4 <= |file|) {
        return false, out;
      }
      var blen := FromLittleEndian(file[p..p + 2]);
      var entry := FromInt32Bytes(file[mapStart + 4 * n..mapStart + 4 * n + 4]);
      if entry == INT_MAX {
        p, n := p + 2 + blen, n + 1;
        continue;
      }
      if blen > BLOCKSIZE_MAX || p + 2 + blen > |file| {
        return false, out;
      }
      var data := file[p + 2..p + 2 + blen];
      var pos := n * avg + entry;
      if pos < offset {
        return false, out;
      }
      if pos == offset {
        out := out + data;
        pending, offset, out := RestoreBuffers(pending, offset + blen, out);
      } else {
        pending := pending[pos := data];
      }
      p, n := p + 2 + blen, n + 1;
    }
  }
}
