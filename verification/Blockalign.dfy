/** The program: a sliding window over the input, the placer, the final drain and the file layout. */
module Blockalign {
  import opened Bytes
  import opened BlockFormat
  import opened Chunker
  import opened HashDatabase
  import opened Backlog
  import opened Writer
  import opened Aligner
  import opened Placer

  /** The state after the given blocks were processed. */
  ghost predicate Tracks(al: Aligner, cfg: Config, blocks: seq<seq<Byte>>, done: seq<seq<Byte>>)
    reads al, al.backlog, al.output, al.db
  {
    && al.Valid() && al.Tidy() && done <= blocks
    && al.Ledger() == multiset(Place(BlockHash(cfg), done))
    && al.output.fills <= |done|
    && al.State() == Run(al.db.view, Place(BlockHash(cfg), done))
  }

  // ---------------------------------------------------------------------------------------
  // One block

  /** next_blockhash and process_block on the block at the start of the window. */
  method ProcessNext(al: Aligner, cfg: Config, buffer: array<Byte>, start: nat, len: nat, inputPos: nat,
                     ghost blocks: seq<seq<Byte>>, ghost done: seq<seq<Byte>>) returns (blocklength: nat)
    requires Extends(cfg) && Tracks(al, cfg, blocks, done)
    requires start + len <= buffer.Length && len <= BLOCKSIZE_MAX && inputPos == |Concat(done)|
    requires done + [buffer[start..start + Cut(cfg, buffer[start..start + len])]] <= blocks
    modifies al.backlog, al.output, al.db
    ensures blocklength == Cut(cfg, buffer[start..start + len])
    ensures Tracks(al, cfg, blocks, done + [buffer[start..start + blocklength]])
  {
    hide Tracks, Concat, Cut;
    CutBounds(cfg, buffer[start..start + len]);
    var chash;
    chash, blocklength := NextBlockhash(cfg, buffer, start, len);
    var block := buffer[start..start + blocklength];
    ProcessTracked(al, cfg, block, chash, inputPos, blocks, done);
  }

  method ProcessTracked(al: Aligner, cfg: Config, block: seq<Byte>, chash: Hash, inputPos: nat,
                        ghost blocks: seq<seq<Byte>>, ghost done: seq<seq<Byte>>)
    requires Tracks(al, cfg, blocks, done) && done + [block] <= blocks
    requires |block| <= BLOCKSIZE_MAX && chash == BlockHash(cfg)(block) && inputPos == |Concat(done)|
    modifies al.backlog, al.output, al.db
    ensures Tracks(al, cfg, blocks, done + [block])
  {
    hide Body, HashFile, Place, Concat, ItemsOf, BlockMap, Total, Unkeyed, ZeroBound, Aligner.Ledger, Process,
        Aligner.Tidy;
    var item := Item(chash, block, inputPos);
    AppendBlock(BlockHash(cfg), done, block);
    RunNext(al.db.view, Place(BlockHash(cfg), done), item);
    al.ProcessBlock(item);
  }

  // ---------------------------------------------------------------------------------------
  // The sliding window

  /** fill_buffer: reads until the request is met or the input ends. */
  method FillBuffer(toread: nat, offset: nat, buffer: array<Byte>, input: seq<Byte>, readPos: nat) returns (read: nat)
    requires offset + toread <= buffer.Length && readPos <= |input|
    modifies buffer
    ensures read == if toread <= |input| - readPos then toread else |input| - readPos
    ensures buffer[..offset] == old(buffer[..offset])
    ensures buffer[offset..offset + read] == input[readPos..readPos + read]
  {
    read := 0;
    while read < toread && readPos + read < |input|
      invariant read <= toread && readPos + read <= |input|
      invariant buffer[..offset] == old(buffer[..offset])
      invariant buffer[offset..offset + read] == input[readPos..readPos + read]
    {
      ghost var before := buffer[offset..offset + read];
      buffer[offset + read] := input[readPos + read];
      assert buffer[offset..offset + read + 1] == before + [input[readPos + read]];
      read := read + 1;
    }
  }

  /** memcpy of the unread bytes to the front; the two ranges must not overlap. */
  method MoveToFront(buffer: array<Byte>, start: nat, len: nat)
    requires start + len <= buffer.Length && len <= start
    modifies buffer
    ensures buffer[..len] == old(buffer[start..start + len])
  {
    for i := 0 to len
      invariant forall j | 0 <= j < i :: buffer[j] == old(buffer[start + j])
      invariant forall j | start <= j < start + len :: buffer[j] == old(buffer[j])
    {
      buffer[i] := buffer[start + i];
    }
  }

  const BUFFER_RESET: nat := 20

  /** The buffer holds the next unread bytes of the input. */
  ghost predicate Windowed(buffer: array<Byte>, input: seq<Byte>, start: nat, offset: nat, inputPos: nat)
    reads buffer
  {
    && start <= offset <= buffer.Length && inputPos + (offset - start) <= |input|
    && buffer[start..offset] == input[inputPos..inputPos + (offset - start)]
  }

  /** Reads ahead so that the window is as long as the chunker wants it; never beyond the end of the buffer. */
  method ReadAhead(buffer: array<Byte>, input: seq<Byte>, start: nat, offset: nat, inputPos: nat)
    returns (offset': nat, full: bool)
    requires Windowed(buffer, input, start, offset, inputPos) && offset - start <= BLOCKSIZE_MAX
    requires start + BLOCKSIZE_MAX <= buffer.Length
    modifies buffer
    ensures Windowed(buffer, input, start, offset', inputPos) && offset' - start <= BLOCKSIZE_MAX
    ensures buffer[start..offset'] == Window(input[inputPos..])
    ensures full <==> offset' - start == BLOCKSIZE_MAX
  {
    var toread := BLOCKSIZE_MAX;
    if offset > start {
      toread := if offset - start < toread then toread + start - offset else 0;
    }
    hide Window;
    var read := 0;
    var readPos := inputPos + (offset - start);
    ghost var front := buffer[..offset];
    if toread > 0 {
      read := FillBuffer(toread, offset, buffer, input, readPos);
    }
    offset' := offset + read;
    full := read == toread;
    Spliced(buffer[..], front, input, start, offset, offset', inputPos);
  }

  lemma Spliced(whole: seq<Byte>, front: seq<Byte>, input: seq<Byte>, start: nat, mid: nat, end: nat, pos: nat)
    requires start <= mid <= end <= |whole| && front == whole[..mid] && pos + (end - start) <= |input|
    requires front[start..mid] == input[pos..pos + (mid - start)]
    requires whole[mid..end] == input[pos + (mid - start)..pos + (end - start)]
    requires end - start == if |input| - pos < BLOCKSIZE_MAX then |input| - pos else BLOCKSIZE_MAX
    ensures whole[start..end] == input[pos..pos + (end - start)] == Window(input[pos..])
  {
    WindowParts(input, pos, pos + (mid - start), pos + (end - start));
    assert whole[start..end] == front[start..mid] + whole[mid..end];
  }

  lemma WindowParts(input: seq<Byte>, lo: nat, mid: nat, hi: nat)
    requires lo <= mid <= hi <= |input|
    requires hi - lo == if |input| - lo < BLOCKSIZE_MAX then |input| - lo else BLOCKSIZE_MAX
    ensures input[lo..mid] + input[mid..hi] == input[lo..hi] == Window(input[lo..])
  {
  }

  /** What the block loops keep: the blocks cut so far and those to come are the blocks of the input. */
  ghost predicate Cutting(input: seq<Byte>, blocks: seq<seq<Byte>>, done: seq<seq<Byte>>, later: seq<seq<Byte>>,
      inputPos: nat) {
    inputPos == |Concat(done)| <= |input| && blocks == done + later
  }

  lemma {:induction false} CutNext(cfg: Config, input: seq<Byte>, blocks: seq<seq<Byte>>, done: seq<seq<Byte>>,
      b: seq<Byte>,
                                   later: seq<seq<Byte>>, inputPos: nat)
    requires Cutting(input, blocks, done, [b] + later, inputPos) && inputPos + |b| <= |input|
    ensures done + [b] <= blocks && Cutting(input, blocks, done + [b], later, inputPos + |b|)
  {
    AppendBlock(BlockHash(cfg), done, b);
    assert done + ([b] + later) == (done + [b]) + later;
  }

  /** The blocks that the rest of the input will give; full says whether the last window was a full one. */
  function Later(cfg: Config, rest: seq<Byte>, full: bool): seq<seq<Byte>> {
    if full then InputBlocks(cfg, rest) else TailBlocks(cfg, rest)
  }

  lemma LaterStep(cfg: Config, input: seq<Byte>, inputPos: nat)
    requires inputPos <= |input|
    ensures var rest := input[inputPos..];
      var w := Window(rest);
      var n := Cut(cfg, w);
      && inputPos + n <= |input| && (|w| == BLOCKSIZE_MAX ==> n >= BLOCKSIZE_MIN)
      && Later(cfg, rest, true) == [w[..n]] + Later(cfg, input[inputPos + n..], |w| == BLOCKSIZE_MAX)
      && (|w| < BLOCKSIZE_MAX ==> inputPos + |w| == |input|)
  {
    var rest := input[inputPos..];
    var n := Cut(cfg, Window(rest));
    assert rest[n..] == input[inputPos + n..];
  }

  lemma TailStep(cfg: Config, input: seq<Byte>, inputPos: nat)
    requires inputPos < |input|
    ensures var rest := input[inputPos..];
      var n := Cut(cfg, rest);
      && 0 < n && inputPos + n <= |input|
      && Later(cfg, rest, false) == [rest[..n]] + Later(cfg, input[inputPos + n..], false)
  {
    var rest := input[inputPos..];
    var n := Cut(cfg, rest);
    assert rest[n..] == input[inputPos + n..];
  }

  /** One round of the first loop. */
  method WindowStep(al: Aligner, cfg: Config, input: seq<Byte>, buffer: array<Byte>, start: nat, offset: nat,
      resets: nat, inputPos: nat,
                    ghost blocks: seq<seq<Byte>>, ghost done: seq<seq<Byte>>)
    returns (start': nat, offset': nat, resets': nat, inputPos': nat, full: bool, ghost done': seq<seq<Byte>>)
    requires Extends(cfg) && Tracks(al, cfg, blocks, done)
    requires Windowed(buffer, input, start, offset, inputPos) && offset - start < BLOCKSIZE_MAX
    requires buffer.Length == BLOCKSIZE_MAX * BUFFER_RESET
    requires resets < BUFFER_RESET && BLOCKSIZE_MIN * resets <= start <= BLOCKSIZE_MAX * resets
    requires Cutting(input, blocks, done, Later(cfg, input[inputPos..], true), inputPos)
    modifies buffer, al.backlog, al.output, al.db
    ensures Tracks(al, cfg, blocks, done')
    ensures Windowed(buffer, input, start', offset', inputPos') && offset' - start' < BLOCKSIZE_MAX
    ensures resets' < BUFFER_RESET && BLOCKSIZE_MIN * resets' <= start' <= BLOCKSIZE_MAX * resets'
    ensures Cutting(input, blocks, done', Later(cfg, input[inputPos'..], full), inputPos')
    ensures full ==> inputPos' > inputPos
    ensures !full ==> inputPos' >= inputPos && inputPos' + (offset' - start') == |input|
  {
    hide Concat, Tracks, Later, Extends, Cut, Window;
    offset', full := ReadAhead(buffer, input, start, offset, inputPos);
    ghost var w := buffer[start..offset'];
    ghost var n := Cut(cfg, w);
    CutBounds(cfg, w);
    LaterStep(cfg, input, inputPos);
    CutNext(cfg, input, blocks, done, w[..n], Later(cfg, input[inputPos + n..], full), inputPos);
    WindowFront(buffer[..], start, offset', n);
    var length := ProcessNext(al, cfg, buffer, start, offset' - start, inputPos, blocks, done);
    done' := done + [w[..n]];
    inputPos' := inputPos + length;
    start', offset', resets' := Consume(buffer, input, start, offset', resets, inputPos, length);
  }

  lemma WindowFront(buffer: seq<Byte>, start: nat, offset: nat, n: nat)
    requires start + n <= offset <= |buffer|
    ensures buffer[start..start + n] == buffer[start..offset][..n]
    ensures buffer[start + n..offset] == buffer[start..offset][n..]
  {
  }

  /** Moves past a block; after twenty rounds the unread bytes return to the front of the buffer. */
  method Consume(buffer: array<Byte>, input: seq<Byte>, start: nat, offset: nat, resets: nat, inputPos: nat,
      length: nat)
    returns (start': nat, offset': nat, resets': nat)
    requires Windowed(buffer, input, start, offset, inputPos) && offset - start <= BLOCKSIZE_MAX
    requires length <= offset - start && (length == offset - start || length >= BLOCKSIZE_MIN)
    requires resets < BUFFER_RESET && BLOCKSIZE_MIN * resets <= start <= BLOCKSIZE_MAX * resets
    modifies buffer
    ensures Windowed(buffer, input, start', offset', inputPos + length) && offset' - start' == offset - start - length
    ensures resets' < BUFFER_RESET && BLOCKSIZE_MIN * resets' <= start' <= BLOCKSIZE_MAX * resets'
  {
    start', offset' := start + length, offset;
    assert buffer[start'..offset] == buffer[start..offset][length..];
    if start' == offset' {
      start', offset', resets' := 0, 0, 0;
    } else {
      resets' := resets + 1;
    }
    if resets' == BUFFER_RESET {
      var len := offset' - start';
      MoveToFront(buffer, start', len);
      start', offset', resets' := 0, len, 0;
    }
  }

  lemma CutBounds(cfg: Config, w: seq<Byte>)
    ensures Cut(cfg, w) <= |w|
    ensures |w| >= BLOCKSIZE_MIN ==> Cut(cfg, w) >= BLOCKSIZE_MIN
    ensures |w| < BLOCKSIZE_MIN ==> Cut(cfg, w) == |w|
  {
  }

  /** The two block loops of the program: exactly the blocks of the input reach process_block, in order. */
  method CutInput(al: Aligner, cfg: Config, input: seq<Byte>)
    requires Extends(cfg) && Tracks(al, cfg, InputBlocks(cfg, input), [])
    modifies al.backlog, al.output, al.db
    ensures Tracks(al, cfg, InputBlocks(cfg, input), InputBlocks(cfg, input))
  {
    hide Concat, Tracks, InputBlocks, TailBlocks, Extends;
    var buffer := new Byte[BLOCKSIZE_MAX * BUFFER_RESET];
    var inputPos: nat, start: nat, offset: nat, resets: nat, full := 0, 0, 0, 0, true;
    ghost var blocks, done := InputBlocks(cfg, input), [];
    assert input[0..] == input;
    ConcatEmpty();
    while full
      invariant Tracks(al, cfg, blocks, done) && inputPos <= |input|
      invariant Cutting(input, blocks, done, Later(cfg, input[inputPos..], full), inputPos)
      invariant Windowed(buffer, input, start, offset, inputPos) && offset - start < BLOCKSIZE_MAX
      invariant resets < BUFFER_RESET && BLOCKSIZE_MIN * resets <= start <= BLOCKSIZE_MAX * resets
      invariant !full ==> inputPos + (offset - start) == |input|
      decreases |input| - inputPos, full
    {
      start, offset, resets, inputPos, full, done :=
        WindowStep(al, cfg, input, buffer, start, offset, resets, inputPos, blocks, done);
    }
    CutTail(al, cfg, input, buffer, start, offset, inputPos, blocks, done);
  }

  /** The second loop: the last window is cut to the end. */
  method CutTail(al: Aligner, cfg: Config, input: seq<Byte>, buffer: array<Byte>, start0: nat, offset: nat,
      inputPos0: nat,
                 ghost blocks: seq<seq<Byte>>, ghost done0: seq<seq<Byte>>)
    requires Extends(cfg) && Tracks(al, cfg, blocks, done0)
    requires Windowed(buffer, input, start0, offset, inputPos0) && offset - start0 < BLOCKSIZE_MAX
    requires inputPos0 + (offset - start0) == |input|
    requires Cutting(input, blocks, done0, Later(cfg, input[inputPos0..], false), inputPos0)
    modifies al.backlog, al.output, al.db
    ensures Tracks(al, cfg, blocks, blocks)
  {
    hide Concat, Tracks, Cut, Later, Extends;
    var start, inputPos := start0, inputPos0;
    ghost var done := done0;
    while start < offset
      invariant start0 <= start <= offset && inputPos + (offset - start) == |input|
      invariant Tracks(al, cfg, blocks, done)
      invariant Cutting(input, blocks, done, Later(cfg, input[inputPos..], false), inputPos)
      invariant Windowed(buffer, input, start, offset, inputPos)
    {
      ghost var rest := input[inputPos..];
      assert buffer[start..offset] == rest;
      TailStep(cfg, input, inputPos);
      ghost var n := Cut(cfg, rest);
      CutNext(cfg, input, blocks, done, rest[..n], Later(cfg, input[inputPos + n..], false), inputPos);
      WindowFront(buffer[..], start, offset, n);
      var length := ProcessNext(al, cfg, buffer, start, offset - start, inputPos, blocks, done);
      done := done + [rest[..n]];
      WindowFront(buffer[..], start, offset, n);
      WindowFront(input, inputPos, |input|, n);
      inputPos, start := inputPos + length, start + length;
    }
    NothingLater(cfg, input[inputPos..]);
    assert done == blocks;
  }

  lemma NothingLater(cfg: Config, rest: seq<Byte>)
    requires rest == []
    ensures Later(cfg, rest, false) == []
  {
  }

  // ---------------------------------------------------------------------------------------
  // The end of the run

  /** The padding behind the last record: the block map starts on a multiple of four. */
  function PadTarget(pos: nat): nat { pos + 2 + (8 - (pos + 2) % 4) }

  function Padding(pos: nat): seq<Record> {
    if pos % 4 == 0 then [] else ZeroRecords(pos, PadTarget(pos))
  }

  lemma PaddingAligns(pos: nat)
    ensures PadTarget(pos) % 4 == 0 && 7 <= PadTarget(pos) - pos <= 10
    ensures ZeroEnd(pos, PadTarget(pos)) == PadTarget(pos)
    ensures pos % 4 != 0 ==> Padding(pos) == [Zero(PadTarget(pos) - pos - 2)]
  {
    var gap := PadTarget(pos) - pos;
    assert gap % 65537 == gap;
    assert ZeroRecords(pos + gap, PadTarget(pos)) == [];
  }

  /** The records of a finished run, from those written when the backlog was empty. */
  function Finished(placed: seq<Record>): seq<Record> { placed + Padding(|Body(placed)|) }

  /** Everything that a run promises about its records. */
  ghost predicate Result(cfg: Config, input: seq<Byte>, view: HashView, placed: seq<Record>) {
    var blocks := InputBlocks(cfg, input);
    && WellFormed(placed) && Holds(placed, BlockHash(cfg), blocks)
    && ZeroBound(placed, |blocks|)
    && |Body(placed)| - DataBytes(placed) <= Limit(view) + 65536
    && placed == Aligned(view, Place(BlockHash(cfg), blocks))
  }

  /** Writes all that still waits; every call of flush_buffer writes one block. */
  method Drain(al: Aligner, cfg: Config, ghost blocks: seq<seq<Byte>>)
    requires Tracks(al, cfg, blocks, blocks)
    modifies al.backlog, al.output
    ensures al.output.Synced() && multiset(ItemsOf(al.output.recs)) == multiset(Place(BlockHash(cfg), blocks))
    ensures al.output.fills <= |blocks| && al.Slack() <= Limit(al.db.view) + 65536
    ensures al.output.recs == Aligned(al.db.view, Place(BlockHash(cfg), blocks))
  {
    hide Body, HashFile, Place, Concat, ItemsOf, BlockMap, Total, ZeroBound, Limit, Aligner.Slack, Flushed, Run;
    ghost var last := Run(al.db.view, Place(BlockHash(cfg), blocks));
    while !al.backlog.Empty()
      invariant al.Valid() && al.OneAhead() && al.Ledger() == multiset(Place(BlockHash(cfg), blocks))
      invariant al.output.fills <= |blocks| && al.Slack() <= Limit(al.db.view) + 65536
      invariant Placer.Drained(al.State()) == Placer.Drained(last)
      decreases al.Waiting()
    {
      var b := al.FlushBuffer();
    }
    assert al.backlog.Contents() == multiset{};
  }

  /** blockalign on this input with this hash file. */
  method Blockalign(cfg: Config, input: seq<Byte>, view: HashView) returns (archive: seq<Byte>, hashFile: seq<Entry>)
    requires Extends(cfg)
    ensures exists placed ::
              && Result(cfg, input, view, placed)
              && archive == Archive(Finished(placed)) && hashFile == HashFile(Finished(placed))
  {
    hide Body, HashFile, Place, Concat, ItemsOf, BlockMap, Total, ZeroBound, Limit, InputBlocks,
        Extends, Aligned, Run;
    var al := new Aligner(view);
    StartTracks(al, cfg, InputBlocks(cfg, input));
    CutInput(al, cfg, input);
    Drain(al, cfg, InputBlocks(cfg, input));
    ghost var placed := al.output.recs;
    FewerFills(placed, al.output.fills, |InputBlocks(cfg, input)|);
    assert Result(cfg, input, view, placed);
    if al.output.outputPos % 4 != 0 {
      PaddingAligns(al.output.outputPos);
      al.output.WriteZeroes(PadTarget(al.output.outputPos));
    }
    assert al.output.recs == Finished(placed);
    archive := MAGIC + LittleEndian(BLOCKSIZE_AVG, 4) + al.output.out + MapBytes(al.output.blockmap)
      + LittleEndian(|al.output.blockmap|, 8);
    hashFile := al.output.hashes;
  }

  lemma FewerFills(recs: seq<Record>, fills: nat, limit: nat)
    requires ZeroBound(recs, fills) && fills <= limit
    ensures ZeroBound(recs, limit)
  {
  }

  lemma StartTracks(al: Aligner, cfg: Config, blocks: seq<seq<Byte>>)
    requires al.Valid() && al.Tidy() && al.backlog.Empty() && al.output.recs == [] && al.output.fills == 0
    requires al.db.nextEntry == 0
    ensures Tracks(al, cfg, blocks, [])
  {
  }
}
