/** next_blockhash and the blocks into which blockalign cuts its input. */
module Chunker {
  import opened Bytes
  import opened BlockFormat

  /**
   * The checksum (crc32c) and the test of the running checksum against the growing threshold.
   * The test uses floating point; every result here holds for any test whatsoever.
   */
  datatype Config = Config(crc: (Hash, seq<Byte>) -> Hash, accept: (Hash, nat) -> bool)

  /** Checksums can be continued. */
  ghost predicate ExtendsAt(cfg: Config, seed: Hash, s: seq<Byte>, t: seq<Byte>) {
    cfg.crc(cfg.crc(seed, s), t) == cfg.crc(seed, s + t)
  }

  ghost predicate Extends(cfg: Config) { forall seed, s, t :: ExtendsAt(cfg, seed, s, t) }

  lemma Extend(cfg: Config, seed: Hash, s: seq<Byte>, t: seq<Byte>, u: seq<Byte>)
    requires Extends(cfg) && u == s + t
    ensures cfg.crc(cfg.crc(seed, s), t) == cfg.crc(seed, u)
  {
    assert ExtendsAt(cfg, seed, s, t);
  }

  function BlockHash(cfg: Config): seq<Byte> -> Hash { (s: seq<Byte>) => cfg.crc(0, s) }

  /** The window may be cut in front of byte i. */
  predicate Accepts(cfg: Config, w: seq<Byte>, i: nat)
    requires BLOCKSIZE_MIN <= i < |w|
  {
    cfg.accept(cfg.crc(37, w[..i + 1]), i - BLOCKSIZE_MIN)
  }

  function FirstAccept(cfg: Config, w: seq<Byte>, i: nat): (n: nat)
    requires BLOCKSIZE_MIN <= i <= |w|
    ensures i <= n <= |w|
    ensures n < |w| ==> Accepts(cfg, w, n)
    ensures forall j | i <= j < n :: !Accepts(cfg, w, j)
    decreases |w| - i
  {
    if i == |w| then |w| else if Accepts(cfg, w, i) then i else FirstAccept(cfg, w, i + 1)
  }

  /** The length of the block at the start of the window w. */
  function Cut(cfg: Config, w: seq<Byte>): (n: nat)
    ensures n <= |w|
    ensures |w| < BLOCKSIZE_MIN ==> n == |w|
    ensures |w| >= BLOCKSIZE_MIN ==> n >= BLOCKSIZE_MIN
  {
    if |w| < BLOCKSIZE_MIN then |w| else FirstAccept(cfg, w, BLOCKSIZE_MIN)
  }

  /** next_blockhash on buffer[offset..offset + len]. */
  method NextBlockhash(cfg: Config, buffer: array<Byte>, offset: nat, len: nat) returns (chash: Hash, length: nat)
    requires Extends(cfg) && offset + len <= buffer.Length
    ensures length == Cut(cfg, buffer[offset..offset + len])
    ensures chash == cfg.crc(0, buffer[offset..offset + length])
  {
    if len < BLOCKSIZE_MIN {
      return cfg.crc(0, buffer[offset..offset + len]), len;
    }
    ghost var w := buffer[offset..offset + len];
    var head := buffer[offset..offset + BLOCKSIZE_MIN];
    assert head == w[..BLOCKSIZE_MIN];
    chash := cfg.crc(0, head);
    var rnd := cfg.crc(37, head);
    length := BLOCKSIZE_MIN;
    while length < len
      invariant BLOCKSIZE_MIN <= length <= len
      invariant rnd == cfg.crc(37, w[..length])
      invariant Cut(cfg, w) == FirstAccept(cfg, w, length)
    {
      Extend(cfg, 37, w[..length], [buffer[offset + length]], w[..length + 1]);
      rnd := cfg.crc(rnd, [buffer[offset + length]]);
      if cfg.accept(rnd, length - BLOCKSIZE_MIN) {
        break;
      }
      length := length + 1;
    }
    var tail := buffer[offset + BLOCKSIZE_MIN..offset + length];
    Extend(cfg, 0, head, tail, buffer[offset..offset + length]);
    chash := cfg.crc(chash, tail);
  }

  // ---------------------------------------------------------------------------------------
  // A chunker that sees min(1024, remaining) bytes ahead

  function Window(rest: seq<Byte>): seq<Byte> {
    if |rest| < BLOCKSIZE_MAX then rest else rest[..BLOCKSIZE_MAX]
  }

  /** The blocks of the last, short window; there is none when nothing is left. */
  function TailBlocks(cfg: Config, rest: seq<Byte>): seq<seq<Byte>>
    decreases |rest|
  {
    if rest == [] then []
    else
      var n := Cut(cfg, rest);
      [rest[..n]] + TailBlocks(cfg, rest[n..])
  }

  /** The blocks of rest; input that ends on a full window is followed by one empty block. */
  function InputBlocks(cfg: Config, rest: seq<Byte>): seq<seq<Byte>>
    decreases |rest|
  {
    var w := Window(rest);
    var n := Cut(cfg, w);
    [w[..n]] + (if |w| < BLOCKSIZE_MAX then TailBlocks(cfg, rest[n..]) else InputBlocks(cfg, rest[n..]))
  }

  lemma {:induction false} ConcatFirst(b: seq<Byte>, blocks: seq<seq<Byte>>)
    ensures Concat([b] + blocks) == b + Concat(blocks)
  {
    var s := [b] + blocks;
    if blocks != [] {
      var n := |blocks| - 1;
      assert s[..|s| - 1] == [b] + blocks[..n];
      ConcatFirst(b, blocks[..n]);
      assert b + (Concat(blocks[..n]) + blocks[n]) == (b + Concat(blocks[..n])) + blocks[n];
    } else {
      assert s[..0] == [];
      assert Concat(s) == Concat([]) + b;
    }
  }

  lemma {:induction false} TailBlocksSound(cfg: Config, rest: seq<Byte>)
    requires |rest| <= BLOCKSIZE_MAX
    ensures Concat(TailBlocks(cfg, rest)) == rest && Blocks(TailBlocks(cfg, rest))
    ensures forall b | b in TailBlocks(cfg, rest) :: b != []
    decreases |rest|
  {
    if rest != [] {
      var n := Cut(cfg, rest);
      TailBlocksSound(cfg, rest[n..]);
      ConcatFirst(rest[..n], TailBlocks(cfg, rest[n..]));
    }
  }

  lemma BlocksFirst(b: seq<Byte>, blocks: seq<seq<Byte>>)
    requires |b| <= BLOCKSIZE_MAX && Blocks(blocks) && (blocks != [] ==> b != [])
    ensures Blocks([b] + blocks)
  {
  }

  /** The blocks concatenate to the input, fit a record, and are non-empty except possibly the last. */
  lemma {:induction false} InputBlocksSound(cfg: Config, rest: seq<Byte>)
    ensures Concat(InputBlocks(cfg, rest)) == rest && Blocks(InputBlocks(cfg, rest))
    decreases |rest|
  {
    var w := Window(rest);
    var n := Cut(cfg, w);
    var first, later := rest[..n], rest[n..];
    assert w[..n] == first && first + later == rest;
    if |w| < BLOCKSIZE_MAX {
      TailBlocksSound(cfg, later);
      ConcatFirst(first, TailBlocks(cfg, later));
      BlocksFirst(first, TailBlocks(cfg, later));
    } else {
      InputBlocksSound(cfg, later);
      ConcatFirst(first, InputBlocks(cfg, later));
      BlocksFirst(first, InputBlocks(cfg, later));
    }
  }
}
