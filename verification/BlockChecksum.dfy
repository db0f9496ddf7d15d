/** blockalign with the checksum it really uses. */
module BlockChecksum {
  import opened Bytes
  import opened BlockFormat
  import opened Chunker
  import Crc32c

  function Bits(s: seq<Byte>): (t: seq<bv8>)
    ensures |t| == |s|
  {
    seq(|s|, i requires 0 <= i < |s| => s[i] as bv8)
  }

  function Crc(seed: Hash, s: seq<Byte>): Hash { Crc32c.Checksum(seed, Bits(s)) }

  /** CRC-32C with any cut test is a configuration to which all theorems about blockalign apply. */
  lemma Crc32cExtends(accept: (Hash, nat) -> bool)
    ensures Extends(Config(Crc, accept))
  {
    hide Crc32c.Checksum;
    var cfg := Config(Crc, accept);
    forall seed, s: seq<Byte>, t: seq<Byte> ensures ExtendsAt(cfg, seed, s, t) {
      assert Bits(s + t) == Bits(s) + Bits(t);
      Crc32c.ChecksumConcat(seed, Bits(s), Bits(t));
    }
  }
}
