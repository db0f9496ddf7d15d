/** The file format of blockalign: a header, length-prefixed records, the block map and its size. */
module BlockFormat {
  import opened Bytes

  type Hash = bv32

  const BLOCKSIZE_MIN: nat := 64
  const BLOCKSIZE_MAX: nat := 1024
  const BLOCKSIZE_AVG: nat := 546
  const USHRT_MAX: nat := 65535

  /** The bytes of "BLOCKALIGN#1". */
  const MAGIC: seq<Byte> := [66, 76, 79, 67, 75, 65, 76, 73, 71, 78, 35, 49]
  const HEADER_SIZE: nat := 16

  /** A block of the input, with its checksum and its position in the input. */
  datatype Item = Item(chash: Hash, data: seq<Byte>, pos: nat)

  /** What one length-prefixed record of the output holds. */
  datatype Record = Zero(len: nat) | Data(item: Item)

  predicate WellFormedRecord(r: Record) {
    match r
    case Zero(len) => len <= USHRT_MAX
    case Data(item) => |item.data| <= BLOCKSIZE_MAX
  }

  predicate WellFormed(recs: seq<Record>) { forall i | 0 <= i < |recs| :: WellFormedRecord(recs[i]) }

  function Payload(r: Record): seq<Byte> {
    match r
    case Zero(len) => seq(len, _ => 0)
    case Data(item) => item.data
  }

  function RecordBytes(r: Record): seq<Byte> {
    LittleEndian(|Payload(r)|, 2) + Payload(r)
  }

  function Body(recs: seq<Record>): seq<Byte> {
    if recs == [] then [] else Body(recs[..|recs| - 1]) + RecordBytes(recs[|recs| - 1])
  }

  /** The block map entry of the record with number n. */
  function MapEntry(r: Record, n: nat): int {
    match r
    case Zero(_) => INT_MAX
    case Data(item) => CastInt32(item.pos - n * BLOCKSIZE_AVG)
  }

  function BlockMap(recs: seq<Record>): (m: seq<int>)
    ensures |m| == |recs|
  {
    if recs == [] then []
    else BlockMap(recs[..|recs| - 1]) + [MapEntry(recs[|recs| - 1], |recs| - 1)]
  }

  function MapBytes(m: seq<int>): (s: seq<Byte>)
    ensures |s| == 4 * |m|
  {
    if m == [] then [] else MapBytes(m[..|m| - 1]) + Int32Bytes(m[|m| - 1])
  }

  type Int32 = x: int | -0x8000_0000 <= x < 0x8000_0000

  /** A checksum and an output position, as the hash file stores them. */
  datatype Entry = Entry(chash: Hash, off: Int32)

  /** The hash file: one entry per data record, none for zero records. */
  function HashFile(recs: seq<Record>): seq<Entry> {
    if recs == [] then []
    else
      var n := |recs| - 1;
      HashFile(recs[..n]) +
      (match recs[n]
       case Zero(_) => []
       case Data(item) => [Entry(item.chash, CastInt32(|Body(recs[..n])| - n * BLOCKSIZE_AVG))])
  }

  function ItemsOf(recs: seq<Record>): seq<Item> {
    if recs == [] then []
    else ItemsOf(recs[..|recs| - 1]) + (match recs[|recs| - 1] case Zero(_) => [] case Data(item) => [item])
  }

  /** How many zero records there are, and how many bytes the data records take. */
  function ZeroCount(recs: seq<Record>): nat {
    if recs == [] then 0 else ZeroCount(recs[..|recs| - 1]) + (if recs[|recs| - 1].Zero? then 1 else 0)
  }

  function DataBytes(recs: seq<Record>): nat {
    if recs == [] then 0
    else DataBytes(recs[..|recs| - 1]) + (match recs[|recs| - 1] case Zero(_) => 0 case Data(item) => 2 + |item.data|)
  }

  function Archive(recs: seq<Record>): seq<Byte> {
    MAGIC + LittleEndian(BLOCKSIZE_AVG, 4) + Body(recs) + MapBytes(BlockMap(recs)) + LittleEndian(|recs|, 8)
  }

  lemma EmptyBody()
    ensures Body([]) == []
  {
  }

  lemma {:induction false} AppendRecord(recs: seq<Record>, r: Record)
    ensures Body(recs + [r]) == Body(recs) + RecordBytes(r)
    ensures BlockMap(recs + [r]) == BlockMap(recs) + [MapEntry(r, |recs|)]
    ensures ItemsOf(recs + [r]) == ItemsOf(recs) + (match r case Zero(_) => [] case Data(item) => [item])
    ensures HashFile(recs + [r]) == HashFile(recs) +
              (match r case Zero(_) => []
               case Data(item) => [Entry(item.chash, CastInt32(|Body(recs)| - |recs| * BLOCKSIZE_AVG))])
  {
    assert (recs + [r])[..|recs|] == recs;
  }

  lemma {:induction false} AppendCounts(recs: seq<Record>, r: Record)
    ensures ZeroCount(recs + [r]) == ZeroCount(recs) + (if r.Zero? then 1 else 0)
    ensures DataBytes(recs + [r]) == DataBytes(recs) + (match r case Zero(_) => 0 case Data(item) => 2 + |item.data|)
    ensures |Body(recs + [r])| == |Body(recs)| + 2 + |Payload(r)|
  {
    assert (recs + [r])[..|recs|] == recs;
  }

  lemma {:induction false} BodyConcat(a: seq<Record>, b: seq<Record>)
    ensures |Body(a + b)| == |Body(a)| + |Body(b)|
  {
    hide Body;
    if b == [] {
      assert a + b == a;
      EmptyBody();
    } else {
      var n := |b| - 1;
      BodyConcat(a, b[..n]);
      assert a + b == (a + b[..n]) + [b[n]] && b == b[..n] + [b[n]];
      AppendCounts(a + b[..n], b[n]);
      AppendCounts(b[..n], b[n]);
    }
  }

  lemma {:induction false} AppendData(recs: seq<Record>, item: Item)
    ensures ItemsOf(recs + [Data(item)]) == ItemsOf(recs) + [item]
    ensures DataBytes(recs + [Data(item)]) == DataBytes(recs) + 2 + |item.data|
  {
    AppendRecord(recs, Data(item));
    AppendCounts(recs, Data(item));
  }

  // ---------------------------------------------------------------------------------------
  // The input as a sequence of blocks

  /** The blocks as items: each with its checksum and its position in the input. */
  function Place(hash: seq<Byte> -> Hash, blocks: seq<seq<Byte>>): (s: seq<Item>)
    ensures |s| == |blocks|
  {
    if blocks == [] then []
    else
      var n := |blocks| - 1;
      Place(hash, blocks[..n]) + [Item(hash(blocks[n]), blocks[n], |Concat(blocks[..n])|)]
  }

  lemma {:induction false} AppendBlock(hash: seq<Byte> -> Hash, blocks: seq<seq<Byte>>, b: seq<Byte>)
    ensures Concat(blocks + [b]) == Concat(blocks) + b
    ensures Place(hash, blocks + [b]) == Place(hash, blocks) + [Item(hash(b), b, |Concat(blocks)|)]
  {
    assert (blocks + [b])[..|blocks|] == blocks;
  }

  /** Blocks fit a record, and only the last one may be empty. */
  predicate Blocks(blocks: seq<seq<Byte>>) {
    && (forall i | 0 <= i < |blocks| :: |blocks[i]| <= BLOCKSIZE_MAX)
    && (forall i | 0 <= i < |blocks| - 1 :: blocks[i] != [])
  }

  /** The data records hold every block exactly once, in any order. */
  ghost predicate Holds(recs: seq<Record>, hash: seq<Byte> -> Hash, blocks: seq<seq<Byte>>) {
    multiset(ItemsOf(recs)) == multiset(Place(hash, blocks))
  }

  /** Every stored position survives the cast to int and is not taken for the zero-record mark. */
  ghost predicate PositionsFit(recs: seq<Record>) {
    && |recs| < Pow256(7)
    && forall i | 0 <= i < |recs| && recs[i].Data? :: PositionFits(recs[i].item.pos, i)
  }

  predicate PositionFits(pos: nat, n: nat) {
    FitsInt32(pos - n * BLOCKSIZE_AVG) && pos - n * BLOCKSIZE_AVG != INT_MAX
  }
}
