/** A whole bzip2 stream: header, blocks, trailer; and the decompressor as a function. */
module BzStream {
  import opened Powers
  import opened PrefixCode
  import opened BitOps
  import opened BitStrings
  import opened BzBlock
  import opened BzBackend
  import opened MsbWriter
  import opened RunLength

  const HEADER := 0x425a_6830
  const BLOCK_HIGH := 0x3141_5926
  const BLOCK_LOW := 0x5359
  const END_HIGH := 0x1772_4538
  const END_LOW := 0x5090

  datatype Block = Block(crc: Word, bytes: seq<int>)

  /** A reader of one block: its CRC and bytes, and the bits left. */
  type Reader = seq<bool> -> Option<((nat, seq<int>), seq<bool>)>

  /** The reader takes these bits for this block, whatever follows. */
  ghost predicate Takes(read: Reader, bits: seq<bool>, b: Block) {
    forall rest: seq<bool> {:trigger read(bits + rest)} :: read(bits + rest) == Some(((b.crc, b.bytes), rest))
  }

  lemma BlockTaken(bits: seq<bool>, b: Block)
    requires ReadsAs(bits, b.crc, b.bytes)
    ensures Takes(ReadBlock, bits, b)
  {
    forall rest: seq<bool>
      ensures ReadBlock(bits + rest) == Some(((b.crc, b.bytes), rest))
    {
    }
  }

  ghost function MagicBits(high: nat, low: nat): (r: seq<bool>) {
    Bits(high, 32) + Bits(low, 16)
  }

  ghost function ReadMagic(bits: seq<bool>): (r: Option<((nat, nat), seq<bool>)>)
    ensures r.Some? ==> |r.value.1| < |bits|
  {
    match ReadNum(bits, 32)
    case None => None
    case Some(a) =>
      match ReadNum(a.1, 16)
      case None => None
      case Some(b) => Some(((a.0, b.0), b.1))
  }

  lemma ReadsMagic(high: nat, low: nat, rest: seq<bool>)
    requires high < 0x1_0000_0000 && low < 0x1_0000
    ensures ReadMagic(MagicBits(high, low) + rest) == Some(((high, low), rest))
  {
    Pow2Values();
    Regroup(Bits(high, 32), Bits(low, 16), rest);
    ReadsNum(high, 32, Bits(low, 16) + rest);
    ReadsNum(low, 16, rest);
  }

  /** Blocks of at most `limit` bytes up to the trailer, and the trailer's CRC. */
  ghost function ReadBlocks(read: Reader, limit: nat, bits: seq<bool>): (r: Option<(seq<Block>, nat)>)
    decreases |bits|
  {
    match ReadMagic(bits)
    case None => None
    case Some(m) =>
      if m.0 == (END_HIGH, END_LOW) then
        match ReadNum(m.1, 32)
        case None => None
        case Some(c) => Some(([], c.0))
      else if m.0 == (BLOCK_HIGH, BLOCK_LOW) then
        match read(m.1)
        case None => None
        case Some(b) =>
          if b.0.0 >= 0x1_0000_0000 || |b.0.1| > limit || |b.1| >= |bits| then None
          else match ReadBlocks(read, limit, b.1)
            case None => None
            case Some(r) => Some(([Block(b.0.0, b.0.1)] + r.0, r.1))
      else None
  }

  /** The bits sent for one block. */
  ghost function PartBits(bits: seq<bool>): (r: seq<bool>) {
    MagicBits(BLOCK_HIGH, BLOCK_LOW) + bits
  }

  ghost function EndBits(combined: nat): (r: seq<bool>) {
    MagicBits(END_HIGH, END_LOW) + Bits(combined, 32)
  }

  lemma ReadsEnd(read: Reader, limit: nat, combined: nat, rest: seq<bool>)
    requires combined < 0x1_0000_0000
    ensures ReadBlocks(read, limit, EndBits(combined) + rest) == Some(([], combined))
  {
    Pow2Values();
    Regroup(MagicBits(END_HIGH, END_LOW), Bits(combined, 32), rest);
    ReadsMagic(END_HIGH, END_LOW, Bits(combined, 32) + rest);
    ReadsNum(combined, 32, rest);
  }

  lemma ReadsPart(read: Reader, limit: nat, b: Block, bits: seq<bool>, more: seq<bool>)
    requires Takes(read, bits, b) && |b.bytes| <= limit
    ensures ReadBlocks(read, limit, PartBits(bits) + more) ==
              match ReadBlocks(read, limit, more) case None => None case Some(r) => Some(([b] + r.0, r.1))
  {
    var magic := MagicBits(BLOCK_HIGH, BLOCK_LOW);
    Regroup(magic, bits, more);
    ReadsMagic(BLOCK_HIGH, BLOCK_LOW, bits + more);
    assert read(bits + more) == Some(((b.crc, b.bytes), more));
    assert |magic| == 48;
  }

  // ----- the whole stream -----

  /** The most bytes a block may have, by the level in the last byte of the header. */
  function Limit(header: nat): nat
    requires header >= HEADER
  {
    100_000 * (header - HEADER)
  }

  ghost function ReadStream(read: Reader, bits: seq<bool>): (r: Option<(seq<Block>, nat)>) {
    ReadLevel(read, ReadNum(bits, 32))
  }

  /** What follows a header, which holds the level in its last byte. */
  ghost function ReadLevel(read: Reader, head: Option<(nat, seq<bool>)>): (r: Option<(seq<Block>, nat)>) {
    match head
    case None => None
    case Some(h) => if HEADER < h.0 <= HEADER + 9 then BlocksOf(read, h.0, h.1) else None
  }

  ghost function BlocksOf(read: Reader, header: nat, bits: seq<bool>): (r: Option<(seq<Block>, nat)>)
    requires header >= HEADER
  {
    ReadBlocks(read, Limit(header), bits)
  }

  /** What the trailer's CRC is made from. */
  function Combine(combined: Word, crc: Word): Word {
    XorWords(RotateLeft(combined), crc)
  }

  ghost function CombinedOf(blocks: seq<Block>): (r: Word) {
    if blocks == [] then 0 else Combine(CombinedOf(blocks[..|blocks| - 1]), blocks[|blocks| - 1].crc)
  }

  /** The CRC covers what the block stands for. */
  ghost predicate Checks(table: seq<Word>, b: Block) {
    |table| == 256 && b.crc == Not(Crc(table, Unpacked(b.bytes)))
  }

  ghost function TextOf(blocks: seq<Block>): (r: seq<int>) {
    if blocks == [] then [] else TextOf(blocks[..|blocks| - 1]) + Unpacked(blocks[|blocks| - 1].bytes)
  }

  /** A decompressor that refuses any stream with a wrong checksum, or with a block larger than its header allows. */
  ghost function Decompressed(table: seq<Word>, bits: seq<bool>): (r: Option<seq<int>>) {
    match ReadStream(ReadBlock, bits)
    case None => None
    case Some(s) =>
      if s.1 == CombinedOf(s.0) && AllCheck(table, s.0) then Some(TextOf(s.0))
      else None
  }

  /** The blocks of a stream. */
  ghost function StreamBlocks(bits: seq<bool>): (r: Option<seq<Block>>) {
    match ReadStream(ReadBlock, bits)
    case None => None
    case Some(s) => Some(s.0)
  }

  ghost function BytesOf(blocks: seq<Block>): (r: seq<seq<int>>)
    ensures |r| == |blocks| && forall i :: 0 <= i < |r| ==> r[i] == blocks[i].bytes
  {
    seq(|blocks|, i requires 0 <= i < |blocks| => blocks[i].bytes)
  }

  ghost function HeadBits(level: nat): (r: seq<bool>) {
    Bits(HEADER + level, 32)
  }

  lemma ReadsHeader(level: nat, more: seq<bool>)
    requires 1 <= level <= 9
    ensures ReadNum(HeadBits(level) + more, 32) == Some((HEADER + level, more))
  {
    Pow2Values();
    ReadsNum(HEADER + level, 32, more);
  }

  /** What a reader makes of these bits when a header of this level came before. */
  ghost function After(read: Reader, level: nat, bits: seq<bool>): (r: Option<(seq<Block>, nat)>) {
    ReadLevel(read, Some((HEADER + level, bits)))
  }

  /** Whatever proper rest of a stream follows, a reader gets these blocks first. */
  ghost predicate Carries(read: Reader, level: nat, stream: seq<bool>, blocks: seq<Block>) {
    forall more: seq<bool> {:trigger After(read, level, more)} :: After(read, level, more).Some? ==>
      ReadStream(read, stream + more) ==
          Some((blocks + After(read, level, more).value.0, After(read, level, more).value.1))
  }

  lemma CarriesHeader(read: Reader, level: nat)
    requires 1 <= level <= 9
    ensures Carries(read, level, HeadBits(level), [])
  {
    forall more: seq<bool> | After(read, level, more).Some?
      ensures ReadStream(read, HeadBits(level) + more) ==
              Some(([] + After(read, level, more).value.0, After(read, level, more).value.1))
    {
      ReadsHeader(level, more);
      assert ReadStream(read, HeadBits(level) + more) == After(read, level, more);
      NoneBefore(After(read, level, more).value.0);
    }
  }

  lemma AfterPart(read: Reader, level: nat, b: Block, bits: seq<bool>, more: seq<bool>)
    requires 1 <= level <= 9 && Takes(read, bits, b) && |b.bytes| <= 100_000 * level && After(read, level, more).Some?
    ensures After(read, level, PartBits(bits) + more) ==
            Some(([b] + After(read, level, more).value.0, After(read, level, more).value.1))
  {
    ReadsPart(read, Limit(HEADER + level), b, bits, more);
    AfterIs(read, level, more);
    AfterIs(read, level, PartBits(bits) + more);
  }

  lemma AfterIs(read: Reader, level: nat, bits: seq<bool>)
    requires 1 <= level <= 9
    ensures After(read, level, bits) == BlocksOf(read, HEADER + level, bits)
  {
  }

  lemma AfterEnd(read: Reader, level: nat, combined: nat, rest: seq<bool>)
    requires 1 <= level <= 9 && combined < 0x1_0000_0000
    ensures After(read, level, EndBits(combined) + rest) == Some(([], combined))
  {
    ReadsEnd(read, Limit(HEADER + level), combined, rest);
  }

  lemma CarriesMore(read: Reader, level: nat, stream: seq<bool>, blocks: seq<Block>, b: Block, bits: seq<bool>)
    requires 1 <= level <= 9 && Carries(read, level, stream, blocks) && Takes(read, bits, b)
    requires |b.bytes| <= 100_000 * level
    ensures Carries(read, level, stream + PartBits(bits), blocks + [b])
  {
    forall more: seq<bool> | After(read, level, more).Some?
      ensures ReadStream(read, stream + PartBits(bits) + more) ==
              Some((blocks + [b] + After(read, level, more).value.0, After(read, level, more).value.1))
    {
      AfterPart(read, level, b, bits, more);
      Regroup(stream, PartBits(bits), more);
      Regroup(blocks, [b], After(read, level, more).value.0);
    }
  }

  lemma NoneBefore(blocks: seq<Block>)
    ensures [] + blocks == blocks
  {
  }

  /** With the trailer after them, the blocks are all there is. */
  lemma CarriesEnd(read: Reader, level: nat, stream: seq<bool>, blocks: seq<Block>, combined: nat, rest: seq<bool>)
    requires 1 <= level <= 9 && Carries(read, level, stream, blocks) && combined < 0x1_0000_0000
    ensures ReadStream(read, stream + EndBits(combined) + rest) == Some((blocks, combined))
  {
    AfterEnd(read, level, combined, rest);
    Regroup(stream, EndBits(combined), rest);
    assert blocks + [] == blocks;
  }

  ghost predicate AllCheck(table: seq<Word>, blocks: seq<Block>) {
    forall i :: 0 <= i < |blocks| ==> Checks(table, blocks[i])
  }

  /** The bytes of a stream of these blocks, which decompresses to this text. */
  ghost predicate DecompressTo(table: seq<Word>, out: seq<nat>, blocks: seq<Block>, text: seq<int>) {
    forall bits: seq<bool> {:trigger Decompressed(table, bits)} :: bits == ByteBits(out) ==>
        Decompressed(table, bits) == Some(text) && StreamBlocks(bits) == Some(blocks) && text == TextOf(blocks)
  }

  /** A complete stream of checked blocks decompresses to their text, whatever bits fill it up. */
  lemma StreamDecompresses(level: nat, table: seq<Word>, stream: seq<bool>, blocks: seq<Block>, rest: seq<bool>)
    requires 1 <= level <= 9 && Carries(ReadBlock, level, stream, blocks) && AllCheck(table, blocks)
    ensures Decompressed(table, stream + EndBits(CombinedOf(blocks)) + rest) == Some(TextOf(blocks))
    ensures StreamBlocks(stream + EndBits(CombinedOf(blocks)) + rest) == Some(blocks)
  {
    CarriesEnd(ReadBlock, level, stream, blocks, CombinedOf(blocks), rest);
  }
}
