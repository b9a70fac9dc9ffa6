/** The checksums of a bzip2 stream, bit by bit. */
module StreamCrc {
  import opened Powers
  import opened BitOps
  import opened BitLaws
  import opened RunLength
  import opened CrcTable
  import opened BzStream

  /** Every bit the other way. */
  lemma {:induction false} FlippedBit(a: nat, n: nat, i: nat)
    requires a < Pow2(n) && i < n
    ensures Pow2(n) - 1 - a >= 0 && Bit(Pow2(n) - 1 - a, i) == 1 - Bit(a, i)
    decreases i
  {
    var b := Pow2(n) - 1 - a;
    assert b == 2 * (Pow2(n - 1) - 1 - a / 2) + (1 - a % 2);
    TwicePlus(Pow2(n - 1) - 1 - a / 2, 1 - a % 2);
    if i > 0 {
      FlippedBit(a / 2, n - 1, i - 1);
    }
  }

  /** A block's CRC is the complement of the remainder of what the block stands for. */
  lemma BlockCheck(table: seq<Word>, b: Block, i: nat)
    requires IsTable(table) && Checks(table, b) && i < 32
    ensures b.crc / Pow2(i) % 2 == 1 - Remainder(Unpacked(b.bytes)) / Pow2(i) % 2
  {
    CrcIsRemainder(table, Unpacked(b.bytes));
    NotBit(Remainder(Unpacked(b.bytes)), i);
  }

  lemma NotBit(a: Word, i: nat)
    requires i < 32
    ensures Not(a) / Pow2(i) % 2 == 1 - a / Pow2(i) % 2
  {
    Pow2Values();
    FlippedBit(a, 32, i);
    BitIs(a, i);
    BitIs(Not(a), i);
  }

  lemma Around(i: nat)
    requires i < 32
    ensures ((i + 1) % 32 + 31) % 32 == i
  {
  }

  /** Into the combined CRC a block's goes by exclusive or, after every bit has moved up one place and the highest to
      the bottom. */
  lemma CombineBit(c: Word, b: Word, i: nat)
    requires i < 32
    ensures Combine(c, b) / Pow2((i + 1) % 32) % 2 == (c / Pow2(i) % 2 + b / Pow2((i + 1) % 32) % 2) % 2
  {
    var j := (i + 1) % 32;
    Around(i);
    RotateBit(c, j);
    XorBit(RotateLeft(c), b, j);
    BitIs(Combine(c, b), j);
    BitIs(c, i);
    BitIs(b, j);
  }

  /** Bit `j` of the first `m` CRCs added up, each turned left by the number of blocks after it. */
  ghost function TurnedSum(blocks: seq<Block>, j: nat, m: nat): (r: nat)
    requires m <= |blocks|
  {
    if m == 0 then 0
    else TurnedSum(blocks, j, m - 1) + Bit(blocks[m - 1].crc, (j + 31 * (|blocks| - m)) % 32)
  }

  lemma {:induction false} TurnedMore(blocks: seq<Block>, b: Block, j: nat, m: nat)
    requires m <= |blocks|
    ensures TurnedSum(blocks + [b], j, m) == TurnedSum(blocks, (j + 31) % 32, m)
    decreases m
  {
    if m > 0 {
      TurnedMore(blocks, b, j, m - 1);
      TurnOnce(j, |blocks| - m);
    }
  }

  lemma TurnOnce(j: nat, n: nat)
    ensures (j + 31 * (n + 1)) % 32 == ((j + 31) % 32 + 31 * n) % 32
  {
  }

  lemma LastTurned(blocks: seq<Block>, j: nat)
    requires blocks != [] && j < 32
    ensures TurnedSum(blocks, j, |blocks|) == TurnedSum(blocks, j, |blocks| - 1) + Bit(blocks[|blocks| - 1].crc, j)
  {
  }

  lemma CombinedStep(c: Word, b: Word, j: nat)
    requires j < 32
    ensures Bit(Combine(c, b), j) == (Bit(c, (j + 31) % 32) + Bit(b, j)) % 2
  {
    RotateBit(c, j);
    XorBit(RotateLeft(c), b, j);
  }

  /** The trailer's CRC in closed form: the exclusive or of all, each turned by the number of blocks after it. */
  lemma {:induction false} CombinedIs(blocks: seq<Block>, j: nat)
    requires j < 32
    ensures Bit(CombinedOf(blocks), j) == TurnedSum(blocks, j, |blocks|) % 2
    decreases |blocks|
  {
    if blocks == [] {
      NoBit(0, 0, j);
    } else {
      var init, b := blocks[..|blocks| - 1], blocks[|blocks| - 1];
      assert blocks == init + [b];
      CombinedIs(init, (j + 31) % 32);
      TurnedMore(init, b, j, |init|);
      LastTurned(blocks, j);
      CombinedStep(CombinedOf(init), b.crc, j);
      ParitySum(TurnedSum(blocks, j, |init|), Bit(b.crc, j));
    }
  }

  lemma ParitySum(a: nat, b: nat)
    ensures (a % 2 + b) % 2 == (a + b) % 2
  {
  }
}
