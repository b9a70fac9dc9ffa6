/** How `flush_block` chooses the form of a block, and how good that choice is. */
module BlockChoice {
  import opened Inflate

  /** Stored if that looks no larger than the better tree and the bytes are at hand, else the better tree.
      The sizes compared are whole bytes, a stored block's without its header bits and alignment. */
  function Choice(opt: nat, stat: nat, storedLen: nat, atHand: bool): (r: nat)
    ensures r < 3
  {
    var optB, statB := (opt + 3 + 7) / 8, (stat + 3 + 7) / 8;
    var best := if statB <= optB then statB else optB;
    if storedLen + 4 <= best && atHand then STORED else if statB == best then STATIC else DYNAMIC
  }

  /** A stored block's length fits its 16 bits, because it is below the static size of at most 8191 tokens. */
  lemma StoredFits(opt: nat, stat: nat, storedLen: nat, atHand: bool)
    requires stat <= 14 * 8192 + 18 * 8191 && Choice(opt, stat, storedLen, atHand) == STORED
    ensures storedLen < 0x1_0000
  {
  }

  // ----- the sizes -----

  /** The bits after the block header, for a body that begins `at` bits into the stream. */
  function BodySize(kind: nat, at: nat, opt: nat, stat: nat, storedLen: nat): (r: nat) {
    if kind == STORED then Skip(at) + 8 * (storedLen + 4) else if kind == STATIC then stat else opt
  }

  /** How many bytes that many bits take. */
  function InBytes(bits: nat): (r: nat) { (bits + 7) / 8 }

  /** The bits of a whole block that begins `at` bits into the stream. */
  function BlockSize(kind: nat, at: nat, opt: nat, stat: nat, storedLen: nat): (r: nat) {
    3 + BodySize(kind, at + 3, opt, stat, storedLen)
  }

  lemma {:induction false} ByteStringSize(bytes: seq<bv8>)
    ensures |ByteString(bytes)| == 8 * |bytes|
    decreases |bytes|
  {
    if bytes != [] {
      ByteStringSize(bytes[..|bytes| - 1]);
    }
  }

  lemma StoredSize(bytes: seq<bv8>, at: nat)
    requires |bytes| < 0x1_0000
    ensures |StoredBits(bytes, at)| == BodySize(STORED, at, 0, 0, |bytes|)
  {
    ByteStringSize(bytes);
  }

  // ----- the choice between the trees -----

  /** In whole bytes the tree chosen is the smaller one, and a stored block would have been larger still. */
  lemma TreeChoice(opt: nat, stat: nat, storedLen: nat, atHand: bool, at: nat)
    requires Choice(opt, stat, storedLen, atHand) != STORED
    ensures var r := BlockSize(Choice(opt, stat, storedLen, atHand), at, opt, stat, storedLen);
            && InBytes(r) <= InBytes(BlockSize(STATIC, at, opt, stat, storedLen))
            && InBytes(r) <= InBytes(BlockSize(DYNAMIC, at, opt, stat, storedLen))
            && (atHand ==> r < BlockSize(STORED, at, opt, stat, storedLen))
  {
    assert (Lesser(opt, stat) + 10) / 8 <= (opt + 10) / 8;
  }

  function Lesser(a: nat, b: nat): (r: nat) { if a <= b then a else b }

  /** It is the smaller one in bits too, unless the dynamic tree saves some bits but no byte. */
  lemma TreeChoiceInBits(opt: nat, stat: nat, storedLen: nat, atHand: bool, at: nat)
    requires Choice(opt, stat, storedLen, atHand) != STORED
    ensures BlockSize(Choice(opt, stat, storedLen, atHand), at, opt, stat, storedLen) == 3 + Lesser(opt, stat)
            <==> !(opt < stat && (opt + 10) / 8 == (stat + 10) / 8)
  {
  }

  // ----- the choice of a stored block -----

  /** A stored block chosen is no larger than with either tree exactly if it would also have been chosen
      with its alignment counted and no bits given for rounding up. */
  lemma StoredChoice(opt: nat, stat: nat, storedLen: nat, at: nat)
    requires Choice(opt, stat, storedLen, true) == STORED
    ensures (&& BlockSize(STORED, at, opt, stat, storedLen) <= BlockSize(STATIC, at, opt, stat, storedLen)
             && BlockSize(STORED, at, opt, stat, storedLen) <= BlockSize(DYNAMIC, at, opt, stat, storedLen))
            <==> Skip(at + 3) <= Lesser(opt, stat) && storedLen + 4 <= (Lesser(opt, stat) - Skip(at + 3)) / 8
  {
  }

  /** At a byte boundary, and in bytes, that is: unless the two sizes the code compares are equal. */
  lemma StoredChoiceAligned(opt: nat, stat: nat, storedLen: nat, at: nat)
    requires Choice(opt, stat, storedLen, true) == STORED && at % 8 == 0
    ensures InBytes(BlockSize(STORED, at, opt, stat, storedLen)) <= InBytes(3 + Lesser(opt, stat))
            <==> storedLen + 4 < (Lesser(opt, stat) + 10) / 8
  {
  }

  /** What a stored block can lose: the header's rounding and the alignment, 17 bits at the most. */
  lemma StoredLoss(opt: nat, stat: nat, storedLen: nat, at: nat)
    requires Choice(opt, stat, storedLen, true) == STORED
    ensures BlockSize(STORED, at, opt, stat, storedLen) <= 3 + Lesser(opt, stat) + 17
  {
  }
}
