/** A stream of blocks, for any way of reading one block. */
module BlockStream {
  import opened PrefixCode
  import opened BitStrings

  /** From bits, how many were read before them, and what those decoded to: whether the
      block is the last, what has been decoded with it, and the bits after it. */
  type Reader = (seq<bool>, nat, seq<bv8>) -> Option<((bool, seq<bv8>), seq<bool>)>

  /** Blocks up to the last one, after `at` bits that decoded to `hist`. */
  ghost function Inflated(read: Reader, bits: seq<bool>, at: nat, hist: seq<bv8>): (r: Option<seq<bv8>>)
    decreases |bits|
  {
    match read(bits, at, hist)
    case None => None
    case Some(b) =>
      if b.0.0 then Some(b.0.1)
      else if |b.1| >= |bits| then None
      else Inflated(read, b.1, at + |bits| - |b.1|, b.0.1)
  }

  /** The bits are a block that takes `hist` to `hist'`, whatever follows. */
  ghost predicate Takes(read: Reader, block: seq<bool>, at: nat, hist: seq<bv8>, last: bool, hist': seq<bv8>) {
    forall rest: seq<bool> {:trigger block + rest} :: read(block + rest, at, hist) == Some(((last, hist'), rest))
  }

  /** Whatever proper rest of a stream follows, `hist` is decoded first. */
  ghost predicate Carries(read: Reader, stream: seq<bool>, hist: seq<bv8>) {
    forall more: seq<bool> {:trigger Inflated(read, more, |stream|, hist)} ::
      Inflated(read, more, |stream|, hist).Some? ==>
          Inflated(read, stream + more, 0, []) == Inflated(read, more, |stream|, hist)
  }

  /** The stream is complete and decodes to `text`, whatever follows. */
  ghost predicate Finished(read: Reader, stream: seq<bool>, text: seq<bv8>) {
    forall rest: seq<bool> {:trigger stream + rest} :: Inflated(read, stream + rest, 0, []) == Some(text)
  }

  lemma CarriesNothing(read: Reader)
    ensures Carries(read, [], [])
  {
    forall more: seq<bool> | Inflated(read, more, 0, []).Some?
      ensures Inflated(read, [] + more, 0, []) == Inflated(read, more, 0, [])
    {
      assert [] + more == more;
    }
  }

  lemma InflateStep(read: Reader, block: seq<bool>, more: seq<bool>, at: nat, hist: seq<bv8>, hist': seq<bv8>)
    requires block != [] && Takes(read, block, at, hist, false, hist')
    ensures Inflated(read, block + more, at, hist) == Inflated(read, more, at + |block|, hist')
  {
    assert read(block + more, at, hist) == Some(((false, hist'), more));
  }

  lemma CarriesMore(read: Reader, stream: seq<bool>, block: seq<bool>, hist: seq<bv8>, hist': seq<bv8>)
    requires Carries(read, stream, hist) && block != [] && Takes(read, block, |stream|, hist, false, hist')
    ensures Carries(read, stream + block, hist')
  {
    forall more: seq<bool> | Inflated(read, more, |stream + block|, hist').Some?
      ensures Inflated(read, stream + block + more, 0, []) == Inflated(read, more, |stream + block|, hist')
    {
      InflateStep(read, block, more, |stream|, hist, hist');
      Regroup(stream, block, more);
    }
  }

  lemma CarriesLast(read: Reader, stream: seq<bool>, block: seq<bool>, hist: seq<bv8>, text: seq<bv8>)
    requires Carries(read, stream, hist) && Takes(read, block, |stream|, hist, true, text)
    ensures Finished(read, stream + block, text)
  {
    forall rest: seq<bool>
      ensures Inflated(read, stream + block + rest, 0, []) == Some(text)
    {
      Regroup(stream, block, rest);
      assert read(block + rest, |stream|, hist) == Some(((true, text), rest));
      assert Inflated(read, block + rest, |stream|, hist) == Some(text);
    }
  }
}

/** Section 3.2.3 of RFC 1951: whole blocks and whole streams, read bit by bit. */
module Inflate {
  import opened Powers
  import opened PrefixCode
  import opened LsbFirst
  import opened BitOps
  import opened BitStrings
  import opened CodeLengths
  import opened SendTree
  import opened DeflateFormat
  import opened DynamicTrees
  import opened Tokens
  import opened StaticTrees
  import opened BlockStream

  // ----- dynamic trees -----

  /** Everything sent in front of the data of a dynamic block. */
  ghost function TreesBits(l: seq<nat>, d: seq<nat>, bl: seq<nat>, blcodes: nat): (r: seq<bool>)
    requires 257 <= |l| && 1 <= |d| && |bl| == 19 && 4 <= blcodes <= 19
    requires HaveCodes(Syms(l, 0, -1), bl) && HaveCodes(Syms(d, 0, -1), bl)
  {
    CountBits(|l|, |d|, blcodes) + ThreeBits(InOrder(bl, blcodes))
        + (ClBits(Syms(l, 0, -1), bl) + ClBits(Syms(d, 0, -1), bl))
  }

  ghost function CountBits(lcodes: nat, dcodes: nat, blcodes: nat): (r: seq<bool>)
    requires 257 <= lcodes && 1 <= dcodes && 4 <= blcodes
  {
    Lsb(lcodes - 257, 5) + Lsb(dcodes - 1, 5) + Lsb(blcodes - 4, 4)
  }

  ghost function ReadCounts(bits: seq<bool>): (r: Option<((nat, nat, nat), seq<bool>)>)
    ensures r.Some? ==> 257 <= r.value.0.0 && 1 <= r.value.0.1 && 4 <= r.value.0.2
  {
    match ReadLsb(bits, 5)
    case None => None
    case Some(a) =>
      match ReadLsb(a.1, 5)
      case None => None
      case Some(b) =>
        match ReadLsb(b.1, 4)
        case None => None
        case Some(c) => Some(((a.0 + 257, b.0 + 1, c.0 + 4), c.1))
  }

  ghost function ReadVectors(bits: seq<bool>, lcodes: nat, dcodes: nat,
                             blcodes: nat): (r: Option<((seq<nat>, seq<nat>), seq<bool>)>) {
    match ReadOrder(bits, blcodes)
    case None => None
    case Some(o) =>
      match ReadLengths(o.1, Arranged(o.0), lcodes + dcodes, [])
      case None => None
      case Some(n) => if |n.0| < lcodes then None else Some(((n.0[..lcodes], n.0[lcodes..]), n.1))
  }

  /** The alphabets are no larger than they can be, no code is overfull, and the block can end. */
  ghost predicate ProperTrees(l: seq<nat>, d: seq<nat>) {
    257 <= |l| <= 286 && 1 <= |d| <= 30 && Fits(l, 15) && Fits(d, 15) && l[END_BLOCK] > 0
  }

  ghost function ReadTrees(bits: seq<bool>): (r: Option<((seq<nat>, seq<nat>), seq<bool>)>) {
    match ReadCounts(bits)
    case None => None
    case Some(c) =>
      match ReadVectors(c.1, c.0.0, c.0.1, c.0.2)
      case None => None
      case Some(t) => if ProperTrees(t.0.0, t.0.1) then Some(t) else None
  }

  lemma ReadsCounts(lcodes: nat, dcodes: nat, blcodes: nat, rest: seq<bool>)
    requires 257 <= lcodes < 289 && 1 <= dcodes < 33 && 4 <= blcodes < 20
    ensures ReadCounts(CountBits(lcodes, dcodes, blcodes) + rest) == Some(((lcodes, dcodes, blcodes), rest))
  {
    Pow2Values();
    var a, b, c := Lsb(lcodes - 257, 5), Lsb(dcodes - 1, 5), Lsb(blcodes - 4, 4);
    Regroup(a + b, c, rest);
    Regroup(a, b, c + rest);
    ReadsLsb(lcodes - 257, 5, b + (c + rest));
    ReadsLsb(dcodes - 1, 5, c + rest);
    ReadsLsb(blcodes - 4, 4, rest);
  }

  ghost predicate AreLengths(lens: seq<nat>) {
    forall k :: 0 <= k < |lens| ==> lens[k] < 16
  }

  lemma HaveCodesJoin(a: seq<ClSym>, b: seq<ClSym>, bl: seq<nat>)
    requires HaveCodes(a, bl) && HaveCodes(b, bl)
    ensures HaveCodes(a + b, bl)
  {
  }

  lemma {:induction false} ClBitsJoin(a: seq<ClSym>, b: seq<ClSym>, bl: seq<nat>)
    requires HaveCodes(a, bl) && HaveCodes(b, bl)
    ensures HaveCodes(a + b, bl) && ClBits(a + b, bl) == ClBits(a, bl) + ClBits(b, bl)
    decreases |b|
  {
    HaveCodesJoin(a, b, bl);
    if b == [] {
      assert a + b == a;
    } else {
      var b', x := b[..|b| - 1], b[|b| - 1];
      ClBitsJoin(a, b', bl);
      assert a + b == a + b' + [x];
      ClBitsMore(a + b', x, bl);
      Regroup(ClBits(a, bl), ClBits(b', bl), SymBits(x, bl));
    }
  }

  /** The lengths behind those sent are all zero. */
  ghost predicate RestUnused(bl: seq<nat>, blcodes: nat)
    requires |bl| == 19
  {
    forall r :: blcodes <= r < 19 ==> bl[BL_ORDER[r]] == 0
  }

  lemma SmallInOrder(bl: seq<nat>, n: nat)
    requires |bl| == 19 && n <= 19 && forall i :: 0 <= i < 19 ==> bl[i] <= 7
    ensures forall i :: 0 <= i < n ==> InOrder(bl, n)[i] < 8
  {
  }

  lemma CutInTwo(l: seq<nat>, d: seq<nat>)
    ensures (l + d)[..|l|] == l && (l + d)[|l|..] == d
  {
  }

  lemma VectorsFrom(bits: seq<bool>, nums: seq<nat>, bl: seq<nat>, more: seq<bool>, l: seq<nat>, d: seq<nat>,
                    rest: seq<bool>)
    requires ReadOrder(bits, |nums|) == Some((nums, more)) && Arranged(nums) == bl
    requires ReadLengths(more, bl, |l| + |d|, []) == Some((l + d, rest))
    ensures ReadVectors(bits, |l|, |d|, |nums|) == Some(((l, d), rest))
  {
    CutInTwo(l, d);
  }

  lemma ReadsBoth(a: seq<ClSym>, b: seq<ClSym>, l: seq<nat>, d: seq<nat>, bl: seq<nat>, rest: seq<bool>)
    requires Fits(bl, 7) && HaveCodes(a, bl) && HaveCodes(b, bl) && Expanded([], a + b) == Some(l + d)
    ensures ReadLengths(ClBits(a, bl) + ClBits(b, bl) + rest, bl, |l| + |d|, []) == Some((l + d, rest))
  {
    ClBitsJoin(a, b, bl);
    ReadsLengths(a + b, bl, 7, [], l + d, rest);
  }

  lemma ReadsVectors(a: seq<ClSym>, b: seq<ClSym>, l: seq<nat>, d: seq<nat>, bl: seq<nat>, blcodes: nat,
                     rest: seq<bool>)
    requires |bl| == 19 && blcodes <= 19 && Fits(bl, 7) && RestUnused(bl, blcodes) && HaveCodes(a, bl)
    requires HaveCodes(b, bl)
    requires Expanded([], a + b) == Some(l + d)
    ensures ReadVectors(ThreeBits(InOrder(bl, blcodes)) + (ClBits(a, bl) + ClBits(b, bl) + rest), |l|, |d|, blcodes) ==
            Some(((l, d), rest))
  {
    var nums, more := InOrder(bl, blcodes), ClBits(a, bl) + ClBits(b, bl) + rest;
    SmallInOrder(bl, blcodes);
    ReadsOrder(nums, more);
    ArrangedInOrder(bl, blcodes);
    ReadsBoth(a, b, l, d, bl, rest);
    VectorsFrom(ThreeBits(nums) + more, nums, bl, more, l, d, rest);
  }

  lemma ThreeParts(a: seq<bool>, b: seq<bool>, c: seq<bool>, rest: seq<bool>)
    ensures a + b + c + rest == a + (b + (c + rest))
  {
  }

  /** The trees read back as the two vectors of code lengths. */
  lemma ReadsTrees(l: seq<nat>, d: seq<nat>, bl: seq<nat>, blcodes: nat, rest: seq<bool>)
    requires ProperTrees(l, d) && |bl| == 19 && 4 <= blcodes <= 19 && AreLengths(l) && AreLengths(d)
    requires HaveCodes(Syms(l, 0, -1), bl) && HaveCodes(Syms(d, 0, -1), bl) && Fits(bl, 7) && RestUnused(bl, blcodes)
    ensures ReadTrees(TreesBits(l, d, bl, blcodes) + rest) == Some(((l, d), rest))
  {
    var a, b := Syms(l, 0, -1), Syms(d, 0, -1);
    TwoVectorsExpand(l, d);
    ReadsVectors(a, b, l, d, bl, blcodes, rest);
    var more := ThreeBits(InOrder(bl, blcodes)) + (ClBits(a, bl) + ClBits(b, bl) + rest);
    ThreeParts(CountBits(|l|, |d|, blcodes), ThreeBits(InOrder(bl, blcodes)), ClBits(a, bl) + ClBits(b, bl), rest);
    ReadsCounts(|l|, |d|, blcodes, more);
  }

  // ----- stored blocks -----

  function Skip(at: nat): (r: nat)
    ensures r < 8 && (at + r) % 8 == 0
  {
    (8 - at % 8) % 8
  }

  ghost function ByteString(bytes: seq<bv8>): (r: seq<bool>) {
    if bytes == [] then [] else ByteString(bytes[..|bytes| - 1]) + Lsb(bytes[|bytes| - 1] as nat, 8)
  }

  function ToByte(n: nat): bv8
    requires n < 256
  {
    n as bv8
  }

  lemma ToByteOf(x: bv8)
    ensures x as nat < 256 && ToByte(x as nat) == x
  {
  }

  ghost function ReadBytes(bits: seq<bool>, n: nat): (r: Option<(seq<bv8>, seq<bool>)>)
    decreases n
  {
    if n == 0 then Some(([], bits))
    else match ReadBytes(bits, n - 1)
      case None => None
      case Some(r) =>
        match ReadLsb(r.1, 8)
        case None => None
        case Some(x) => if x.0 < 256 then Some((r.0 + [ToByte(x.0)], x.1)) else None
  }

  lemma ReadsByte(bits: seq<bool>, init: seq<bv8>, x: bv8, v: nat, rest: seq<bool>)
    requires v < 256 && ToByte(v) == x && ReadBytes(bits, |init|) == Some((init, Lsb(v, 8) + rest))
    ensures ReadBytes(bits, |init| + 1) == Some((init + [x], rest))
  {
    Pow2Values();
    ReadsLsb(v, 8, rest);
  }

  lemma LastByte(bytes: seq<bv8>)
    requires bytes != []
    ensures bytes[..|bytes| - 1] + [bytes[|bytes| - 1]] == bytes
  {
  }

  lemma {:induction false} ReadsBytes(bytes: seq<bv8>, rest: seq<bool>)
    ensures ReadBytes(ByteString(bytes) + rest, |bytes|) == Some((bytes, rest))
    decreases |bytes|
  {
    if bytes == [] {
      assert ByteString(bytes) + rest == rest;
    } else {
      var init, x := bytes[..|bytes| - 1], bytes[|bytes| - 1];
      var v := x as nat;
      ToByteOf(x);
      ReadsBytes(init, Lsb(v, 8) + rest);
      Regroup(ByteString(init), Lsb(v, 8), rest);
      ReadsByte(ByteString(init) + (Lsb(v, 8) + rest), init, x, v, rest);
      LastByte(bytes);
    }
  }

  /** Zeros up to a byte boundary, the length twice, the bytes. */
  ghost function StoredBits(bytes: seq<bv8>, at: nat): (r: seq<bool>)
    requires |bytes| < 0x1_0000
  {
    Zeros(Skip(at)) + (Lsb(|bytes|, 16) + Lsb(0xffff - |bytes|, 16)) + ByteString(bytes)
  }

  ghost function ReadStored(bits: seq<bool>, at: nat): (r: Option<(seq<bv8>, seq<bool>)>) {
    if |bits| < Skip(at) then None
    else match ReadLsb(bits[Skip(at)..], 16)
      case None => None
      case Some(a) =>
        match ReadLsb(a.1, 16)
        case None => None
        case Some(b) => if a.0 + b.0 == 0xffff then ReadBytes(b.1, a.0) else None
  }

  lemma ReadsStored(bytes: seq<bv8>, at: nat, rest: seq<bool>)
    requires |bytes| < 0x1_0000
    ensures ReadStored(StoredBits(bytes, at) + rest, at) == Some((bytes, rest))
  {
    Pow2Values();
    var n, pad, a, b, data := |bytes|, Zeros(Skip(at)), Lsb(|bytes|, 16), Lsb(0xffff - |bytes|, 16), ByteString(bytes);
    Regroup(pad + (a + b), data, rest);
    Regroup(pad, a + b, data + rest);
    Regroup(a, b, data + rest);
    assert (pad + (a + (b + (data + rest))))[Skip(at)..] == a + (b + (data + rest));
    ReadsLsb(n, 16, b + (data + rest));
    ReadsLsb(0xffff - n, 16, data + rest);
    ReadsBytes(bytes, rest);
  }

  // ----- whole blocks -----

  const STORED := 0
  const STATIC := 1
  const DYNAMIC := 2

  /** The data of a compressed block applied to what came before. */
  ghost function ReadData(bits: seq<bool>, l: seq<nat>, d: seq<nat>,
                          hist: seq<bv8>): (r: Option<(seq<bv8>, seq<bool>)>) {
    match ReadTokens(bits, l, d)
    case None => None
    case Some(t) => if InReach(t.0, hist) then Some((Expand(t.0, hist), t.1)) else None
  }

  /** What follows the three header bits; `at` bits have been read by then. */
  ghost function ReadBody(bits: seq<bool>, kind: nat, at: nat, hist: seq<bv8>): (r: Option<(seq<bv8>, seq<bool>)>) {
    if kind == STORED then
      match ReadStored(bits, at)
      case None => None
      case Some(s) => Some((hist + s.0, s.1))
    else if kind == STATIC then ReadData(bits, FixedL(), FixedD(), hist)
    else if kind == DYNAMIC then
      match ReadTrees(bits)
      case None => None
      case Some(t) => ReadData(t.1, t.0.0, t.0.1, hist)
    else None
  }

  /** One block: whether it is the last, and what has been decoded with it. */
  ghost function ReadBlock(bits: seq<bool>, at: nat, hist: seq<bv8>): (r: Option<((bool, seq<bv8>), seq<bool>)>) {
    match ReadLsb(bits, 3)
    case None => None
    case Some(h) =>
      match ReadBody(h.1, h.0 / 2, at + 3, hist)
      case None => None
      case Some(b) => Some(((h.0 % 2 == 1, b.0), b.1))
  }

  function HeaderValue(kind: nat, eof: bool): (r: nat) { 2 * kind + if eof then 1 else 0 }

  /** The bits are a block of this kind that takes `hist` to `hist'`, whatever follows. */
  ghost predicate BodyReads(bits: seq<bool>, kind: nat, at: nat, hist: seq<bv8>, hist': seq<bv8>) {
    forall rest: seq<bool> {:trigger ReadBody(bits + rest, kind, at, hist)} ::
        ReadBody(bits + rest, kind, at, hist) == Some((hist', rest))
  }

  ghost function BlockBits(body: seq<bool>, kind: nat, eof: bool): (r: seq<bool>) {
    Lsb(HeaderValue(kind, eof), 3) + body
  }

  lemma BlockReads(body: seq<bool>, kind: nat, eof: bool, at: nat, hist: seq<bv8>, hist': seq<bv8>, rest: seq<bool>)
    requires kind < 3 && BodyReads(body, kind, at + 3, hist, hist')
    ensures ReadBlock(BlockBits(body, kind, eof) + rest, at, hist) == Some(((eof, hist'), rest))
  {
    Pow2Values();
    var h := HeaderValue(kind, eof);
    Regroup(Lsb(h, 3), body, rest);
    ReadsLsb(h, 3, body + rest);
    assert h / 2 == kind && (h % 2 == 1) == eof;
    assert ReadBody(body + rest, kind, at + 3, hist) == Some((hist', rest));
  }

  /** A block whose body reads is one the block reader takes. */
  lemma BlockTaken(body: seq<bool>, kind: nat, eof: bool, at: nat, hist: seq<bv8>, hist': seq<bv8>)
    requires kind < 3 && BodyReads(body, kind, at + 3, hist, hist')
    ensures Takes(ReadBlock, BlockBits(body, kind, eof), at, hist, eof, hist')
  {
    forall rest: seq<bool>
      ensures ReadBlock(BlockBits(body, kind, eof) + rest, at, hist) == Some(((eof, hist'), rest))
    {
      BlockReads(body, kind, eof, at, hist, hist', rest);
    }
  }

  lemma StoredReads(bytes: seq<bv8>, at: nat, hist: seq<bv8>)
    requires |bytes| < 0x1_0000
    ensures BodyReads(StoredBits(bytes, at), STORED, at, hist, hist + bytes)
  {
    forall rest: seq<bool>
      ensures ReadBody(StoredBits(bytes, at) + rest, STORED, at, hist) == Some((hist + bytes, rest))
    {
      ReadsStored(bytes, at, rest);
    }
  }

  lemma StaticReads(syms: seq<Symbols>, tokens: seq<Token>, at: nat, hist: seq<bv8>)
    requires AllSpell(syms, tokens) && AllCoverable(syms, FixedL(), FixedD()) && InReach(tokens, hist)
    ensures BodyReads(DataBits(syms, FixedL(), FixedD()), STATIC, at, hist, Expand(tokens, hist))
  {
    FixedFits();
    forall rest: seq<bool>
      ensures ReadBody(DataBits(syms, FixedL(), FixedD()) + rest, STATIC, at, hist) ==
              Some((Expand(tokens, hist), rest))
    {
      ReadsData(syms, tokens, FixedL(), FixedD(), 9, rest);
    }
  }

  ghost predicate SendableTrees(l: seq<nat>, d: seq<nat>, bl: seq<nat>, blcodes: nat) {
    && ProperTrees(l, d) && |bl| == 19 && 4 <= blcodes <= 19 && AreLengths(l) && AreLengths(d)
    && HaveCodes(Syms(l, 0, -1), bl) && HaveCodes(Syms(d, 0, -1), bl) && Fits(bl, 7) && RestUnused(bl, blcodes)
  }

  lemma DynamicReads(syms: seq<Symbols>, tokens: seq<Token>, l: seq<nat>, d: seq<nat>, bl: seq<nat>, blcodes: nat,
                     at: nat, hist: seq<bv8>)
    requires AllSpell(syms, tokens) && AllCoverable(syms, l, d) && SendableTrees(l, d, bl, blcodes)
    requires InReach(tokens, hist)
    ensures BodyReads(TreesBits(l, d, bl, blcodes) + DataBits(syms, l, d), DYNAMIC, at, hist, Expand(tokens, hist))
  {
    var trees, data := TreesBits(l, d, bl, blcodes), DataBits(syms, l, d);
    forall rest: seq<bool>
      ensures ReadBody(trees + data + rest, DYNAMIC, at, hist) == Some((Expand(tokens, hist), rest))
    {
      Regroup(trees, data, rest);
      ReadsTrees(l, d, bl, blcodes, data + rest);
      ReadsData(syms, tokens, l, d, 15, rest);
    }
  }
}
