/** The coding half of deflate: tokens are tallied, and each block is flushed in the form its exact sizes choose. */
module BlockCoder {
  import opened Powers
  import opened PrefixCode
  import opened LsbFirst
  import opened BitOps
  import opened BitStrings
  import opened Tokens
  import opened CodeLengths
  import opened SendTree
  import opened DeflateFormat
  import opened DynamicTrees
  import opened StaticTrees
  import opened Inflate
  import opened GenBitlen
  import opened TokenSymbols
  import opened Tally
  import opened FlushBlock
  import opened CtInit
  import opened BlockChoice
  import GenCodes
  import LW = LsbWriter
  import BT = BuildTree
  import CQ = CodeQuality
  import BL = BlTree
  import CB = CompressBlock

  /** Complete codes for exactly the symbols they are needed for, up to the last of those. */
  ghost predicate RightTrees(T: Tables, tokens: seq<Token>, l: seq<nat>, d: seq<nat>) {
    && Complete(l, 15) && Complete(d, 15) && |l| > 0 && |d| > 0 && l[|l| - 1] > 0 && d[|d| - 1] > 0
    && CodesFor(T, tokens, l, d)
  }

  /** The trees as they are sent and used, without unused symbols at the end. */
  ghost predicate CutTrees(T: Tables, tokens: seq<Token>, l: seq<nat>, lc: seq<nat>, d: seq<nat>, dc: seq<nat>) {
    && T.Right() && AllOk(tokens) && 257 <= |l| <= 286 && 1 <= |d| <= 30 && TreeCodes(l, lc) && TreeCodes(d, dc)
    && RightTrees(T, tokens, l, d) && l[END_BLOCK] > 0 && AllCoverable(SymsOf(T, tokens), l, d)
  }

  lemma CodesCut(lens: seq<nat>, fc: seq<nat>, m: nat)
    requires TreeCodes(lens, fc) && ZeroFrom(lens, m)
    ensures TreeCodes(lens[..m], fc)
  {
    forall n | 0 <= n < m
      ensures GenCodes.Coded(lens[..m], fc[n], n)
    {
      assert GenCodes.Coded(lens, fc[n], n);
      if lens[n] > 0 {
        EncodeCut(lens, m, n);
      }
    }
  }

  lemma TreesCut(T: Tables, tokens: seq<Token>, l: seq<nat>, lc: seq<nat>, lMax: int, d: seq<nat>, dc: seq<nat>,
                 dMax: int)
    requires TwoTrees(T, tokens, l, lc, lMax, d, dc, dMax)
    ensures CutTrees(T, tokens, l[..lMax + 1], lc, d[..dMax + 1], dc)
    ensures DataBits(SymsOf(T, tokens), l[..lMax + 1], d[..dMax + 1]) == DataBits(SymsOf(T, tokens), l, d)
  {
    CodesCut(l, lc, lMax + 1);
    CodesCut(d, dc, dMax + 1);
    KraftCut(l, 15, lMax + 1, 286);
    KraftCut(d, 15, dMax + 1, 30);
    CodesForCut(T, tokens, l, d, lMax + 1, dMax + 1);
    DataCut(SymsOf(T, tokens), l, d, lMax + 1, dMax + 1);
  }

  /** The header, and the exact sizes: `opt` of a dynamic block, `stat` of a static one, without the three bits in
      front. */
  ghost predicate SizedTrees(T: Tables, tokens: seq<Token>, l: seq<nat>, lc: seq<nat>, d: seq<nat>, dc: seq<nat>,
                             bl: seq<nat>, blc: seq<nat>, maxBlindex: nat, opt: nat, stat: nat)
  {
    && CutTrees(T, tokens, l, lc, d, dc) && AllCoverable(SymsOf(T, tokens), FixedL(), FixedD())
    && Header(l, d, bl, blc, maxBlindex)
    && opt == |TreesBits(l, d, bl, maxBlindex + 1)| + |DataBits(SymsOf(T, tokens), l, d)|
    && stat == |DataBits(SymsOf(T, tokens), FixedL(), FixedD())| <= 14 * 8192 + 18 * 8191
  }

  predicate Index(m: nat, n: nat) { m == n }

  /** The same, taken apart only where `Index` is mentioned. */
  ghost predicate Sized(T: Tables, tokens: seq<Token>, l: seq<nat>, lc: seq<nat>, d: seq<nat>, dc: seq<nat>,
                        bl: seq<nat>, blc: seq<nat>, maxBlindex: nat, opt: nat, stat: nat)
  {
    forall m: nat {:trigger Index(m, maxBlindex)} :: Index(m, maxBlindex) ==>
      SizedTrees(T, tokens, l, lc, d, dc, bl, blc, maxBlindex, opt, stat)
  }

  ghost predicate Header(l: seq<nat>, d: seq<nat>, bl: seq<nat>, blc: seq<nat>, maxBlindex: nat) {
    && 257 <= |l| && 1 <= |d| && |bl| == 19 && 3 <= maxBlindex < 19
    && HaveCodes(Syms(l, 0, -1), bl) && HaveCodes(Syms(d, 0, -1), bl)
    && TreeCodes(bl, blc) && Fits(bl, 7) && RestUnused(bl, maxBlindex + 1)
  }

  lemma Add32Exact(a: nat, b: nat)
    requires a + b < TWO32
    ensures Add32(a, b) == a + b
  {
  }

  lemma FitLengths(lens: seq<nat>)
    requires Complete(lens, 15) && |lens| > 0
    ensures Lengths(lens)
  {
  }

  /** The header's size was added to the data's without wrapping round. */
  lemma OptExact(bd: Desc, l: seq<nat>, d: seq<nat>, bl: seq<nat>, blc: seq<nat>, maxBlindex: nat, data: nat, opt0: nat,
                 opt: nat)
    requires BL.IsBlDesc(bd) && 257 <= |l| <= 286 && 1 <= |d| <= 30 && Lengths(l) && Lengths(d)
    requires BL.HeaderReady(l, d, bl, blc, maxBlindex, opt0, opt) && opt0 == Add32(0, data) && data < 400_000
    ensures Header(l, d, bl, blc, maxBlindex) && opt == |TreesBits(l, d, bl, maxBlindex + 1)| + data
  {
    TreesSmall(bd, l, d, bl, maxBlindex + 1);
    Add32Exact(0, data);
    Add32Exact(data, |TreesBits(l, d, bl, maxBlindex + 1)|);
  }

  lemma StatExact(ld: Desc, dd: Desc, T: Tables, tokens: seq<Token>, stat: nat)
    requires IsLDesc(ld) && IsDDesc(dd) && T.Right() && AllOk(tokens) && |tokens| < LIT_BUFSIZE
    requires AllCoverable(SymsOf(T, tokens), FixedL(), FixedD())
    requires stat == Add32(0, |DataBits(SymsOf(T, tokens), FixedL(), FixedD())|)
    ensures stat == |DataBits(SymsOf(T, tokens), FixedL(), FixedD())| <= 14 * 8192 + 18 * 8191
  {
    StaticSmall(ld, dd, T, tokens);
    Add32Exact(0, |DataBits(SymsOf(T, tokens), FixedL(), FixedD())|);
  }

  /** Nothing wraps round, so the sizes are exact. */
  lemma SizesExact(ld: Desc, dd: Desc, bd: Desc, T: Tables, tokens: seq<Token>, l: seq<nat>, lc: seq<nat>, d: seq<nat>,
                   dc: seq<nat>,
                   bl: seq<nat>, blc: seq<nat>, maxBlindex: nat, opt0: nat, opt: nat, stat: nat)
    requires IsLDesc(ld) && IsDDesc(dd) && BL.IsBlDesc(bd) && |tokens| < LIT_BUFSIZE
    requires CutTrees(T, tokens, l, lc, d, dc)
    requires AllCoverable(SymsOf(T, tokens), FixedL(), FixedD()) && |DataBits(SymsOf(T, tokens), l, d)| < 400_000
    requires opt0 == Add32(0, |DataBits(SymsOf(T, tokens), l, d)|)
    requires stat == Add32(0, |DataBits(SymsOf(T, tokens), FixedL(), FixedD())|)
    requires BL.HeaderReady(l, d, bl, blc, maxBlindex, opt0, opt)
    ensures Sized(T, tokens, l, lc, d, dc, bl, blc, maxBlindex, opt, stat)
  {
    FitLengths(l);
    FitLengths(d);
    OptExact(bd, l, d, bl, blc, maxBlindex, |DataBits(SymsOf(T, tokens), l, d)|, opt0, opt);
    StatExact(ld, dd, T, tokens, stat);
  }

  /** A body that reads as the block whose tokens these are. */
  ghost predicate Carried(body: seq<bool>, kind: nat, at: nat, tokens: seq<Token>, hist: seq<bv8>) {
    kind < 3 && BodyReads(body, kind, at, hist, Expand(tokens, hist))
  }

  lemma TreesSendable(T: Tables, tokens: seq<Token>, l: seq<nat>, lc: seq<nat>, d: seq<nat>, dc: seq<nat>,
                      bl: seq<nat>, blc: seq<nat>, maxBlindex: nat, opt: nat, stat: nat)
    requires SizedTrees(T, tokens, l, lc, d, dc, bl, blc, maxBlindex, opt, stat)
    ensures SendableTrees(l, d, bl, maxBlindex + 1)
  {
  }

  lemma DynamicCodes(T: Tables, tokens: seq<Token>, l: seq<nat>, lc: seq<nat>, d: seq<nat>, dc: seq<nat>,
                     bl: seq<nat>, blc: seq<nat>, maxBlindex: nat, opt: nat, stat: nat, at: nat, hist: seq<bv8>)
    requires SizedTrees(T, tokens, l, lc, d, dc, bl, blc, maxBlindex, opt, stat)
    ensures InReach(tokens, hist) ==>
              Carried(TreesBits(l, d, bl, maxBlindex + 1) + DataBits(SymsOf(T, tokens), l, d), DYNAMIC, at, tokens,
                  hist)
  {
    assert SendableTrees(l, d, bl, maxBlindex + 1) by {
      TreesSendable(T, tokens, l, lc, d, dc, bl, blc, maxBlindex, opt, stat);
    }
    if InReach(tokens, hist) {
      DynamicReads(SymsOf(T, tokens), tokens, l, d, bl, maxBlindex + 1, at, hist);
    }
  }

  // ----- building -----

  /** The work space of the tree builders. */
  class Work {
    const lLen: array<nat>
    const dLen: array<nat>
    const blFreq: array<nat>
    const blLen: array<nat>
    const heap: array<nat>
    const depth: array<BT.Byte>
    const blCount: array<nat>

    ghost function All(): (r: set<object>) {
      {lLen as object, dLen as object, blFreq as object, blLen as object, heap as object, depth as object,
          blCount as object}
    }

    ghost predicate Shape() {
      && lLen.Length == 573 && dLen.Length == 61 && blFreq.Length == blLen.Length == 39
      && heap.Length == depth.Length == HEAP_SIZE && blCount.Length == MAX_BITS + 1
      && lLen != dLen && blFreq !in {lLen, dLen} && blLen !in {lLen, dLen, blFreq}
      && heap !in {lLen, dLen, blFreq, blLen}
      && blCount !in {lLen, dLen, blFreq, blLen, heap}
    }

    constructor ()
      ensures Shape() && fresh(All()) && forall s :: 0 <= s < 19 ==> blFreq[s] == 0
    {
      lLen, dLen := new nat[573](i => 0), new nat[61](i => 0);
      blFreq, blLen := new nat[39](i => 0), new nat[39](i => 0);
      heap, depth, blCount := new nat[HEAP_SIZE](i => 0), new BT.Byte[HEAP_SIZE](i => 0), new nat[MAX_BITS + 1](i => 0);
    }
  }

  /** `build_tree` on both alphabets. */
  method BuildBoth(ld: Desc, dd: Desc, b: Buffers, w: Work) returns (lMax: int, dMax: int, opt1: nat, stat1: nat,
                   opt: nat, stat: nat)
    requires ld.Valid() && dd.Valid() && ld.elems == 286 && dd.elems == 30 && b.Shape() && w.Shape()
    requires b.lFreq !in w.All() && b.dFreq !in w.All()
    modifies b.lFreq, b.dFreq, w.lLen, w.dLen, w.heap, w.depth, w.blCount
    ensures BT.Built(ld, old(b.lFreq[..]), w.lLen[..286], b.lFreq[..], lMax, opt1, stat1, 0, 0)
    ensures BT.Built(dd, old(b.dFreq[..]), w.dLen[..30], b.dFreq[..], dMax, opt, stat, opt1, stat1)
    ensures CQ.FreqSum(old(b.lFreq[..]), 286) < 65536 ==>
            CQ.Good(old(b.lFreq[..]), w.lLen[..286], 286, ld.maxLength)
    ensures CQ.FreqSum(old(b.dFreq[..]), 30) < 65536 ==> CQ.Good(old(b.dFreq[..]), w.dLen[..30], 30, dd.maxLength)
  {
    var over;
    ghost var df: seq<nat> := b.dFreq[..];
    lMax, opt1, stat1, over := BT.Build(ld, b.lFreq, w.lLen, w.heap, w.depth, w.blCount, 0, 0);
    ghost var l: seq<nat>, lc: seq<nat> := w.lLen[..286], b.lFreq[..];
    assert b.dFreq[..] == df;
    dMax, opt, stat, over := BT.Build(dd, b.dFreq, w.dLen, w.heap, w.depth, w.blCount, opt1, stat1);
    assert w.lLen[..286] == l && b.lFreq[..] == lc;
  }

  /** The literal and the distance tree: the more frequent symbols have the shorter codes, and the lengths are cheapest
      exactly if a cheapest code fits the limit of 15 bits. */
  method BuildTwo(ld: Desc, dd: Desc, b: Buffers, w: Work) returns (lMax: int, dMax: int, opt: nat, stat: nat)
    requires LDesc(ld) && DDesc(dd) && b.Valid() && w.Shape() && b.lFreq !in w.All() && b.dFreq !in w.All()
    modifies b.lFreq, b.dFreq, w.lLen, w.dLen, w.heap, w.depth, w.blCount
    ensures TwoTrees(b.T, b.tokens, w.lLen[..286], b.lFreq[..], lMax, w.dLen[..30], b.dFreq[..], dMax)
    ensures AllCoverable(SymsOf(b.T, b.tokens), FixedL(), FixedD())
    ensures CQ.Good(old(b.lFreq[..]), w.lLen[..286], 286, 15) && CQ.Good(old(b.dFreq[..]), w.dLen[..30], 30, 15)
    ensures opt == Add32(0, |DataBits(SymsOf(b.T, b.tokens), w.lLen[..286], w.dLen[..30])|)
    ensures stat == Add32(0, |DataBits(SymsOf(b.T, b.tokens), FixedL(), FixedD())|)
  {
    ghost var lf: seq<nat>, df: seq<nat>, tokens := b.lFreq[..], b.dFreq[..], b.tokens;
    assert Inside(0);
    TalliesSmall(b.T, lf, df, tokens);
    var opt1, stat1;
    lMax, dMax, opt1, stat1, opt, stat := BuildBoth(ld, dd, b, w);
    ghost var l: seq<nat>, lc: seq<nat>, d: seq<nat>, dc: seq<nat> := w.lLen[..286], b.lFreq[..], w.dLen[..30],
        b.dFreq[..];
    BothBuilt(ld, dd, b.T, tokens, lf, df, l, lc, lMax, d, dc, dMax, opt1, stat1, opt, stat);
  }

  lemma BothBuilt(ld: Desc, dd: Desc, T: Tables, tokens: seq<Token>, lf: seq<nat>, df: seq<nat>, l: seq<nat>,
                  lc: seq<nat>, lMax: int, d: seq<nat>, dc: seq<nat>, dMax: int, opt1: nat, stat1: nat, opt: nat,
                  stat: nat)
    requires LDesc(ld) && DDesc(dd) && Counted(T, lf, df, tokens)
    requires BT.Built(ld, lf, l, lc, lMax, opt1, stat1, 0, 0) && BT.Built(dd, df, d, dc, dMax, opt, stat, opt1, stat1)
    ensures TwoTrees(T, tokens, l, lc, lMax, d, dc, dMax) && AllCoverable(SymsOf(T, tokens), FixedL(), FixedD())
    ensures opt == Add32(0, |DataBits(SymsOf(T, tokens), l, d)|)
    ensures stat == Add32(0, |DataBits(SymsOf(T, tokens), FixedL(), FixedD())|)
  {
    BuiltTrees(ld, dd, T, tokens, lf, df, l, lc, lMax, d, dc, dMax, opt1, stat1, opt, stat);
    BuiltSizes(ld, dd, T, tokens, lf, df, l, lc, lMax, d, dc, dMax, opt1, stat1, opt, stat);
  }

  lemma GuardedFront(dl: seq<nat>, lens: seq<nat>)
    requires Guarded(dl, lens)
    ensures dl[..|lens|] == lens
  {
  }

  /** From the two full trees to the cut ones, with the sizes kept. */
  lemma TwoAreCut(ld: Desc, dd: Desc, T: Tables, tokens: seq<Token>, l: seq<nat>, lc: seq<nat>, lMax: int, d: seq<nat>,
                  dc: seq<nat>, dMax: int)
    requires IsLDesc(ld) && IsDDesc(dd) && |tokens| < LIT_BUFSIZE && TwoTrees(T, tokens, l, lc, lMax, d, dc, dMax)
    ensures CutTrees(T, tokens, l[..lMax + 1], lc, d[..dMax + 1], dc) && Lengths(l[..lMax + 1])
    ensures Lengths(d[..dMax + 1])
    ensures |DataBits(SymsOf(T, tokens), l[..lMax + 1], d[..dMax + 1])| == |DataBits(SymsOf(T, tokens), l, d)| < 400_000
  {
    TreesCut(T, tokens, l, lc, lMax, d, dc, dMax);
    DataSmall(ld, dd, T, tokens, l, d);
    FitLengths(l[..lMax + 1]);
    FitLengths(d[..dMax + 1]);
  }

  /** The two trees as they will be sent, and what the data takes with them and with the static ones. */
  ghost predicate CutSizes(T: Tables, tokens: seq<Token>, l: seq<nat>, lc: seq<nat>, d: seq<nat>, dc: seq<nat>,
                           opt: nat, stat: nat) {
    && CutTrees(T, tokens, l, lc, d, dc) && AllCoverable(SymsOf(T, tokens), FixedL(), FixedD())
    && |DataBits(SymsOf(T, tokens), l, d)| < 400_000
    && opt == Add32(0, |DataBits(SymsOf(T, tokens), l, d)|)
    && stat == Add32(0, |DataBits(SymsOf(T, tokens), FixedL(), FixedD())|)
  }

  /** The same, taken apart only where `Index` is mentioned. */
  ghost predicate Cut(T: Tables, tokens: seq<Token>, l: seq<nat>, lc: seq<nat>, d: seq<nat>, dc: seq<nat>, opt: nat,
                      stat: nat) {
    forall m: nat {:trigger Index(m, opt)} :: Index(m, opt) ==> CutSizes(T, tokens, l, lc, d, dc, opt, stat)
  }

  lemma CutExact(ld: Desc, dd: Desc, bd: Desc, T: Tables, tokens: seq<Token>, l: seq<nat>, lc: seq<nat>, d: seq<nat>,
                 dc: seq<nat>,
                 bl: seq<nat>, blc: seq<nat>, maxBlindex: nat, opt0: nat, opt: nat, stat: nat)
    requires IsLDesc(ld) && IsDDesc(dd) && BL.IsBlDesc(bd) && |tokens| < LIT_BUFSIZE
    requires Cut(T, tokens, l, lc, d, dc, opt0, stat)
    requires BL.HeaderReady(l, d, bl, blc, maxBlindex, opt0, opt)
    ensures Sized(T, tokens, l, lc, d, dc, bl, blc, maxBlindex, opt, stat)
  {
    assert Index(opt0, opt0);
    SizesExact(ld, dd, bd, T, tokens, l, lc, d, dc, bl, blc, maxBlindex, opt0, opt, stat);
  }

  /** The two trees as they will be sent. */
  method BuildCut(ld: Desc, dd: Desc, b: Buffers, w: Work) returns (lMax: nat, dMax: nat, opt: nat, stat: nat)
    requires LDesc(ld) && DDesc(dd) && b.Valid() && w.Shape() && b.lFreq !in w.All() && b.dFreq !in w.All()
    modifies b.lFreq, b.dFreq, w.lLen, w.dLen, w.heap, w.depth, w.blCount
    ensures 256 <= lMax < 286 && 1 <= dMax < 30 && Lengths(w.lLen[..lMax + 1]) && Lengths(w.dLen[..dMax + 1])
    ensures Cut(b.T, b.tokens, w.lLen[..lMax + 1], b.lFreq[..], w.dLen[..dMax + 1], b.dFreq[..], opt, stat)
    ensures opt < TWO32 && w.lLen[256] != 0
  {
    var lm, dm;
    lm, dm, opt, stat := BuildTwo(ld, dd, b, w);
    lMax, dMax := lm, dm;
    assert w.lLen[..286][..lMax + 1] == w.lLen[..lMax + 1] && w.dLen[..30][..dMax + 1] == w.dLen[..dMax + 1];
    TwoAreCut(ld, dd, b.T, b.tokens, w.lLen[..286], b.lFreq[..], lMax, w.dLen[..30], b.dFreq[..], dMax);
    assert w.lLen[..lMax + 1][256] == w.lLen[256];
  }

  /** All three trees, and the exact sizes of the block. */
  method BuildAll(ld: Desc, dd: Desc, bd: Desc, b: Buffers, w: Work)
    returns (lMax: nat, dMax: nat, maxBlindex: nat, opt: nat, stat: nat)
    requires LDesc(ld) && DDesc(dd) && BL.IsBlDesc(bd) && bd.Valid() && b.Valid() && w.Shape() && b.lFreq !in w.All()
    requires b.dFreq !in w.All()
    requires forall s :: 0 <= s < 19 ==> w.blFreq[s] == 0
    modifies b.lFreq, b.dFreq, w.lLen, w.dLen, w.blFreq, w.blLen, w.heap, w.depth, w.blCount
    ensures 256 <= lMax < 286 && 1 <= dMax < 30
    ensures Guarded(w.lLen[..], w.lLen[..lMax + 1]) && Guarded(w.dLen[..], w.dLen[..dMax + 1])
    ensures Sized(b.T, b.tokens, w.lLen[..lMax + 1], b.lFreq[..], w.dLen[..dMax + 1], b.dFreq[..], w.blLen[..19],
            w.blFreq[..], maxBlindex, opt, stat)
  {
    var opt0;
    lMax, dMax, opt0, stat := BuildCut(ld, dd, b, w);
    ghost var l: seq<nat>, d: seq<nat>, lc: seq<nat>, dc: seq<nat> := w.lLen[..lMax + 1], w.dLen[..dMax + 1],
        b.lFreq[..], b.dFreq[..];
    maxBlindex, opt := BL.Build(bd, w.lLen, lMax, w.dLen, dMax, w.blFreq, w.blLen, w.heap, w.depth, w.blCount, opt0);
    GuardedFront(w.lLen[..], l);
    GuardedFront(w.dLen[..], d);
    assert w.lLen[..lMax + 1] == l && w.dLen[..dMax + 1] == d && b.lFreq[..] == lc && b.dFreq[..] == dc;
    CutExact(ld, dd, bd, b.T, b.tokens, l, lc, d, dc, w.blLen[..19], w.blFreq[..], maxBlindex, opt0, opt, stat);
  }

  // ----- sending -----

  /** Saves the flags of the last few tokens. */
  method StoreFlags(b: Buffers)
    requires b.Valid()
    modifies b.flagBuf
    ensures b.Valid() && Buffered(b.lBuf[..], b.dBuf[..], b.tokens) && CB.FlagsReadable(b.flagBuf[..], b.tokens)
  {
    assert Inside(0);
    CB.FlagsStored(b.flagBuf[..], b.lastFlags, b.flags, b.flagBit, b.tokens);
    ghost var f: seq<nat> := b.flagBuf[..];
    b.flagBuf[b.lastFlags] := b.flags;
    assert b.flagBuf[..] == f[b.lastFlags := b.flags];
  }

  /** The tokens are in the buffers, apart from the output. */
  ghost predicate Loaded(o: LW.Output, b: Buffers)
    reads b, b.lBuf, b.dBuf, b.flagBuf
  {
    && b.lastLit == |b.tokens| && Buffered(b.lBuf[..], b.dBuf[..], b.tokens)
    && CB.FlagsReadable(b.flagBuf[..], b.tokens)
    && o.outbuf !in {b.lBuf, b.dBuf, b.flagBuf}
  }

  /** What sending a dynamic block takes, and what it comes to. */
  lemma DynamicReady(T: Tables, tokens: seq<Token>, l: seq<nat>, lc: seq<nat>, d: seq<nat>, dc: seq<nat>, bl: seq<nat>,
                     blc: seq<nat>,
                     maxBlindex: nat, opt: nat, stat: nat, at: nat, hist: seq<bv8>)
    requires Sized(T, tokens, l, lc, d, dc, bl, blc, maxBlindex, opt, stat) && InReach(tokens, hist)
    ensures Lengths(l) && Lengths(d) && Header(l, d, bl, blc, maxBlindex) && CB.Trees(l, lc, d, dc).Valid()
    ensures CB.AllCovered(T, tokens, CB.Trees(l, lc, d, dc)) && END_BLOCK < |l| && l[END_BLOCK] > 0
    ensures opt == |TreesBits(l, d, bl, maxBlindex + 1)| + |DataBits(SymsOf(T, tokens), l, d)|
    ensures Carried(TreesBits(l, d, bl, maxBlindex + 1) + DataBits(SymsOf(T, tokens), l, d), DYNAMIC, at, tokens, hist)
  {
    assert Index(maxBlindex, maxBlindex);
    FitLengths(l);
    FitLengths(d);
    DynamicCodes(T, tokens, l, lc, d, dc, bl, blc, maxBlindex, opt, stat, at, hist);
  }

  ghost predicate IsDynamic(body: seq<bool>, T: Tables, tokens: seq<Token>, l: seq<nat>, d: seq<nat>, bl: seq<nat>,
                            maxBlindex: nat)
  {
    && T.Right() && AllOk(tokens) && 257 <= |l| && 1 <= |d| && |bl| == 19 && 3 <= maxBlindex < 19
    && HaveCodes(Syms(l, 0, -1), bl) && HaveCodes(Syms(d, 0, -1), bl) && AllCoverable(SymsOf(T, tokens), l, d)
    && body == TreesBits(l, d, bl, maxBlindex + 1) + DataBits(SymsOf(T, tokens), l, d)
  }

  /** Trees and data of a dynamic block. */
  method SendDynamic(o: LW.Output, b: Buffers, lLen: seq<nat>, lc: seq<nat>, lMax: nat, dLen: seq<nat>, dc: seq<nat>,
                     dMax: nat,
                     bl: seq<nat>, blc: seq<nat>, maxBlindex: nat, ghost opt: nat, ghost stat: nat,
                     ghost hist: seq<bv8>)
    returns (ghost body: seq<bool>)
    requires o.Valid() && Loaded(o, b) && 256 <= lMax < 286 && lMax + 1 < |lLen| && 1 <= dMax < 30 && dMax + 1 < |dLen|
    requires Guarded(lLen, lLen[..lMax + 1]) && Guarded(dLen, dLen[..dMax + 1])
    requires Sized(b.T, b.tokens, lLen[..lMax + 1], lc, dLen[..dMax + 1], dc, bl, blc, maxBlindex, opt, stat)
    requires InReach(b.tokens, hist)
    modifies o, o.outbuf
    ensures o.Valid() && o.stream == old(o.stream) + body && |body| == opt
    ensures Carried(body, DYNAMIC, |old(o.stream)|, b.tokens, hist)
    ensures IsDynamic(body, b.T, b.tokens, lLen[..lMax + 1], dLen[..dMax + 1], bl, maxBlindex)
  {
    ghost var l: seq<nat>, d: seq<nat>, tokens := lLen[..lMax + 1], dLen[..dMax + 1], b.tokens;
    DynamicReady(b.T, tokens, l, lc, d, dc, bl, blc, maxBlindex, opt, stat, |o.stream|, hist);
    body := TreesBits(l, d, bl, maxBlindex + 1) + DataBits(SymsOf(b.T, tokens), l, d);
    BL.SendAllTrees(o, lLen, lMax + 1, dLen, dMax + 1, bl, blc, maxBlindex + 1);
    SendCoded(o, b, CB.Trees(lLen[..lMax + 1], lc, dLen[..dMax + 1], dc), old(o.stream),
        TreesBits(l, d, bl, maxBlindex + 1));
  }

  /** The data, after the trees. */
  method SendCoded(o: LW.Output, b: Buffers, t: CB.Trees, ghost s0: seq<bool>, ghost trees: seq<bool>)
    requires o.Valid() && Loaded(o, b) && t.Valid() && CB.AllCovered(b.T, b.tokens, t) && o.stream == s0 + trees
    requires END_BLOCK < |t.l| && t.l[END_BLOCK] > 0
    modifies o, o.outbuf
    ensures o.Valid() && o.stream == s0 + (trees + DataBits(SymsOf(b.T, b.tokens), t.l, t.d))
  {
    Regroup(s0, trees, DataBits(SymsOf(b.T, b.tokens), t.l, t.d));
    CB.Compress(o, b.T, t, b.lBuf, b.dBuf, b.flagBuf, b.lastLit, b.tokens);
  }

  /** The static trees `ct_init` makes. */
  ghost predicate IsFixed(fixed: CB.Trees) {
    fixed.l == FixedL() && fixed.d == FixedD() && fixed.Valid()
  }

  lemma StaticReady(T: Tables, tokens: seq<Token>, l: seq<nat>, lc: seq<nat>, d: seq<nat>, dc: seq<nat>, bl: seq<nat>,
                    blc: seq<nat>,
                    maxBlindex: nat, opt: nat, stat: nat, fixed: CB.Trees)
    requires Sized(T, tokens, l, lc, d, dc, bl, blc, maxBlindex, opt, stat) && IsFixed(fixed)
    ensures CB.AllCovered(T, tokens, fixed) && stat == |DataBits(SymsOf(T, tokens), FixedL(), FixedD())|
  {
    assert Index(maxBlindex, maxBlindex);
  }

  method SendStatic(o: LW.Output, b: Buffers, fixed: CB.Trees, ghost stat: nat, ghost hist: seq<bv8>)
    returns (ghost body: seq<bool>)
    requires o.Valid() && Loaded(o, b) && IsFixed(fixed) && CB.AllCovered(b.T, b.tokens, fixed)
    requires stat == |DataBits(SymsOf(b.T, b.tokens), FixedL(), FixedD())| && InReach(b.tokens, hist)
    modifies o, o.outbuf
    ensures o.Valid() && o.stream == old(o.stream) + body && |body| == stat
    ensures Carried(body, STATIC, |old(o.stream)|, b.tokens, hist)
    ensures body == DataBits(SymsOf(b.T, b.tokens), FixedL(), FixedD())
  {
    body := DataBits(SymsOf(b.T, b.tokens), FixedL(), FixedD());
    CB.Compress(o, b.T, fixed, b.lBuf, b.dBuf, b.flagBuf, b.lastLit, b.tokens);
    StaticReads(SymsOf(b.T, b.tokens), b.tokens, |old(o.stream)|, hist);
  }

  method SendStored(o: LW.Output, buf: seq<bv8>, ghost tokens: seq<Token>, ghost hist: seq<bv8>)
    returns (ghost body: seq<bool>)
    requires o.Valid() && |buf| < 0x1_0000 && Expand(tokens, hist) == hist + buf
    modifies o, o.outbuf
    ensures o.Valid() && o.stream == old(o.stream) + body && Carried(body, STORED, |old(o.stream)|, tokens, hist)
    ensures |body| == BodySize(STORED, |old(o.stream)|, 0, 0, |buf|) && body == StoredBits(buf, |old(o.stream)|)
  {
    body := StoredBits(buf, |o.stream|);
    StoredSize(buf, |o.stream|);
    CopyBlock(o, buf);
    StoredReads(buf, |old(o.stream)|, hist);
  }

  method SendHeader(o: LW.Output, kind: nat, eof: bool)
    requires o.Valid() && kind < 3
    modifies o, o.outbuf
    ensures o.Valid() && o.stream == old(o.stream) + Lsb(HeaderValue(kind, eof), 3) && |o.stream| == |old(o.stream)| + 3
  {
    Pow2Values();
    o.SendBits(HeaderValue(kind, eof), 3);
  }

  /** What is fixed about a block once its trees are built: the last codes in use, and the sizes. */
  datatype Plan = Plan(lMax: nat, dMax: nat, maxBlindex: nat, opt: nat, stat: nat)

  predicate Same(p: Plan, q: Plan) { p == q }

  /** The lengths of the three trees as they are sent. */
  datatype Sent = Sent(l: seq<nat>, d: seq<nat>, bl: seq<nat>)

  /** The trees of a block, complete codes for the symbols they need, and the sizes in bits, without the block header,
      of its two coded forms. */
  ghost predicate SizesOf(p: Plan, T: Tables, tokens: seq<Token>, t: Sent) {
    && T.Right() && AllOk(tokens) && 257 <= |t.l| && 1 <= |t.d| && |t.bl| == 19 && 3 <= p.maxBlindex < 19
    && RightTrees(T, tokens, t.l, t.d) && RestUnused(t.bl, p.maxBlindex + 1)
    && HaveCodes(Syms(t.l, 0, -1), t.bl) && HaveCodes(Syms(t.d, 0, -1), t.bl)
    && AllCoverable(SymsOf(T, tokens), t.l, t.d) && AllCoverable(SymsOf(T, tokens), FixedL(), FixedD())
    && p.opt == |TreesBits(t.l, t.d, t.bl, p.maxBlindex + 1)| + |DataBits(SymsOf(T, tokens), t.l, t.d)|
    && p.stat == |DataBits(SymsOf(T, tokens), FixedL(), FixedD())|
  }

  /** The same, taken apart only where `Same` is mentioned. */
  ghost predicate ExactlySized(p: Plan, T: Tables, tokens: seq<Token>, t: Sent) {
    forall q: Plan {:trigger Same(p, q)} :: Same(p, q) ==> SizesOf(p, T, tokens, t)
  }

  lemma SizedExactly(p: Plan, T: Tables, tokens: seq<Token>, t: Sent, lc: seq<nat>, dc: seq<nat>, blc: seq<nat>)
    requires Sized(T, tokens, t.l, lc, t.d, dc, t.bl, blc, p.maxBlindex, p.opt, p.stat)
    ensures ExactlySized(p, T, tokens, t) && p.stat <= 14 * 8192 + 18 * 8191
  {
    assert Index(p.maxBlindex, p.maxBlindex);
    assert SizedTrees(T, tokens, t.l, lc, t.d, dc, t.bl, blc, p.maxBlindex, p.opt, p.stat);
    SizesAreExact(p, T, tokens, t, lc, dc, blc);
  }

  lemma SizesAreExact(p: Plan, T: Tables, tokens: seq<Token>, t: Sent, lc: seq<nat>, dc: seq<nat>, blc: seq<nat>)
    requires SizedTrees(T, tokens, t.l, lc, t.d, dc, t.bl, blc, p.maxBlindex, p.opt, p.stat)
    ensures SizesOf(p, T, tokens, t) && p.stat <= 14 * 8192 + 18 * 8191
  {
  }

  /** The body in each of the three forms: the bytes themselves, the data in the static trees, or the trees and the data
      in them. */
  ghost predicate BodyOf(kind: nat, p: Plan, body: seq<bool>, T: Tables, tokens: seq<Token>, t: Sent,
                         buf: Option<seq<bv8>>, at: nat)
  {
    && kind < 3 && SizesOf(p, T, tokens, t)
    && if kind == STORED then buf.Some? && |buf.value| < 0x1_0000 && body == StoredBits(buf.value, at)
       else if kind == STATIC then body == DataBits(SymsOf(T, tokens), FixedL(), FixedD())
       else body == TreesBits(t.l, t.d, t.bl, p.maxBlindex + 1) + DataBits(SymsOf(T, tokens), t.l, t.d)
  }

  /** The same, taken apart only where `Same` is mentioned. */
  ghost predicate SentAs(kind: nat, p: Plan, body: seq<bool>, T: Tables, tokens: seq<Token>, t: Sent,
                         buf: Option<seq<bv8>>, at: nat)
  {
    forall q: Plan {:trigger Same(p, q)} :: Same(p, q) ==> BodyOf(kind, p, body, T, tokens, t, buf, at)
  }

  lemma StoredSent(p: Plan, body: seq<bool>, T: Tables, tokens: seq<Token>, t: Sent, buf: seq<bv8>, at: nat)
    requires ExactlySized(p, T, tokens, t) && |buf| < 0x1_0000 && body == StoredBits(buf, at)
    ensures SentAs(STORED, p, body, T, tokens, t, Some(buf), at)
  {
    assert Same(p, p);
  }

  lemma StaticSent(p: Plan, body: seq<bool>, T: Tables, tokens: seq<Token>, t: Sent, buf: Option<seq<bv8>>, at: nat)
    requires ExactlySized(p, T, tokens, t) && T.Right() && AllOk(tokens)
    requires AllCoverable(SymsOf(T, tokens), FixedL(), FixedD())
    requires body == DataBits(SymsOf(T, tokens), FixedL(), FixedD())
    ensures SentAs(STATIC, p, body, T, tokens, t, buf, at)
  {
    assert Same(p, p);
  }

  lemma DynamicSent(p: Plan, body: seq<bool>, T: Tables, tokens: seq<Token>, t: Sent, buf: Option<seq<bv8>>, at: nat)
    requires ExactlySized(p, T, tokens, t) && IsDynamic(body, T, tokens, t.l, t.d, t.bl, p.maxBlindex)
    ensures SentAs(DYNAMIC, p, body, T, tokens, t, buf, at)
  {
    assert Same(p, p);
  }

  /** A block for the tokens: `p` has the exact sizes of its coded forms, `kind` is the choice they lead to, and the
      body, which begins `at` bits into the stream, reads back as what the tokens stand for and has the size of its
      kind. */
  ghost predicate Formed(kind: nat, p: Plan, body: seq<bool>, sent: Sent, T: Tables, tokens: seq<Token>, at: nat,
                         storedLen: nat, atHand: bool, hist: seq<bv8>)
  {
    && kind == Choice(p.opt, p.stat, storedLen, atHand) && |body| == BodySize(kind, at, p.opt, p.stat, storedLen)
    && Carried(body, kind, at, tokens, hist) && ExactlySized(p, T, tokens, sent)
  }

  lemma BlockFormed(kind: nat, p: Plan, body: seq<bool>, sent: Sent, T: Tables, tokens: seq<Token>, at: nat,
                    storedLen: nat, atHand: bool,
                    hist: seq<bv8>)
    requires kind == Choice(p.opt, p.stat, storedLen, atHand) && |body| == BodySize(kind, at, p.opt, p.stat, storedLen)
    requires Carried(body, kind, at, tokens, hist) && ExactlySized(p, T, tokens, sent)
    ensures Formed(kind, p, body, sent, T, tokens, at, storedLen, atHand, hist)
  {
  }

  /** The form to send; if it is the stored one, its length fits. */
  method Decide(p: Plan, storedLen: nat, atHand: bool) returns (kind: nat)
    requires p.stat <= 14 * 8192 + 18 * 8191
    ensures kind < 3 && kind == Choice(p.opt, p.stat, storedLen, atHand)
    ensures (kind == STORED ==> atHand && storedLen < 0x1_0000)
  {
    kind := Choice(p.opt, p.stat, storedLen, atHand);
    if kind == STORED {
      StoredFits(p.opt, p.stat, storedLen, atHand);
    }
  }

  /** The three blocks these tokens could have been sent as, beginning `at` bits into the stream. */
  ghost function DynamicBlock(p: Plan, T: Tables, tokens: seq<Token>, t: Sent, eof: bool): (r: seq<bool>)
    requires SizesOf(p, T, tokens, t)
  {
    BlockBits(TreesBits(t.l, t.d, t.bl, p.maxBlindex + 1) + DataBits(SymsOf(T, tokens), t.l, t.d), DYNAMIC, eof)
  }

  ghost function StaticBlock(p: Plan, T: Tables, tokens: seq<Token>, t: Sent, eof: bool): (r: seq<bool>)
    requires SizesOf(p, T, tokens, t)
  {
    BlockBits(DataBits(SymsOf(T, tokens), FixedL(), FixedD()), STATIC, eof)
  }

  ghost function StoredBlock(buf: seq<bv8>, at: nat, eof: bool): (r: seq<bool>)
    requires |buf| < 0x1_0000
  {
    BlockBits(StoredBits(buf, at + 3), STORED, eof)
  }

  /** The last-block flag and the block's type, as section 3.2.3 of RFC 1951 numbers them: 00 stored, 01 with fixed
      codes, 10 with dynamic codes; all of them the least bit first. */
  lemma TypeBits(p: Plan, T: Tables, tokens: seq<Token>, t: Sent, buf: seq<bv8>, at: nat, eof: bool)
    requires SizesOf(p, T, tokens, t) && |buf| < 0x1_0000
    ensures |StoredBlock(buf, at, eof)| >= 3 && StoredBlock(buf, at, eof)[..3] == [eof, false, false]
    ensures |StaticBlock(p, T, tokens, t, eof)| >= 3 && StaticBlock(p, T, tokens, t, eof)[..3] == [eof, true, false]
    ensures |DynamicBlock(p, T, tokens, t, eof)| >= 3 && DynamicBlock(p, T, tokens, t, eof)[..3] == [eof, false, true]
  {
    ThreeBitsOf(0, eof, StoredBits(buf, at + 3));
    ThreeBitsOf(1, eof, DataBits(SymsOf(T, tokens), FixedL(), FixedD()));
    ThreeBitsOf(2, eof, TreesBits(t.l, t.d, t.bl, p.maxBlindex + 1) + DataBits(SymsOf(T, tokens), t.l, t.d));
  }

  lemma ThreeBitsOf(kind: nat, eof: bool, body: seq<bool>)
    requires kind < 3
    ensures |BlockBits(body, kind, eof)| >= 3 && BlockBits(body, kind, eof)[..3] == [eof, kind == 1, kind == 2]
  {
    var h := HeaderValue(kind, eof);
    assert Lsb(h, 3) == [h % 2 == 1] + Lsb(h / 2, 2);
    assert Lsb(h / 2, 2) == [h / 2 % 2 == 1] + Lsb(h / 2 / 2, 1);
    assert Lsb(h / 2 / 2, 1) == [h / 2 / 2 % 2 == 1] + [];
    assert BlockBits(body, kind, eof)[..3] == Lsb(h, 3);
  }

  /** The block sent is one of the three, and its type bits say which. */
  lemma BlockIsOne(kind: nat, p: Plan, body: seq<bool>, T: Tables, tokens: seq<Token>, t: Sent,
                   buf: Option<seq<bv8>>, at: nat, eof: bool)
    requires SentAs(kind, p, body, T, tokens, t, buf, at + 3)
    ensures SizesOf(p, T, tokens, t)
    ensures || (buf.Some? && |buf.value| < 0x1_0000 && BlockBits(body, kind, eof) == StoredBlock(buf.value, at, eof))
            || BlockBits(body, kind, eof) == StaticBlock(p, T, tokens, t, eof)
            || BlockBits(body, kind, eof) == DynamicBlock(p, T, tokens, t, eof)
    ensures |BlockBits(body, kind, eof)| >= 3 && BlockBits(body, kind, eof)[..3] == [eof, kind == 1, kind == 2]
  {
    assert Same(p, p);
    ThreeBitsOf(kind, eof, body);
  }

  lemma BlockSizes(p: Plan, T: Tables, tokens: seq<Token>, t: Sent, buf: seq<bv8>, at: nat, eof: bool)
    requires SizesOf(p, T, tokens, t) && |buf| < 0x1_0000
    ensures |DynamicBlock(p, T, tokens, t, eof)| == BlockSize(DYNAMIC, at, p.opt, p.stat, |buf|)
    ensures |StaticBlock(p, T, tokens, t, eof)| == BlockSize(STATIC, at, p.opt, p.stat, |buf|)
    ensures |StoredBlock(buf, at, eof)| == BlockSize(STORED, at, p.opt, p.stat, |buf|)
  {
    StoredSize(buf, at + 3);
  }

  lemma FormedSizes(kind: nat, p: Plan, body: seq<bool>, t: Sent, T: Tables, tokens: seq<Token>, at: nat, buf: seq<bv8>,
                    atHand: bool,
                    hist: seq<bv8>, eof: bool)
    requires Formed(kind, p, body, t, T, tokens, at + 3, |buf|, atHand, hist)
    ensures SizesOf(p, T, tokens, t) && kind == Choice(p.opt, p.stat, |buf|, atHand)
    ensures |BlockBits(body, kind, eof)| == BlockSize(kind, at, p.opt, p.stat, |buf|)
  {
    assert Same(p, p);
  }

  /** A coded block sent takes no more bytes than the other coded form, and fewer bits than the stored one. */
  lemma CodedIsSmallest(kind: nat, p: Plan, body: seq<bool>, t: Sent, T: Tables, tokens: seq<Token>, at: nat,
                        buf: seq<bv8>, atHand: bool,
                        hist: seq<bv8>, eof: bool)
    requires Formed(kind, p, body, t, T, tokens, at + 3, |buf|, atHand, hist) && kind != STORED && |buf| < 0x1_0000
    ensures SizesOf(p, T, tokens, t)
    ensures InBytes(|BlockBits(body, kind, eof)|) <= InBytes(|DynamicBlock(p, T, tokens, t, eof)|)
    ensures InBytes(|BlockBits(body, kind, eof)|) <= InBytes(|StaticBlock(p, T, tokens, t, eof)|)
    ensures atHand ==> |BlockBits(body, kind, eof)| < |StoredBlock(buf, at, eof)|
  {
    FormedSizes(kind, p, body, t, T, tokens, at, buf, atHand, hist, eof);
    BlockSizes(p, T, tokens, t, buf, at, eof);
    TreeChoice(p.opt, p.stat, |buf|, atHand, at);
  }

  /** A stored block sent is no larger than either coded form if and only if it is so with its alignment counted,
      and it never loses more than 17 bits. */
  lemma StoredIsSmallest(p: Plan, body: seq<bool>, t: Sent, T: Tables, tokens: seq<Token>, at: nat, buf: seq<bv8>,
                         hist: seq<bv8>, eof: bool)
    requires Formed(STORED, p, body, t, T, tokens, at + 3, |buf|, true, hist) && |buf| < 0x1_0000
    ensures SizesOf(p, T, tokens, t)
    ensures (&& |BlockBits(body, STORED, eof)| <= |DynamicBlock(p, T, tokens, t, eof)|
             && |BlockBits(body, STORED, eof)| <= |StaticBlock(p, T, tokens, t, eof)|)
            <==> Skip(at + 3) <= Lesser(p.opt, p.stat) && |buf| + 4 <= (Lesser(p.opt, p.stat) - Skip(at + 3)) / 8
    ensures |BlockBits(body, STORED, eof)| <= |DynamicBlock(p, T, tokens, t, eof)| + 17
    ensures |BlockBits(body, STORED, eof)| <= |StaticBlock(p, T, tokens, t, eof)| + 17
  {
    FormedSizes(STORED, p, body, t, T, tokens, at, buf, true, hist, eof);
    BlockSizes(p, T, tokens, t, buf, at, eof);
    StoredChoice(p.opt, p.stat, |buf|, at);
    StoredLoss(p.opt, p.stat, |buf|, at);
  }

  predicate Chosen(m: nat, n: nat) { m == n }

  class Coder {
    const o: LW.Output
    const b: Buffers
    const w: Work
    const ld: Desc
    const dd: Desc
    const bd: Desc
    const fixed: CB.Trees

    /** The parts do not share storage. */
    ghost predicate Apart() {
      w.Shape() && b.Shape() && b.Parts() !! w.All() && o.outbuf !in w.All() && o.outbuf !in b.Parts()
    }

    ghost predicate Fixed() {
      LDesc(ld) && DDesc(dd) && BL.IsBlDesc(bd) && bd.Valid() && IsFixed(fixed)
    }

    ghost predicate Valid()
      reads this, o, o.outbuf, b, b.lBuf, b.dBuf, b.flagBuf, b.lFreq, b.dFreq, w.blFreq
    {
      Apart() && Fixed() && o.Valid() && b.Valid() && forall s :: 0 <= s < 19 ==> w.blFreq[s] == 0
    }

    constructor (o: LW.Output, b: Buffers, w: Work, ld: Desc, dd: Desc, bd: Desc, fixed: CB.Trees)
      ensures this.o == o && this.b == b && this.w == w && this.ld == ld && this.dd == dd && this.bd == bd
      ensures this.fixed == fixed
    {
      this.o, this.b, this.w, this.ld, this.dd, this.bd, this.fixed := o, b, w, ld, dd, bd, fixed;
    }

    /** What is known of the trees and sizes once they are built. It is stated for every plan that
        is the same as `p`, so that it is taken apart only where `Same` is mentioned. */
    ghost predicate Built(p: Plan)
      reads this, b, b.lFreq, b.dFreq, w.lLen, w.dLen, w.blFreq, w.blLen
    {
      forall q: Plan {:trigger Same(p, q)} :: Same(p, q) ==> Planned(p)
    }

    ghost predicate Planned(p: Plan)
      reads this, b, b.lFreq, b.dFreq, w.lLen, w.dLen, w.blFreq, w.blLen
    {
      && w.Shape() && 256 <= p.lMax < 286 && 1 <= p.dMax < 30
      && Guarded(w.lLen[..], w.lLen[..p.lMax + 1]) && Guarded(w.dLen[..], w.dLen[..p.dMax + 1])
      && Sized(b.T, b.tokens, w.lLen[..p.lMax + 1], b.lFreq[..], w.dLen[..p.dMax + 1], b.dFreq[..], w.blLen[..19],
            w.blFreq[..],
               p.maxBlindex, p.opt, p.stat)
    }

    /** The trees as they will be sent. */
    ghost function TreesOf(p: Plan): (r: Sent)
      reads this, w.lLen, w.dLen, w.blLen
    {
      Sent(if p.lMax < w.lLen.Length then w.lLen[..p.lMax + 1] else [],
           if p.dMax < w.dLen.Length then w.dLen[..p.dMax + 1] else [],
           if w.blLen.Length >= 19 then w.blLen[..19] else [])
    }

    /** The block in the form chosen, after its header. */
    method SendBody(kind: nat, p: Plan, ghost sent: Sent, buf: Option<seq<bv8>>, ghost storedLen: nat,
                    ghost hist: seq<bv8>)
      returns (ghost body: seq<bool>)
      requires Apart() && Fixed() && o.Valid() && Loaded(o, b) && kind < 3 && Built(p) && InReach(b.tokens, hist)
      requires ExactlySized(p, b.T, b.tokens, sent) && sent == TreesOf(p)
      requires kind == STORED ==>
               buf.Some? && |buf.value| == storedLen < 0x1_0000 && Expand(b.tokens, hist) == hist + buf.value
      modifies o, o.outbuf
      ensures o.Valid() && o.stream == old(o.stream) + body && Carried(body, kind, |old(o.stream)|, b.tokens, hist)
      ensures |body| == BodySize(kind, |old(o.stream)|, p.opt, p.stat, storedLen)
      ensures SentAs(kind, p, body, b.T, b.tokens, sent, buf, |old(o.stream)|)
    {
      ghost var T, tokens, at := b.T, b.tokens, |o.stream|;
      if kind == STORED {
        body := SendStored(o, buf.value, b.tokens, hist);
        StoredSent(p, body, T, tokens, sent, buf.value, at);
      } else if kind == STATIC {
        body := StaticBody(p, sent, buf, hist);
      } else {
        body := DynamicBody(p, sent, buf, hist);
      }
    }

    lemma StaticPlanned(p: Plan)
      requires Fixed() && Built(p)
      ensures CB.AllCovered(b.T, b.tokens, fixed) && p.stat == |DataBits(SymsOf(b.T, b.tokens), FixedL(), FixedD())|
    {
      assert Same(p, p);
      StaticReady(b.T, b.tokens, w.lLen[..p.lMax + 1], b.lFreq[..], w.dLen[..p.dMax + 1], b.dFreq[..], w.blLen[..19],
          w.blFreq[..], p.maxBlindex, p.opt, p.stat, fixed);
    }

    method StaticBody(p: Plan, ghost sent: Sent, ghost buf: Option<seq<bv8>>, ghost hist: seq<bv8>)
      returns (ghost body: seq<bool>)
      requires Fixed() && o.Valid() && Loaded(o, b) && Built(p) && InReach(b.tokens, hist)
      requires ExactlySized(p, b.T, b.tokens, sent)
      modifies o, o.outbuf
      ensures o.Valid() && o.stream == old(o.stream) + body && |body| == p.stat
      ensures Carried(body, STATIC, |old(o.stream)|, b.tokens, hist)
      ensures SentAs(STATIC, p, body, b.T, b.tokens, sent, buf, |old(o.stream)|)
    {
      StaticPlanned(p);
      ghost var T, tokens, at := b.T, b.tokens, |o.stream|;
      body := SendStatic(o, b, fixed, p.stat, hist);
      StaticSent(p, body, T, tokens, sent, buf, at);
    }

    method DynamicBody(p: Plan, ghost sent: Sent, ghost buf: Option<seq<bv8>>, ghost hist: seq<bv8>)
      returns (ghost body: seq<bool>)
      requires Apart() && o.Valid() && Loaded(o, b) && Built(p) && InReach(b.tokens, hist)
      requires ExactlySized(p, b.T, b.tokens, sent) && sent == TreesOf(p)
      modifies o, o.outbuf
      ensures o.Valid() && o.stream == old(o.stream) + body && |body| == p.opt
      ensures Carried(body, DYNAMIC, |old(o.stream)|, b.tokens, hist)
      ensures SentAs(DYNAMIC, p, body, b.T, b.tokens, sent, buf, |old(o.stream)|)
    {
      assert Same(p, p);
      var lMax, dMax := p.lMax, p.dMax;
      assert w.lLen[..][..lMax + 1] == w.lLen[..lMax + 1] && w.dLen[..][..dMax + 1] == w.dLen[..dMax + 1];
      ghost var T, tokens, at := b.T, b.tokens, |o.stream|;
      assert sent == Sent(w.lLen[..lMax + 1], w.dLen[..dMax + 1], w.blLen[..19]);
      body := SendDynamic(o, b, w.lLen[..], b.lFreq[..], lMax, w.dLen[..], b.dFreq[..], dMax, w.blLen[..19],
          w.blFreq[..],
                          p.maxBlindex, p.opt, p.stat, hist);
      DynamicSent(p, body, T, tokens, sent, buf, at);
    }

    method BuildPlan() returns (p: Plan)
      requires Apart() && Fixed() && b.Valid() && forall s :: 0 <= s < 19 ==> w.blFreq[s] == 0
      modifies b.lFreq, b.dFreq, w.lLen, w.dLen, w.blFreq, w.blLen, w.heap, w.depth, w.blCount
      ensures Built(p)
    {
      var lMax, dMax, maxBlindex, opt, stat := BuildAll(ld, dd, bd, b, w);
      p := Plan(lMax, dMax, maxBlindex, opt, stat);
    }

    /** The trees built have the sizes planned. */
    lemma PlanIsExact(p: Plan)
      requires Built(p)
      ensures ExactlySized(p, b.T, b.tokens, TreesOf(p)) && p.stat <= 14 * 8192 + 18 * 8191
    {
      assert Same(p, p);
      SizedExactly(p, b.T, b.tokens, TreesOf(p), b.lFreq[..], b.dFreq[..], w.blFreq[..]);
    }

    /** Flags stored, trees built. */
    method Prepare() returns (p: Plan, ghost sent: Sent)
      requires Valid()
      modifies b.flagBuf, b.lFreq, b.dFreq, w.lLen, w.dLen, w.blFreq, w.blLen, w.heap, w.depth, w.blCount
      ensures Loaded(o, b) && Built(p) && p.stat <= 14 * 8192 + 18 * 8191 && ExactlySized(p, b.T, b.tokens, sent)
      ensures sent == TreesOf(p)
    {
      StoreFlags(b);
      assert Loaded(o, b);
      p := BuildPlan();
      sent := TreesOf(p);
      PlanIsExact(p);
    }

    /** What sending takes; taken apart only where `Chosen` is mentioned. */
    ghost predicate Prepared(kind: nat, p: Plan, sent: Sent, storedLen: nat, atHand: bool)
      reads this, o, o.outbuf, b, b.lBuf, b.dBuf, b.flagBuf, b.lFreq, b.dFreq, w.lLen, w.dLen, w.blFreq, w.blLen
    {
      forall k: nat {:trigger Chosen(k, kind)} :: Chosen(k, kind) ==> Prepares(kind, p, sent, storedLen, atHand)
    }

    ghost predicate Prepares(kind: nat, p: Plan, sent: Sent, storedLen: nat, atHand: bool)
      reads this, o, o.outbuf, b, b.lBuf, b.dBuf, b.flagBuf, b.lFreq, b.dFreq, w.lLen, w.dLen, w.blFreq, w.blLen
    {
      && Apart() && Fixed() && o.Valid() && Loaded(o, b) && Built(p) && ExactlySized(p, b.T, b.tokens, sent)
      && sent == TreesOf(p)
      && kind < 3 && kind == Choice(p.opt, p.stat, storedLen, atHand)
      && (kind == STORED ==> atHand && storedLen < 0x1_0000)
    }

    /** Trees built, and the form chosen. */
    method PrepareForm(storedLen: nat, atHand: bool) returns (kind: nat, p: Plan, ghost sent: Sent)
      requires Valid()
      modifies b.flagBuf, b.lFreq, b.dFreq, w.lLen, w.dLen, w.blFreq, w.blLen, w.heap, w.depth, w.blCount
      ensures b.T.Right() && o.stream == old(o.stream) && b.tokens == old(b.tokens)
      ensures Prepared(kind, p, sent, storedLen, atHand)
    {
      p, sent := Prepare();
      kind := Decide(p, storedLen, atHand);
    }

    /** Header and body of the form chosen. */
    method Send(kind: nat, p: Plan, ghost sent: Sent, buf: Option<seq<bv8>>, ghost storedLen: nat, eof: bool,
                ghost hist: seq<bv8>)
      returns (ghost body: seq<bool>)
      requires Apart() && Fixed() && o.Valid() && Loaded(o, b) && kind < 3 && Built(p) && InReach(b.tokens, hist)
      requires ExactlySized(p, b.T, b.tokens, sent) && sent == TreesOf(p)
      requires kind == STORED ==>
               buf.Some? && |buf.value| == storedLen < 0x1_0000 && Expand(b.tokens, hist) == hist + buf.value
      modifies o, o.outbuf
      ensures o.Valid() && o.stream == old(o.stream) + BlockBits(body, kind, eof)
      ensures Carried(body, kind, |old(o.stream)| + 3, b.tokens, hist)
      ensures |body| == BodySize(kind, |old(o.stream)| + 3, p.opt, p.stat, storedLen)
      ensures SentAs(kind, p, body, b.T, b.tokens, sent, buf, |old(o.stream)| + 3)
    {
      SendHeader(o, kind, eof);
      body := SendBody(kind, p, sent, buf, storedLen, hist);
      Regroup(old(o.stream), Lsb(HeaderValue(kind, eof), 3), body);
    }

    /** Header and body of the form the sizes choose. */
    method SendChosen(kind: nat, p: Plan, ghost sent: Sent, buf: Option<seq<bv8>>, ghost storedLen: nat, eof: bool,
                      ghost hist: seq<bv8>)
      returns (ghost body: seq<bool>)
      requires Prepared(kind, p, sent, storedLen, buf.Some?) && InReach(b.tokens, hist)
      requires buf.Some? ==> |buf.value| == storedLen && Expand(b.tokens, hist) == hist + buf.value
      modifies o, o.outbuf
      ensures o.Valid() && o.stream == old(o.stream) + BlockBits(body, kind, eof)
      ensures Formed(kind, p, body, sent, b.T, b.tokens, |old(o.stream)| + 3, storedLen, buf.Some?, hist)
      ensures SentAs(kind, p, body, b.T, b.tokens, sent, buf, |old(o.stream)| + 3)
    {
      assert Chosen(kind, kind);
      ghost var tokens, at := b.tokens, |o.stream| + 3;
      body := Send(kind, p, sent, buf, storedLen, eof, hist);
      assert b.tokens == tokens;
      BlockFormed(kind, p, body, sent, b.T, tokens, at, storedLen, buf.Some?, hist);
    }

    /** Trees, choice, header and body. */
    method Emit(buf: Option<seq<bv8>>, storedLen: nat, eof: bool, ghost hist: seq<bv8>)
      returns (kind: nat, p: Plan, ghost body: seq<bool>, ghost sent: Sent)
      requires Valid() && (buf.Some? ==> |buf.value| == storedLen && Expand(b.tokens, hist) == hist + buf.value)
      requires InReach(b.tokens, hist)
      modifies o, o.outbuf, b.flagBuf, b.lFreq, b.dFreq, w.lLen, w.dLen, w.blFreq, w.blLen, w.heap, w.depth, w.blCount
      ensures b.T.Right() && o.Valid() && o.stream == old(o.stream) + BlockBits(body, kind, eof)
      ensures Formed(kind, p, body, sent, b.T, b.tokens, |old(o.stream)| + 3, storedLen, buf.Some?, hist)
      ensures SentAs(kind, p, body, b.T, b.tokens, sent, buf, |old(o.stream)| + 3)
    {
      ghost var tokens, before := b.tokens, o.stream;
      kind, p, sent := PrepareForm(storedLen, buf.Some?);
      assert b.tokens == tokens && o.stream == before;
      body := SendChosen(kind, p, sent, buf, storedLen, eof, hist);
    }

    /** `init_block`. */
    method Reset()
      requires Apart() && Fixed() && o.Valid() && b.T.Right()
      modifies b, b.lFreq, b.dFreq, w.blFreq
      ensures Valid() && b.tokens == []
    {
      b.InitBlock();
      ClearFreq(w.blFreq, 19);
    }

    /** At the end of the stream, its last bits. */
    method EndIf(eof: bool) returns (ghost pad: nat)
      requires Valid()
      modifies o, o.outbuf
      ensures Valid() && o.stream == old(o.stream) + Zeros(pad)
      ensures (if eof then o.bi_valid == 0 && pad < 8 else pad == 0)
    {
      pad := 0;
      if eof {
        pad := o.WindUp();
      } else {
        assert o.stream + Zeros(0) == o.stream;
      }
    }

    /** The tallies start again, and at the end of the stream its last bits go out. */
    method StartAgain(eof: bool) returns (ghost pad: nat)
      requires Apart() && Fixed() && o.Valid() && b.T.Right()
      modifies o, o.outbuf, b, b.lFreq, b.dFreq, w.blFreq
      ensures Valid() && b.tokens == [] && o.stream == old(o.stream) + Zeros(pad)
      ensures (if eof then o.bi_valid == 0 && pad < 8 else pad == 0)
    {
      Reset();
      pad := EndIf(eof);
    }

    /** `flush_block`: the tallied tokens go out as one block that reads back as what they stand for, in the form
        that `Choice` picks from the exact sizes of the others; then the tallies start again. */
    method Flush(buf: Option<seq<bv8>>, storedLen: nat, eof: bool, ghost hist: seq<bv8>)
      returns (kind: nat, p: Plan, ghost body: seq<bool>, ghost pad: nat, ghost sent: Sent)
      requires Valid() && (buf.Some? ==> |buf.value| == storedLen && Expand(b.tokens, hist) == hist + buf.value)
      requires InReach(b.tokens, hist)
      modifies o, o.outbuf, b, b.flagBuf, b.lFreq, b.dFreq, w.lLen, w.dLen, w.blFreq, w.blLen, w.heap, w.depth,
               w.blCount
      ensures Valid() && b.tokens == []
      ensures Formed(kind, p, body, sent, b.T, old(b.tokens), |old(o.stream)| + 3, storedLen, buf.Some?, hist)
      ensures SentAs(kind, p, body, b.T, old(b.tokens), sent, buf, |old(o.stream)| + 3)
      ensures o.stream == old(o.stream) + BlockBits(body, kind, eof) + Zeros(pad)
      ensures (if eof then o.bi_valid == 0 && pad < 8 else pad == 0)
    {
      kind, p, body, sent := Emit(buf, storedLen, eof, hist);
      pad := StartAgain(eof);
    }

    /** `ct_tally` on all tokens of a block. */
    method TallyAll(tokens: seq<Token>)
      requires Valid() && b.tokens == [] && AllOk(tokens) && |tokens| < LIT_BUFSIZE
      modifies b, b.lBuf, b.dBuf, b.flagBuf, b.lFreq, b.dFreq
      ensures Valid() && b.tokens == tokens
    {
      b.AddAll(tokens);
    }
  }

  method MakeFixed() returns (fixed: CB.Trees)
    ensures IsFixed(fixed)
  {
    var lc := MakeFixedL();
    var dc := MakeFixedD();
    fixed := CB.Trees(FixedL(), lc, FixedD(), dc);
  }

  method NewParts(T: Tables) returns (o: LW.Output, b: Buffers, w: Work)
    requires T.Right()
    ensures o.Valid() && o.stream == [] && o.Bytes() == [] && b.Valid() && b.tokens == [] && w.Shape()
    ensures forall s :: 0 <= s < 19 ==> w.blFreq[s] == 0
    ensures b.Parts() !! w.All() && o.outbuf !in w.All() && o.outbuf !in b.Parts()
    ensures fresh(o) && fresh(o.outbuf) && fresh(b) && fresh(b.Parts()) && fresh(w.All())
  {
    o := new LW.Output();
    b := new Buffers(T);
    ghost var parts := b.Parts();
    w := new Work();
    forall x | x in parts
      ensures x !in w.All()
    {
    }
  }

  /** Everything as `bi_init` and `ct_init` leave it. */
  method NewCoder() returns (c: Coder)
    ensures c.Valid() && c.o.stream == [] && c.o.Bytes() == [] && c.b.tokens == [] && fresh(c)
    ensures fresh(c.o) && fresh(c.o.outbuf) && fresh(c.b) && fresh(c.b.Parts()) && fresh(c.w.All())
  {
    var fixed := MakeFixed();
    var T := MakeTables();
    var o, b, w := NewParts(T);
    c := new Coder(o, b, w, LDescription(), DDescription(), BlDescription(), fixed);
  }
}
