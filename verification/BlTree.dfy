/** `build_bl_tree` and `send_all_trees`: the tree for the code lengths, its exact price, and the header. */
module BlTree {
  import opened Powers
  import opened PrefixCode
  import opened LsbFirst
  import opened BitStrings
  import opened CodeLengths
  import opened SendTree
  import opened DynamicTrees
  import opened Inflate
  import opened GenBitlen
  import opened Pricing
  import opened Occurrences
  import LW = LsbWriter
  import BT = BuildTree

  ghost predicate IsBlDesc(d: Desc) {
    d.elems == 19 && d.extraBase == 0 && |d.extraBits| == 19 && d.maxLength == 7 && d.staticLens.None? &&
    forall s :: 0 <= s < 19 ==> d.extraBits[s] == ClExtra(s)
  }

  lemma BareJoin(a: seq<ClSym>, b: seq<ClSym>)
    ensures Bare(a + b) == Bare(a) + Bare(b)
  {
  }

  /** Both trees counted, one after the other. */
  lemma BothCounted(f0: seq<nat>, f1: seq<nat>, f2: seq<nat>, a: seq<ClSym>, b: seq<ClSym>)
    requires Counts(f0, f1, a) && Counts(f1, f2, b) && forall s :: 0 <= s < 19 ==> f0[s] == 0
    ensures IsCount(f2, Bare(a + b), 19)
  {
    forall s | 0 <= s < 19
      ensures f2[s] == Count(Bare(a + b), s)
    {
      BareJoin(a, b);
      CountJoin(Bare(a), Bare(b), s);
    }
  }

  /** The bits of the code lengths are the price of their symbols. */
  lemma {:induction false} ClBitsPrice(d: Desc, syms: seq<ClSym>, bl: seq<nat>)
    requires IsBlDesc(d) && HaveCodes(syms, bl) && |bl| == 19
    ensures (forall i :: 0 <= i < |syms| ==> Bare(syms)[i] < 19) && |ClBits(syms, bl)| == Price(d, bl, Bare(syms))
  {
    if syms != [] {
      var init, x := syms[..|syms| - 1], syms[|syms| - 1];
      ClBitsPrice(d, init, bl);
      assert HasCode(x, bl);
      assert Bare(syms) == Bare(init) + [x.sym];
      PriceMore(d, bl, Bare(init), x.sym);
    }
  }

  /** A tree built for the counts has a code for every symbol counted. */
  lemma BuiltCovers(freq: seq<nat>, bl: seq<nat>, syms: seq<ClSym>)
    requires |bl| == 19 && IsCount(freq, Bare(syms), 19) && AllSendable(syms)
    requires forall n :: 0 <= n < 19 && freq[n] > 0 ==> bl[n] > 0
    ensures HaveCodes(syms, bl)
  {
    forall i | 0 <= i < |syms|
      ensures HasCode(syms[i], bl)
    {
      assert Sendable(syms[i]);
      CountIn(Bare(syms), Bare(syms)[i]);
      assert Bare(syms)[i] == syms[i].sym;
    }
  }

  // ----- at least four code length codes -----

  ghost predicate HasLength(syms: seq<ClSym>) {
    exists i :: 0 <= i < |syms| && 1 <= syms[i].sym <= 15
  }

  lemma HasLengthFront(a: seq<ClSym>, b: seq<ClSym>)
    ensures HasLength(a) || HasLength(b) ==> HasLength(a + b)
  {
    if HasLength(a) {
      var i :| 0 <= i < |a| && 1 <= a[i].sym <= 15;
      assert (a + b)[i] == a[i];
    } else if HasLength(b) {
      var i :| 0 <= i < |b| && 1 <= b[i].sym <= 15;
      assert (a + b)[|a| + i] == b[i];
    }
  }

  /** The first length that is not zero is sent as itself. */
  lemma {:induction false} FirstIsSent(lens: seq<nat>, start: nat, prev: int, k: nat)
    requires (forall i :: 0 <= i < |lens| ==> lens[i] < 16) && start <= k < |lens| && lens[k] != 0 && prev <= 0
    ensures HasLength(Syms(lens, start, prev))
    decreases |lens| - start
  {
    var cur := lens[start];
    var c := RunFrom(lens, start, 1, MaxCount(cur, prev));
    RunIsEqual(lens, start, 1, MaxCount(cur, prev));
    var piece, more := Piece(cur, prev, c), Syms(lens, start + c, cur);
    if cur != 0 {
      assert piece[0].sym == cur;
      assert HasLength(piece);
    } else {
      assert k >= start + c;
      FirstIsSent(lens, start + c, 0, k);
    }
    HasLengthFront(piece, more);
  }

  lemma LengthsAreUsed(bl: seq<nat>, syms: seq<ClSym>)
    requires |bl| == 19 && HaveCodes(syms, bl) && HasLength(syms)
    ensures exists r :: 3 <= r < 19 && bl[BL_ORDER[r]] != 0
  {
    var i :| 0 <= i < |syms| && 1 <= syms[i].sym <= 15;
    assert HasCode(syms[i], bl);
    var s := syms[i].sym;
    OrderInverts(s);
    assert bl[BL_ORDER[BL_PLACE[s]]] != 0;
  }

  /** The last code length code that has to be sent. */
  method LastUsed(bl: seq<nat>) returns (maxBlindex: nat)
    requires |bl| == 19 && exists r :: 3 <= r < 19 && bl[BL_ORDER[r]] != 0
    ensures 3 <= maxBlindex < 19 && RestUnused(bl, maxBlindex + 1)
  {
    ghost var top :| 3 <= top < 19 && bl[BL_ORDER[top]] != 0;
    var i: int := 19 - 1;
    while i >= 3
      invariant top <= i < 19 && forall r :: i < r < 19 ==> bl[BL_ORDER[r]] == 0
    {
      if bl[BL_ORDER[i]] != 0 {
        break;
      }
      i := i - 1;
    }
    maxBlindex := i;
  }

  // ----- the header -----

  lemma TreesSize(d: Desc, l: seq<nat>, dd: seq<nat>, bl: seq<nat>, blcodes: nat)
    requires IsBlDesc(d) && 257 <= |l| && 1 <= |dd| && |bl| == 19 && 4 <= blcodes <= 19
    requires HaveCodes(Syms(l, 0, -1), bl) && HaveCodes(Syms(dd, 0, -1), bl)
    ensures var list := Bare(Syms(l, 0, -1) + Syms(dd, 0, -1));
            (forall i :: 0 <= i < |list| ==> list[i] < 19)
                && |TreesBits(l, dd, bl, blcodes)| == Price(d, bl, list) + 3 * blcodes + 5 + 5 + 4
  {
    var a, b := Syms(l, 0, -1), Syms(dd, 0, -1);
    ClBitsJoin(a, b, bl);
    ClBitsPrice(d, a + b, bl);
  }

  /** `send_all_trees`. */
  method SendAllTrees(o: LW.Output, lLen: seq<nat>, lcodes: nat, dLen: seq<nat>, dcodes: nat, bl: seq<nat>,
                      blc: seq<nat>, blcodes: nat)
    requires o.Valid() && TreeCodes(bl, blc) && |bl| == 19 && Fits(bl, 7)
    requires 257 <= lcodes < |lLen| && lcodes < 289 && Lengths(lLen[..lcodes]) && Guarded(lLen, lLen[..lcodes])
    requires 1 <= dcodes < |dLen| && dcodes < 33 && Lengths(dLen[..dcodes]) && Guarded(dLen, dLen[..dcodes])
    requires 4 <= blcodes <= 19
    requires HaveCodes(Syms(lLen[..lcodes], 0, -1), bl) && HaveCodes(Syms(dLen[..dcodes], 0, -1), bl)
    modifies o, o.outbuf
    ensures o.Valid() && o.stream == old(o.stream) + TreesBits(lLen[..lcodes], dLen[..dcodes], bl, blcodes)
  {
    ghost var l: seq<nat>, d: seq<nat> := lLen[..lcodes], dLen[..dcodes];
    SendCounts(o, lcodes, dcodes, blcodes);
    SendOrder(o, bl, blcodes);
    SendLengths(o, lLen, lcodes - 1, bl, blc);
    SendLengths(o, dLen, dcodes - 1, bl, blc);
    RegroupFive(old(o.stream), CountBits(lcodes, dcodes, blcodes), ThreeBits(InOrder(bl, blcodes)),
        ClBits(Syms(l, 0, -1), bl), ClBits(Syms(d, 0, -1), bl));
  }

  method SendCounts(o: LW.Output, lcodes: nat, dcodes: nat, blcodes: nat)
    requires o.Valid() && 257 <= lcodes < 289 && 1 <= dcodes < 33 && 4 <= blcodes < 20
    modifies o, o.outbuf
    ensures o.Valid() && o.stream == old(o.stream) + CountBits(lcodes, dcodes, blcodes)
  {
    CountsFit();
    o.SendBits(lcodes - 257, 5);
    o.SendBits(dcodes - 1, 5);
    o.SendBits(blcodes - 4, 4);
    Regroup(old(o.stream), Lsb(lcodes - 257, 5), Lsb(dcodes - 1, 5));
    Regroup(old(o.stream), Lsb(lcodes - 257, 5) + Lsb(dcodes - 1, 5), Lsb(blcodes - 4, 4));
  }

  lemma CountsFit()
    ensures Pow2(5) == 32 && Pow2(4) == 16
  {
    Pow2Values();
  }

  lemma OrderMore(bl: seq<nat>, n: nat)
    requires |bl| == 19 && n < 19
    ensures BL_ORDER[n] < 19 && InOrder(bl, n + 1) == InOrder(bl, n) + [bl[BL_ORDER[n]]]
  {
  }

  method SendOrder(o: LW.Output, bl: seq<nat>, blcodes: nat)
    requires o.Valid() && |bl| == 19 && blcodes <= 19 && forall i :: 0 <= i < 19 ==> bl[i] <= 7
    modifies o, o.outbuf
    ensures o.Valid() && o.stream == old(o.stream) + ThreeBits(InOrder(bl, blcodes))
  {
    ghost var s0 := o.stream;
    for rank := 0 to blcodes
      invariant o.Valid() && o.stream == s0 + ThreeBits(InOrder(bl, rank))
    {
      OrderMore(bl, rank);
      var len := bl[BL_ORDER[rank]];
      SendRank(o, len, s0, InOrder(bl, rank));
    }
  }

  method SendRank(o: LW.Output, len: nat, ghost s0: seq<bool>, ghost nums: seq<nat>)
    requires o.Valid() && len < 8 && o.stream == s0 + ThreeBits(nums)
    modifies o, o.outbuf
    ensures o.Valid() && o.stream == s0 + ThreeBits(nums + [len])
  {
    Pow2Values();
    ThreeBitsMore(nums, len);
    Regroup(s0, ThreeBits(nums), Lsb(len, 3));
    o.SendBits(len, 3);
  }

  // ----- building -----

  /** What `build_bl_tree` leaves: a tree that covers both vectors of lengths, and `opt` raised by
      exactly the bits of the header that will carry them. */
  ghost predicate HeaderReady(l: seq<nat>, d: seq<nat>, bl: seq<nat>, blc: seq<nat>, maxBlindex: nat, opt0: nat,
                              opt: nat) {
    && 257 <= |l| && 1 <= |d| && |bl| == 19 && 3 <= maxBlindex < 19
    && HaveCodes(Syms(l, 0, -1), bl) && HaveCodes(Syms(d, 0, -1), bl)
    && TreeCodes(bl, blc) && Fits(bl, 7) && RestUnused(bl, maxBlindex + 1)
    && opt == Add32(opt0, |TreesBits(l, d, bl, maxBlindex + 1)|)
  }

  lemma CodesJoined(a: seq<ClSym>, b: seq<ClSym>, bl: seq<nat>)
    requires HaveCodes(a + b, bl)
    ensures HaveCodes(a, bl) && HaveCodes(b, bl)
  {
    forall i | 0 <= i < |a|
      ensures HasCode(a[i], bl)
    {
      assert a[i] == (a + b)[i];
    }
    forall i | 0 <= i < |b|
      ensures HasCode(b[i], bl)
    {
      assert b[i] == (a + b)[|a| + i];
    }
  }

  /** The built tree covers the two vectors. */
  lemma BlCovers(bd: Desc, l: seq<nat>, d: seq<nat>, freq: seq<nat>, bl: seq<nat>)
    requires |bl| == 19 && Lengths(l) && Lengths(d) && 256 < |l| && l[256] != 0
    requires IsCount(freq, Bare(Syms(l, 0, -1) + Syms(d, 0, -1)), 19)
    requires forall n :: 0 <= n < 19 && freq[n] > 0 ==> bl[n] > 0
    ensures HaveCodes(Syms(l, 0, -1), bl) && HaveCodes(Syms(d, 0, -1), bl)
    ensures HaveCodes(Syms(l, 0, -1) + Syms(d, 0, -1), bl)
    ensures exists r :: 3 <= r < 19 && bl[BL_ORDER[r]] != 0
  {
    var a, b := Syms(l, 0, -1), Syms(d, 0, -1);
    SymsSendable(l, 0, -1);
    SymsSendable(d, 0, -1);
    BuiltCovers(freq, bl, a + b);
    CodesJoined(a, b, bl);
    FirstIsSent(l, 0, -1, 256);
    LengthsAreUsed(bl, a);
  }

  /** The price that was added is the size of the header. */
  lemma BlPrice(bd: Desc, a: seq<ClSym>, b: seq<ClSym>, freq: seq<nat>, bl: seq<nat>, blcodes: nat, opt0: nat,
                opt1: nat, size: nat)
    requires IsBlDesc(bd) && |bl| == 19 && IsCount(freq, Bare(a + b), 19) && (forall n :: 0 <= n < 19 ==> bl[n] <= 7)
    requires opt1 == Add32(opt0, Cost(bd, freq, bl, 19))
    requires HaveCodes(a, bl) && HaveCodes(b, bl)
    requires (forall i :: 0 <= i < |Bare(a + b)| ==> Bare(a + b)[i] < 19)
    requires size == Price(bd, bl, Bare(a + b)) + 3 * blcodes + 5 + 5 + 4
    ensures Add32(opt1, 3 * blcodes + 5 + 5 + 4) == Add32(opt0, size)
  {
    ListPriced(bd, a, b, bl);
    CostIsPrice(bd, freq, bl, Bare(a + b));
    Add32Twice(opt0, Cost(bd, freq, bl, 19), 3 * blcodes + 5 + 5 + 4);
  }

  lemma ListPriced(bd: Desc, a: seq<ClSym>, b: seq<ClSym>, bl: seq<nat>)
    requires IsBlDesc(bd) && |bl| == 19 && HaveCodes(a, bl) && HaveCodes(b, bl)
    requires forall n :: 0 <= n < 19 ==> bl[n] <= 7
    ensures Priced(bd, bl, Bare(a + b))
  {
    forall i | 0 <= i < |a + b|
      ensures Bare(a + b)[i] < 19 && Assigned(bl[Bare(a + b)[i]])
    {
      assert if i < |a| then HasCode(a[i], bl) else HasCode(b[i - |a|], bl);
    }
  }

  /** Counts the symbols of both vectors, which starts from nothing. */
  method ScanBoth(lLen: array<nat>, lMax: nat, dLen: array<nat>, dMax: nat, blFreq: array<nat>)
    requires lLen != dLen && blFreq !in {lLen, dLen} && blFreq.Length >= 19
    requires lMax + 1 < lLen.Length && Lengths(lLen[..lMax + 1]) && dMax + 1 < dLen.Length && Lengths(dLen[..dMax + 1])
    requires forall s :: 0 <= s < 19 ==> blFreq[s] == 0
    modifies lLen, dLen, blFreq
    ensures Guarded(lLen[..], old(lLen[..lMax + 1])) && Guarded(dLen[..], old(dLen[..dMax + 1]))
    ensures IsCount(blFreq[..], Bare(Syms(old(lLen[..lMax + 1]), 0, -1) + Syms(old(dLen[..dMax + 1]), 0, -1)), 19)
  {
    ghost var l: seq<nat>, d: seq<nat>, f0: seq<nat> := lLen[..lMax + 1], dLen[..dMax + 1], blFreq[..];
    ScanTree(lLen, lMax, blFreq);
    ghost var f1: seq<nat> := blFreq[..];
    assert dLen[..dMax + 1] == d;
    ScanTree(dLen, dMax, blFreq);
    BothCounted(f0, f1, blFreq[..], Syms(l, 0, -1), Syms(d, 0, -1));
  }

  lemma BuiltCodes(bd: Desc, freq: seq<nat>, bl: seq<nat>, blc: seq<nat>, blMax: int, opt0: nat, opt1: nat, stat: nat)
    requires IsBlDesc(bd) && BT.Built(bd, freq, bl, blc, blMax, opt1, stat, opt0, 0)
    ensures |bl| == 19 && TreeCodes(bl, blc) && Fits(bl, 7) && (forall n :: 0 <= n < 19 ==> bl[n] <= 7)
    ensures (forall n :: 0 <= n < 19 && freq[n] > 0 ==> bl[n] > 0) && opt1 == Add32(opt0, Cost(bd, freq, bl, 19))
  {
  }

  /** From the built tree to the ready header. */
  lemma BuiltReady(bd: Desc, l: seq<nat>, d: seq<nat>, freq: seq<nat>, bl: seq<nat>, blc: seq<nat>, maxBlindex: nat,
                   opt0: nat, opt1: nat)
    requires IsBlDesc(bd) && Lengths(l) && Lengths(d) && 257 <= |l| && l[256] != 0 && |bl| == 19
    requires IsCount(freq, Bare(Syms(l, 0, -1) + Syms(d, 0, -1)), 19)
    requires TreeCodes(bl, blc) && Fits(bl, 7) && (forall n :: 0 <= n < 19 ==> bl[n] <= 7)
    requires (forall n :: 0 <= n < 19 && freq[n] > 0 ==> bl[n] > 0) && opt1 == Add32(opt0, Cost(bd, freq, bl, 19))
    requires 3 <= maxBlindex < 19 && RestUnused(bl, maxBlindex + 1)
    ensures HeaderReady(l, d, bl, blc, maxBlindex, opt0, Add32(opt1, 3 * (maxBlindex + 1) + 5 + 5 + 4))
  {
    BlCovers(bd, l, d, freq, bl);
    HeaderPrice(bd, l, d, freq, bl, maxBlindex + 1, opt0, opt1);
  }

  lemma HeaderPrice(bd: Desc, l: seq<nat>, d: seq<nat>, freq: seq<nat>, bl: seq<nat>, blcodes: nat, opt0: nat,
                    opt1: nat)
    requires IsBlDesc(bd) && 257 <= |l| && 1 <= |d| && |bl| == 19 && 4 <= blcodes <= 19
    requires (forall n :: 0 <= n < 19 ==> bl[n] <= 7)
    requires HaveCodes(Syms(l, 0, -1), bl) && HaveCodes(Syms(d, 0, -1), bl)
    requires IsCount(freq, Bare(Syms(l, 0, -1) + Syms(d, 0, -1)), 19) && opt1 == Add32(opt0, Cost(bd, freq, bl, 19))
    ensures Add32(opt1, 3 * blcodes + 5 + 5 + 4) == Add32(opt0, |TreesBits(l, d, bl, blcodes)|)
  {
    TreesSize(bd, l, d, bl, blcodes);
    BlPrice(bd, Syms(l, 0, -1), Syms(d, 0, -1), freq, bl, blcodes, opt0, opt1, |TreesBits(l, d, bl, blcodes)|);
  }

  /** The tree for counted symbols. */
  method BuildCounted(bd: Desc, blFreq: array<nat>, blLen: array<nat>, heap: array<nat>, depth: array<BT.Byte>,
                      blCount: array<nat>, opt0: nat,
                      ghost l: seq<nat>, ghost d: seq<nat>)
    returns (maxBlindex: nat, opt: nat)
    requires IsBlDesc(bd) && bd.Valid() && opt0 < TWO32 && heap.Length == depth.Length == HEAP_SIZE
    requires blCount.Length == MAX_BITS + 1
    requires blLen != blFreq && heap !in {blFreq, blLen} && blCount !in {blFreq, blLen, heap}
    requires blFreq.Length >= 38 && blLen.Length >= 38 && Lengths(l) && Lengths(d) && 257 <= |l| && l[256] != 0
    requires IsCount(blFreq[..], Bare(Syms(l, 0, -1) + Syms(d, 0, -1)), 19)
    modifies blFreq, blLen, heap, depth, blCount
    ensures HeaderReady(l, d, blLen[..19], blFreq[..], maxBlindex, opt0, opt)
  {
    ghost var freq: seq<nat> := blFreq[..];
    var blMax, stat, over;
    blMax, opt, stat, over := BT.Build(bd, blFreq, blLen, heap, depth, blCount, opt0, 0);
    var bl: seq<nat> := blLen[..19];
    BuiltCodes(bd, freq, bl, blFreq[..], blMax, opt0, opt, stat);
    BlCovers(bd, l, d, freq, bl);
    maxBlindex := LastUsed(bl);
    BuiltReady(bd, l, d, freq, bl, blFreq[..], maxBlindex, opt0, opt);
    opt := Add32(opt, 3 * (maxBlindex + 1) + 5 + 5 + 4);
  }

  /** `build_bl_tree`. */
  method Build(bd: Desc, lLen: array<nat>, lMax: nat, dLen: array<nat>, dMax: nat, blFreq: array<nat>,
               blLen: array<nat>,
               heap: array<nat>, depth: array<BT.Byte>, blCount: array<nat>, opt0: nat)
    returns (maxBlindex: nat, opt: nat)
    requires IsBlDesc(bd) && bd.Valid() && opt0 < TWO32 && heap.Length == depth.Length == HEAP_SIZE
    requires blCount.Length == MAX_BITS + 1
    requires lLen != dLen && blFreq !in {lLen, dLen} && blLen !in {lLen, dLen, blFreq}
    requires heap !in {lLen, dLen, blFreq, blLen}
    requires blCount !in {lLen, dLen, blFreq, blLen, heap}
    requires blFreq.Length >= 38 && blLen.Length >= 38 && forall s :: 0 <= s < 19 ==> blFreq[s] == 0
    requires 256 <= lMax && lMax + 1 < lLen.Length && Lengths(lLen[..lMax + 1]) && lLen[256] != 0
    requires dMax + 1 < dLen.Length && Lengths(dLen[..dMax + 1])
    modifies lLen, dLen, blFreq, blLen, heap, depth, blCount
    ensures Guarded(lLen[..], old(lLen[..lMax + 1])) && Guarded(dLen[..], old(dLen[..dMax + 1]))
    ensures HeaderReady(old(lLen[..lMax + 1]), old(dLen[..dMax + 1]), blLen[..19], blFreq[..], maxBlindex, opt0, opt)
  {
    ghost var l: seq<nat>, d: seq<nat> := lLen[..lMax + 1], dLen[..dMax + 1];
    ScanBoth(lLen, lMax, dLen, dMax, blFreq);
    maxBlindex, opt := BuildCounted(bd, blFreq, blLen, heap, depth, blCount, opt0, l, d);
  }
}
