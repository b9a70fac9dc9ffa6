/** `flush_block`: the trees for the buffered tokens, the exact sizes of the three ways to send them, and the block
    itself. */
module FlushBlock {
  import opened Powers
  import opened PrefixCode
  import opened LsbFirst
  import opened BitOps
  import opened BitStrings
  import opened Tokens
  import opened CodeLengths
  import opened SendTree
  import opened DeflateFormat
  import opened DynamicTrees
  import opened StaticTrees
  import opened Inflate
  import opened GenBitlen
  import opened Pricing
  import opened Occurrences
  import opened TokenSymbols
  import opened Tally
  import LsbOps
  import LW = LsbWriter
  import BT = BuildTree
  import CQ = CodeQuality
  import BL = BlTree

  // ----- what the built trees are good for -----

  /** A tree built for a list of symbols prices and covers it. */
  lemma BuiltPrice(d: Desc, freq: seq<nat>, lens: seq<nat>, fc: seq<nat>, maxCode: int, list: seq<nat>,
                   opt: nat, stat: nat, opt0: nat, stat0: nat)
    requires BT.Built(d, freq, lens, fc, maxCode, opt, stat, opt0, stat0) && IsCount(freq, list, d.elems)
    requires (forall i :: 0 <= i < |list| ==> list[i] < d.elems) && d.staticLens.Some?
    ensures Priced(d, lens, list) && (forall i :: 0 <= i < |list| ==> lens[list[i]] > 0)
    ensures opt == Add32(opt0, Price(d, lens, list)) && stat == Add32(stat0, Price(d, d.staticLens.value, list))
  {
    forall i | 0 <= i < |list|
      ensures lens[list[i]] > 0 && Assigned(lens[list[i]])
    {
      CountIn(list, list[i]);
    }
    CostIsPrice(d, freq, lens, list);
    StaticIsPrice(d, freq, lens, list);
  }

  lemma {:induction false} PriceBound(d: Desc, lens: seq<nat>, list: seq<nat>, most: nat)
    requires d.elems <= |lens| && d.elems == d.extraBase + |d.extraBits|
    requires forall i :: 0 <= i < |list| ==> list[i] < d.elems
    requires forall n :: 0 <= n < d.elems ==> lens[n] + d.Extra(n) <= most
    ensures Price(d, lens, list) <= most * |list|
    decreases |list|
  {
    if list != [] {
      PriceBound(d, lens, list[..|list| - 1], most);
      MostMore(|list| - 1, most);
    }
  }

  lemma MostMore(n: nat, most: nat)
    ensures most * n + most == most * (n + 1)
  {
  }

  /** Trees that have a code for every symbol of the tokens and for the end of the block. */
  lemma ListsCovered(T: Tables, tokens: seq<Token>, l: seq<nat>, d: seq<nat>)
    requires T.Right() && AllOk(tokens) && 286 <= |l| && 30 <= |d|
    requires var list := LList(SymsOf(T, tokens)); forall i :: 0 <= i < |list| ==> list[i] < |l| && l[list[i]] > 0
    requires var list := DList(SymsOf(T, tokens)); forall i :: 0 <= i < |list| ==> list[i] < |d| && d[list[i]] > 0
    ensures AllCoverable(SymsOf(T, tokens), l, d)
  {
    var syms := SymsOf(T, tokens);
    forall i | 0 <= i < |syms|
      ensures Coverable(syms[i], l, d)
    {
      assert LList(syms)[i] == LSym(syms[i]);
      if syms[i].Pair? {
        var k := DAt(syms, i);
      }
    }
  }

  lemma {:induction false} DAt(syms: seq<Symbols>, i: nat) returns (k: nat)
    requires i < |syms| && syms[i].Pair?
    ensures k < |DList(syms)| && DList(syms)[k] == syms[i].dc
    decreases |syms|
  {
    if i == |syms| - 1 {
      k := |DList(syms[..|syms| - 1])|;
    } else {
      k := DAt(syms[..|syms| - 1], i);
    }
  }

  /** The symbols with a code are those that occur and those made up because there are too few. */
  ghost predicate Supports(freq: seq<nat>, lens: seq<nat>, elems: nat) {
    && |lens| <= elems <= |freq|
    && forall n :: 0 <= n < elems ==> ((n < |lens| && lens[n] > 0) <==> freq[n] > 0 || BT.IsMadeUp(freq, elems, n))
  }

  ghost predicate CodesFor(T: Tables, tokens: seq<Token>, l: seq<nat>, d: seq<nat>) {
    forall lf: seq<nat>, df: seq<nat> :: Counted(T, lf, df, tokens) ==> Supports(lf, l, 286) && Supports(df, d, 30)
  }

  lemma SupportsFrame(freq: seq<nat>, freq': seq<nat>, lens: seq<nat>, elems: nat)
    requires Supports(freq, lens, elems) && elems <= |freq'| && forall n :: 0 <= n < elems ==> freq[n] == freq'[n]
    ensures Supports(freq', lens, elems)
  {
    forall n | 0 <= n < elems
      ensures BT.IsMadeUp(freq, elems, n) <==> BT.IsMadeUp(freq', elems, n)
    {
      if v :| BT.OnlyOne(freq, elems, v) && n == BT.Fresh(v) {
        assert BT.OnlyOne(freq', elems, v);
      }
      if v :| BT.OnlyOne(freq', elems, v) && n == BT.Fresh(v) {
        assert BT.OnlyOne(freq, elems, v);
      }
    }
  }

  /** The tallies decide which symbols have codes. */
  lemma CodesForCounts(T: Tables, tokens: seq<Token>, lf: seq<nat>, df: seq<nat>, l: seq<nat>, d: seq<nat>)
    requires Counted(T, lf, df, tokens) && Supports(lf, l, 286) && Supports(df, d, 30)
    ensures CodesFor(T, tokens, l, d)
  {
    forall lf': seq<nat>, df': seq<nat> | Counted(T, lf', df', tokens)
      ensures Supports(lf', l, 286) && Supports(df', d, 30)
    {
      SupportsFrame(lf, lf', l, 286);
      SupportsFrame(df, df', d, 30);
    }
  }

  lemma SupportsCut(freq: seq<nat>, lens: seq<nat>, elems: nat, m: nat)
    requires Supports(freq, lens, elems) && ZeroFrom(lens, m)
    ensures Supports(freq, lens[..m], elems)
  {
  }

  lemma CodesForCut(T: Tables, tokens: seq<Token>, l: seq<nat>, d: seq<nat>, lm: nat, dm: nat)
    requires CodesFor(T, tokens, l, d) && ZeroFrom(l, lm) && ZeroFrom(d, dm)
    ensures CodesFor(T, tokens, l[..lm], d[..dm])
  {
    forall lf: seq<nat>, df: seq<nat> | Counted(T, lf, df, tokens)
      ensures Supports(lf, l[..lm], 286) && Supports(df, d[..dm], 30)
    {
      SupportsCut(lf, l, 286, lm);
      SupportsCut(df, d, 30, dm);
    }
  }

  /** What the two trees of a dynamic block are. */
  ghost predicate TwoTrees(T: Tables, tokens: seq<Token>, l: seq<nat>, lc: seq<nat>, lMax: int, d: seq<nat>,
                           dc: seq<nat>, dMax: int) {
    && T.Right() && AllOk(tokens) && |l| == 286 && |d| == 30 && TreeCodes(l, lc) && TreeCodes(d, dc)
    && Complete(l, 15) && Complete(d, 15) && 256 <= lMax < 286 && 1 <= dMax < 30 && ZeroFrom(l, lMax + 1)
    && ZeroFrom(d, dMax + 1) && l[lMax] > 0 && d[dMax] > 0 && CodesFor(T, tokens, l, d)
    && l[END_BLOCK] > 0 && AllCoverable(SymsOf(T, tokens), l, d)
  }

  ghost predicate LDesc(ld: Desc) {
    IsLDesc(ld) && ld.Valid() && ld.staticLens == Some(FixedL())
  }

  ghost predicate DDesc(dd: Desc) {
    IsDDesc(dd) && dd.Valid() && dd.staticLens == Some(FixedD())
  }

  lemma BuiltLens(d: Desc, freq: seq<nat>, lens: seq<nat>, fc: seq<nat>, maxCode: int, opt: nat, stat: nat, opt0: nat,
                  stat0: nat)
    requires BT.Built(d, freq, lens, fc, maxCode, opt, stat, opt0, stat0) && d.maxLength == 15
    ensures |lens| == d.elems && TreeCodes(lens, fc) && Complete(lens, 15) && 1 <= maxCode < d.elems
    ensures ZeroFrom(lens, maxCode + 1) && lens[maxCode] > 0 && Supports(freq, lens, d.elems)
  {
  }

  /** The tallies of one block stay far below 16 bits. */
  lemma TalliesSmall(T: Tables, lf: seq<nat>, df: seq<nat>, tokens: seq<Token>)
    requires Counted(T, lf, df, tokens) && |tokens| < LIT_BUFSIZE
    ensures CQ.FreqSum(lf, 286) <= |tokens| + 1 < 65536 && CQ.FreqSum(df, 30) <= |tokens|
  {
    var syms := SymsOf(T, tokens);
    CountsSum(lf, LList(syms) + [END_BLOCK], 286);
    CountsSum(df, DList(syms), 30);
    DListShort(syms);
  }

  lemma {:induction false} SumSet(freq: seq<nat>, x: nat, v: nat, m: nat)
    requires m <= |freq| && x < m
    ensures CQ.FreqSum(freq[x := v], m) == CQ.FreqSum(freq, m) - freq[x] + v
    decreases m
  {
    if x < m - 1 {
      SumSet(freq, x, v, m - 1);
    } else {
      CQ.SumFrame(freq, freq[x := v], m - 1);
    }
  }

  lemma {:induction false} SumZero(freq: seq<nat>, m: nat)
    requires m <= |freq| && forall n :: 0 <= n < m ==> freq[n] == 0
    ensures CQ.FreqSum(freq, m) == 0
  {
    if m > 0 {
      SumZero(freq, m - 1);
    }
  }

  /** Counts add up to no more than the length of the list. */
  lemma {:induction false} CountsSum(freq: seq<nat>, list: seq<nat>, m: nat)
    requires IsCount(freq, list, m)
    ensures CQ.FreqSum(freq, m) <= |list|
    decreases |list|
  {
    if list == [] {
      SumZero(freq, m);
    } else {
      var less, x := list[..|list| - 1], list[|list| - 1];
      if x < m {
        assert freq[x] == Count(less, x) + 1;
        CountsSum(freq[x := freq[x] - 1], less, m);
        SumSet(freq, x, freq[x] - 1, m);
      } else {
        CountsSum(freq, less, m);
      }
    }
  }

  /** The two trees, built for the tokens' frequencies, are good for sending them. */
  lemma BuiltTrees(ld: Desc, dd: Desc, T: Tables, tokens: seq<Token>, lf: seq<nat>, df: seq<nat>, l: seq<nat>,
                   lc: seq<nat>, lMax: int,
                   d: seq<nat>, dc: seq<nat>, dMax: int, opt1: nat, stat1: nat, opt: nat, stat: nat)
    requires LDesc(ld) && DDesc(dd) && Counted(T, lf, df, tokens)
    requires BT.Built(ld, lf, l, lc, lMax, opt1, stat1, 0, 0) && BT.Built(dd, df, d, dc, dMax, opt, stat, opt1, stat1)
    ensures TwoTrees(T, tokens, l, lc, lMax, d, dc, dMax)
  {
    var syms := SymsOf(T, tokens);
    var list := LList(syms) + [END_BLOCK];
    LListSmall(syms);
    DListSmall(syms);
    BuiltPrice(ld, lf, l, lc, lMax, list, opt1, stat1, 0, 0);
    BuiltPrice(dd, df, d, dc, dMax, DList(syms), opt, stat, opt1, stat1);
    BuiltLens(ld, lf, l, lc, lMax, opt1, stat1, 0, 0);
    BuiltLens(dd, df, d, dc, dMax, opt, stat, opt1, stat1);
    assert l[END_BLOCK] > 0 by { assert list[|syms|] == END_BLOCK; }
    forall i | 0 <= i < |syms|
      ensures l[LList(syms)[i]] > 0
    {
      assert list[i] == LList(syms)[i];
    }
    ListsCovered(T, tokens, l, d);
    CodesForCounts(T, tokens, lf, df, l, d);
  }

  /** `opt_len` and `static_len` are the exact sizes of the data, dynamic and static. */
  lemma BuiltSizes(ld: Desc, dd: Desc, T: Tables, tokens: seq<Token>, lf: seq<nat>, df: seq<nat>, l: seq<nat>,
                   lc: seq<nat>, lMax: int,
                   d: seq<nat>, dc: seq<nat>, dMax: int, opt1: nat, stat1: nat, opt: nat, stat: nat)
    requires LDesc(ld) && DDesc(dd) && Counted(T, lf, df, tokens) && TwoTrees(T, tokens, l, lc, lMax, d, dc, dMax)
    requires BT.Built(ld, lf, l, lc, lMax, opt1, stat1, 0, 0) && BT.Built(dd, df, d, dc, dMax, opt, stat, opt1, stat1)
    ensures AllCoverable(SymsOf(T, tokens), FixedL(), FixedD())
    ensures opt == Add32(0, |DataBits(SymsOf(T, tokens), l, d)|)
    ensures stat == Add32(0, |DataBits(SymsOf(T, tokens), FixedL(), FixedD())|)
  {
    var syms := SymsOf(T, tokens);
    LListSmall(syms);
    DListSmall(syms);
    BuiltPrice(ld, lf, l, lc, lMax, LList(syms) + [END_BLOCK], opt1, stat1, 0, 0);
    BuiltPrice(dd, df, d, dc, dMax, DList(syms), opt, stat, opt1, stat1);
    StaticCovered(T, tokens);
    SizeIs(ld, dd, syms, l, d, opt1, opt);
    SizeIs(ld, dd, syms, FixedL(), FixedD(), stat1, stat);
  }

  lemma SizeIs(ld: Desc, dd: Desc, syms: seq<Symbols>, l: seq<nat>, d: seq<nat>, size1: nat, size: nat)
    requires IsLDesc(ld) && IsDDesc(dd) && AllInTables(syms) && AllCoverable(syms, l, d) && 286 <= |l| && 30 <= |d|
    requires (forall i :: 0 <= i < |syms| + 1 ==> (LList(syms) + [END_BLOCK])[i] < 286)
    requires forall i :: 0 <= i < |DList(syms)| ==> DList(syms)[i] < 30
    requires size1 == Add32(0, Price(ld, l, LList(syms) + [END_BLOCK]))
    requires size == Add32(size1, Price(dd, d, DList(syms)))
    ensures size == Add32(0, |DataBits(syms, l, d)|)
  {
    DataPrice(ld, dd, syms, l, d);
    Add32Twice(0, Price(ld, l, LList(syms) + [END_BLOCK]), Price(dd, d, DList(syms)));
  }

  lemma StaticCovered(T: Tables, tokens: seq<Token>)
    requires T.Right() && AllOk(tokens)
    ensures AllCoverable(SymsOf(T, tokens), FixedL(), FixedD())
  {
    var syms := SymsOf(T, tokens);
    forall i | 0 <= i < |syms|
      ensures Coverable(syms[i], FixedL(), FixedD())
    {
      assert InTables(syms[i]);
      LSymSmall(syms[i]);
    }
  }

  // ----- no size wraps round -----

  lemma {:induction false} DListShort(syms: seq<Symbols>)
    ensures |DList(syms)| <= |syms|
  {
    if syms != [] {
      DListShort(syms[..|syms| - 1]);
    }
  }

  /** A bound on the size of a block's data from bounds on the lengths. */
  lemma DataBound(ld: Desc, dd: Desc, syms: seq<Symbols>, l: seq<nat>, d: seq<nat>, lTop: nat, dTop: nat)
    requires IsLDesc(ld) && IsDDesc(dd) && AllInTables(syms) && AllCoverable(syms, l, d) && 286 <= |l| && 30 <= |d|
    requires (forall n :: 0 <= n < 286 ==> l[n] <= lTop) && (forall n :: 0 <= n < 30 ==> d[n] <= dTop)
    ensures |DataBits(syms, l, d)| <= (lTop + 5) * (|syms| + 1) + (dTop + 13) * |syms|
  {
    DataPrice(ld, dd, syms, l, d);
    LengthsBound(ld, dd, syms, l, lTop);
    DistsPriced(ld, dd, syms, d, dTop);
  }

  lemma LengthsBound(ld: Desc, dd: Desc, syms: seq<Symbols>, l: seq<nat>, lTop: nat)
    requires IsLDesc(ld) && IsDDesc(dd) && AllInTables(syms) && 286 <= |l| && forall n :: 0 <= n < 286 ==> l[n] <= lTop
    ensures (forall i :: 0 <= i < |syms| + 1 ==> (LList(syms) + [END_BLOCK])[i] < 286)
    ensures Price(ld, l, LList(syms) + [END_BLOCK]) <= (lTop + 5) * (|syms| + 1)
  {
    LListSmall(syms);
    ExtraBounds(ld, dd);
    PriceBound(ld, l, LList(syms) + [END_BLOCK], lTop + 5);
  }

  lemma DistsPriced(ld: Desc, dd: Desc, syms: seq<Symbols>, d: seq<nat>, dTop: nat)
    requires IsLDesc(ld) && IsDDesc(dd) && AllInTables(syms) && 30 <= |d| && forall n :: 0 <= n < 30 ==> d[n] <= dTop
    ensures (forall i :: 0 <= i < |DList(syms)| ==> DList(syms)[i] < 30)
    ensures Price(dd, d, DList(syms)) <= (dTop + 13) * |syms|
  {
    DListSmall(syms);
    ExtraBounds(ld, dd);
    PriceBound(dd, d, DList(syms), dTop + 13);
    DListShort(syms);
    Arith.MulMono(|DList(syms)|, |syms|, dTop + 13);
  }

  lemma ExtraBounds(ld: Desc, dd: Desc)
    requires IsLDesc(ld) && IsDDesc(dd)
    ensures (forall n :: 0 <= n < 286 ==> ld.Extra(n) <= 5) && forall n :: 0 <= n < 30 ==> dd.Extra(n) <= 13
  {
  }

  /** The data of a block of at most 8191 tokens. */
  lemma DataSmall(ld: Desc, dd: Desc, T: Tables, tokens: seq<Token>, l: seq<nat>, d: seq<nat>)
    requires IsLDesc(ld) && IsDDesc(dd) && T.Right() && AllOk(tokens) && |tokens| < LIT_BUFSIZE && 286 <= |l|
    requires 30 <= |d|
    requires AllCoverable(SymsOf(T, tokens), l, d) && (forall n :: 0 <= n < 286 ==> l[n] <= 15)
    requires (forall n :: 0 <= n < 30 ==> d[n] <= 15)
    ensures |DataBits(SymsOf(T, tokens), l, d)| < 400_000
  {
    DataBound(ld, dd, SymsOf(T, tokens), l, d, 15, 15);
  }

  /** In a static block every token takes at most 31 bits, so its size in bytes is well below 64K. */
  lemma StaticSmall(ld: Desc, dd: Desc, T: Tables, tokens: seq<Token>)
    requires IsLDesc(ld) && IsDDesc(dd) && T.Right() && AllOk(tokens) && |tokens| < LIT_BUFSIZE
    requires AllCoverable(SymsOf(T, tokens), FixedL(), FixedD())
    ensures |DataBits(SymsOf(T, tokens), FixedL(), FixedD())| <= 14 * 8192 + 18 * 8191
  {
    FixedSmall(FixedL(), FixedD());
    SmallFrom(ld, dd, SymsOf(T, tokens), FixedL(), FixedD());
  }

  lemma SmallFrom(ld: Desc, dd: Desc, syms: seq<Symbols>, l: seq<nat>, d: seq<nat>)
    requires IsLDesc(ld) && IsDDesc(dd) && AllInTables(syms) && AllCoverable(syms, l, d) && 286 <= |l| && 30 <= |d|
    requires |syms| <= 8191
    requires (forall n :: 0 <= n < 286 ==> l[n] <= 9) && (forall n :: 0 <= n < 30 ==> d[n] <= 5)
    ensures |DataBits(syms, l, d)| <= 14 * 8192 + 18 * 8191
  {
    DataBound(ld, dd, syms, l, d, 9, 5);
    Arith.MulMono(|syms| + 1, 8192, 14);
    Arith.MulMono(|syms|, 8191, 18);
  }

  lemma FixedSmall(l: seq<nat>, d: seq<nat>)
    requires l == FixedL() && d == FixedD()
    ensures (forall n :: 0 <= n < 286 ==> l[n] <= 9) && (forall n :: 0 <= n < 30 ==> d[n] <= 5)
  {
    forall n | 0 <= n < 286
      ensures l[n] <= 9
    {
      assert FixedL()[n] == FixedLen(n);
    }
  }

  lemma TreesSmall(bd: Desc, l: seq<nat>, d: seq<nat>, bl: seq<nat>, blcodes: nat)
    requires BL.IsBlDesc(bd) && 257 <= |l| <= 286 && 1 <= |d| <= 30 && |bl| == 19 && 4 <= blcodes <= 19 && Lengths(l)
    requires Lengths(d)
    requires HaveCodes(Syms(l, 0, -1), bl) && HaveCodes(Syms(d, 0, -1), bl) && forall n :: 0 <= n < 19 ==> bl[n] <= 7
    ensures |TreesBits(l, d, bl, blcodes)| < 10_000
  {
    var a, b := Syms(l, 0, -1), Syms(d, 0, -1);
    BL.TreesSize(bd, l, d, bl, blcodes);
    SymbolsFew(l, d);
    BlExtras(bd, bl);
    PriceBound(bd, bl, Bare(a + b), 14);
  }

  lemma BlExtras(bd: Desc, bl: seq<nat>)
    requires BL.IsBlDesc(bd) && |bl| == 19 && forall n :: 0 <= n < 19 ==> bl[n] <= 7
    ensures forall n :: 0 <= n < 19 ==> bl[n] + bd.Extra(n) <= 14
  {
  }

  lemma SymbolsFew(l: seq<nat>, d: seq<nat>)
    requires Lengths(l) && Lengths(d)
    ensures |Syms(l, 0, -1) + Syms(d, 0, -1)| <= |l| + |d|
  {
    TwoVectorsExpand(l, d);
    ExpandedGrows([], Syms(l, 0, -1) + Syms(d, 0, -1), l + d);
  }

  // ----- trees without their unused ends -----

  lemma SymbolCut(s: Symbols, l: seq<nat>, d: seq<nat>, m: nat, k: nat)
    requires Coverable(s, l, d) && InTables(s) && ZeroFrom(l, m) && ZeroFrom(d, k)
    ensures Coverable(s, l[..m], d[..k]) && SymbolBits(s, l[..m], d[..k]) == SymbolBits(s, l, d)
  {
    if s.Plain? {
      EncodeCut(l, m, s.c as nat);
    } else {
      EncodeCut(l, m, 257 + s.lc);
      EncodeCut(d, k, s.dc);
    }
  }

  lemma DataCut(syms: seq<Symbols>, l: seq<nat>, d: seq<nat>, m: nat, k: nat)
    requires AllCoverable(syms, l, d) && ZeroFrom(l, m) && ZeroFrom(d, k) && END_BLOCK < |l| && l[END_BLOCK] > 0
    ensures END_BLOCK < m && AllCoverable(syms, l[..m], d[..k])
    ensures DataBits(syms, l[..m], d[..k]) == DataBits(syms, l, d)
  {
    EncodeCut(l, m, END_BLOCK);
    forall i | 0 <= i < |syms|
      ensures Coverable(syms[i], l[..m], d[..k]) && SymbolBits(syms[i], l[..m], d[..k]) == SymbolBits(syms[i], l, d)
    {
      SymbolCut(syms[i], l, d, m, k);
    }
    assert SymbolParts(syms, l[..m], d[..k]) == SymbolParts(syms, l, d);
  }

  // ----- stored blocks -----

  /** The length and its one's complement, as `copy_block` puts them together. */
  lemma NotLow(len: nat)
    requires len < 0x1_0000
    ensures Not(len) % 0x1_0000 == 0xffff - len
  {
  }

  /** The length and its complement side by side. */
  lemma LengthStacked(len: nat)
    requires len < 0x1_0000
    ensures Or(len, Shl(Not(len), 16, 32)) == len + (0xffff - len) * Pow2(16)
  {
    Pow2Values();
    LsbOps.OverModulo(Not(len), 16, 16);
    NotLow(len);
    LsbOps.OrStacked(len, 16, 0xffff - len);
  }

  lemma {:induction false} LengthWord(len: nat)
    requires len < 0x1_0000
    ensures var v := Or(len, Shl(Not(len), 16, 32));
            v < 0x1_0000_0000 && Lsb(v, 32) == Lsb(len, 16) + Lsb(0xffff - len, 16)
  {
    LengthStacked(len);
    StackedLsb(len, 0xffff - len);
  }

  lemma {:induction false} StackedLsb(low: nat, high: nat)
    requires low < 0x1_0000 && high < 0x1_0000
    ensures low + high * Pow2(16) < 0x1_0000_0000 && Lsb(low + high * Pow2(16), 32) == Lsb(low, 16) + Lsb(high, 16)
  {
    Pow2Values();
    LsbOps.LsbStacked(low, 16, high, 16);
    LsbOps.StackedBound(low, 16, high, 16);
  }

  method PutLength(o: LW.Output, len: nat)
    requires o.Valid() && o.bi_valid == 0 && len < 0x1_0000
    modifies o, o.outbuf
    ensures o.Valid() && o.bi_valid == 0 && o.stream == old(o.stream) + (Lsb(len, 16) + Lsb(0xffff - len, 16))
  {
    LengthWord(len);
    o.PutWord(Or(len, Shl(Not(len), 16, 32)));
  }

  method PutBytes(o: LW.Output, buf: seq<bv8>)
    requires o.Valid() && o.bi_valid == 0
    modifies o, o.outbuf
    ensures o.Valid() && o.stream == old(o.stream) + ByteString(buf)
  {
    ghost var s0 := o.stream;
    assert buf[..0] == [] && s0 + ByteString([]) == s0;
    for i := 0 to |buf|
      invariant o.Valid() && o.bi_valid == 0 && o.stream == s0 + ByteString(buf[..i])
    {
      assert buf[..i + 1][..i] == buf[..i];
      Regroup(s0, ByteString(buf[..i]), Lsb(buf[i] as nat, 8));
      o.PutByte(buf[i] as nat);
    }
    assert buf[..|buf|] == buf;
  }

  /** `copy_block` with its header. */
  method CopyBlock(o: LW.Output, buf: seq<bv8>)
    requires o.Valid() && |buf| < 0x1_0000
    modifies o, o.outbuf
    ensures o.Valid() && o.stream == old(o.stream) + StoredBits(buf, |old(o.stream)|)
  {
    ghost var s0 := o.stream;
    Align(o);
    ghost var s1 := o.stream;
    PutLength(o, |buf|);
    ghost var s2 := o.stream;
    PutBytes(o, buf);
    StoredParts(s0, s1, s2, o.stream, buf);
  }

  /** Zeros up to a byte boundary. */
  method Align(o: LW.Output)
    requires o.Valid()
    modifies o, o.outbuf
    ensures o.Valid() && o.bi_valid == 0 && o.stream == old(o.stream) + Zeros(Skip(|old(o.stream)|))
  {
    ghost var at := |o.stream|;
    ghost var pad := o.WindUp();
    SkipIs(at, pad);
  }

  lemma SkipIs(at: nat, pad: nat)
    requires pad < 8 && (at + pad) % 8 == 0
    ensures pad == Skip(at)
  {
  }

  lemma StoredParts(s0: seq<bool>, s1: seq<bool>, s2: seq<bool>, s3: seq<bool>, buf: seq<bv8>)
    requires |buf| < 0x1_0000 && s1 == s0 + Zeros(Skip(|s0|)) && s2 == s1 + (Lsb(|buf|, 16) + Lsb(0xffff - |buf|, 16))
    requires s3 == s2 + ByteString(buf)
    ensures s3 == s0 + StoredBits(buf, |s0|)
  {
    var pad, lens := Zeros(Skip(|s0|)), Lsb(|buf|, 16) + Lsb(0xffff - |buf|, 16);
    Regroup(s0, pad, lens);
    Regroup(s0, pad + lens, ByteString(buf));
  }
}
