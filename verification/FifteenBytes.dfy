/** A block for which the form that `flush_block` chooses is not the smallest: the fifteen literals 144..158 at a
    byte boundary. */
module FifteenBytes {
  import opened Powers
  import opened PrefixCode
  import opened BitStrings
  import opened Tokens
  import opened CodeLengths
  import opened SendTree
  import opened DeflateFormat
  import opened DynamicTrees
  import opened StaticTrees
  import opened Inflate
  import opened Pricing
  import opened Occurrences
  import opened TokenSymbols
  import opened Tally
  import opened FlushBlock
  import opened BlockChoice
  import opened BlockCoder
  import BT = BuildTree
  import CQ = CodeQuality

  function Fifteen(): (r: seq<Token>) {
    seq(15, i requires 0 <= i < 15 => Literal((144 + i) as bv8))
  }

  lemma FifteenLiterals(T: Tables)
    requires T.Right()
    ensures |Fifteen()| == 15 && AllOk(Fifteen())
    ensures forall i :: 0 <= i < 15 ==> Fifteen()[i].Literal? && Fifteen()[i].c as nat == 144 + i
    ensures var syms := SymsOf(T, Fifteen());
            |syms| == 15 && forall i :: 0 <= i < 15 ==> syms[i].Plain? && syms[i].c as nat == 144 + i
  {
  }

  // ----- the static size -----

  lemma {:induction false} FlatSize(parts: seq<seq<bool>>, n: nat)
    requires forall i :: 0 <= i < |parts| ==> |parts[i]| == n
    ensures |Flat(parts)| == n * |parts|
  {
    if parts != [] {
      FlatSize(parts[1..], n);
    }
  }

  /** Literals of 144 and above take nine bits each in the static tree. */
  lemma StaticSize(T: Tables)
    requires T.Right()
    ensures AllOk(Fifteen()) && AllCoverable(SymsOf(T, Fifteen()), FixedL(), FixedD())
    ensures |DataBits(SymsOf(T, Fifteen()), FixedL(), FixedD())| == 142
  {
    FifteenLiterals(T);
    var syms := SymsOf(T, Fifteen());
    forall i | 0 <= i < |syms|
      ensures Coverable(syms[i], FixedL(), FixedD()) && |SymbolBits(syms[i], FixedL(), FixedD())| == 9
    {
    }
    FlatSize(SymbolParts(syms, FixedL(), FixedD()), 9);
  }

  // ----- the trees -----

  lemma {:induction false} NoPairs(syms: seq<Symbols>)
    requires forall i :: 0 <= i < |syms| ==> syms[i].Plain?
    ensures DList(syms) == []
    decreases |syms|
  {
    if syms != [] {
      NoPairs(syms[..|syms| - 1]);
    }
  }

  /** The literals and the end-of-block code, once each. */
  ghost predicate IsUsed(n: nat) { 144 <= n < 159 || n == 256 }

  lemma UsedSymbols(T: Tables, n: nat)
    requires T.Right()
    ensures AllOk(Fifteen()) && (n in LList(SymsOf(T, Fifteen())) + [END_BLOCK] <==> IsUsed(n))
  {
    FifteenLiterals(T);
    var list := LList(SymsOf(T, Fifteen())) + [END_BLOCK];
    assert list[15] == END_BLOCK;
    if 144 <= n < 159 {
      assert list[n - 144] == n;
    }
  }

  ghost function Counts16(list: seq<nat>, m: nat): (f: seq<nat>)
    ensures IsCount(f, list, m) && |f| == m
  {
    seq(m, n requires 0 <= n < m => Count(list, n))
  }

  /** The trees cover exactly the sixteen symbols, and the two distance codes made up. */
  lemma Covered(T: Tables, l: seq<nat>, d: seq<nat>)
    requires T.Right() && AllOk(Fifteen()) && CodesFor(T, Fifteen(), l, d)
    ensures |l| <= 286 && forall n :: 0 <= n < |l| ==> (l[n] > 0 <==> IsUsed(n))
    ensures 2 <= |d| <= 30 && forall n :: 0 <= n < |d| ==> (d[n] > 0 <==> n < 2)
  {
    FifteenLiterals(T);
    var syms := SymsOf(T, Fifteen());
    var lf, df := Counts16(LList(syms) + [END_BLOCK], 286), Counts16(DList(syms), 30);
    NoPairs(syms);
    assert Counted(T, lf, df, Fifteen());
    forall n | 0 <= n < 286
      ensures lf[n] > 0 <==> IsUsed(n)
    {
      CountIn(LList(syms) + [END_BLOCK], n);
      UsedSymbols(T, n);
    }
    assert lf[144] > 0 && lf[145] > 0;
    forall n | 0 <= n < 286
      ensures !BT.IsMadeUp(lf, 286, n)
    {
    }
    assert forall n :: 0 <= n < 30 ==> df[n] == 0;
    forall n | 0 <= n < 30
      ensures BT.IsMadeUp(df, 30, n) <==> n < 2
    {
    }
    assert Supports(df, d, 30) && BT.IsMadeUp(df, 30, 1);
  }

  /** Two distance codes, so one bit each. */
  lemma OneBitEach(d: seq<nat>)
    requires |d| == 2 && d[0] > 0 && d[1] > 0 && Complete(d, 15)
    ensures d == [1, 1]
  {
    CQ.HalfOrLess(d[0], 15);
    CQ.HalfOrLess(d[1], 15);
    PairSpace(d, 15);
  }

  lemma PairSpace(d: seq<nat>, top: nat)
    requires |d| == 2 && 0 < d[0] <= top && 0 < d[1] <= top
    ensures Kraft(d, top, 2) == Pow2(top - d[0]) + Pow2(top - d[1])
  {
    assert Kraft(d, top, 1) == Kraft(d, top, 0) + Pow2(top - d[0]);
  }

  /** Their length is sent as the last but one of the code length codes. */
  lemma AlmostAllSent(bl: seq<nat>, maxBlindex: nat)
    requires |bl| == 19 && HaveCodes(Syms([1, 1], 0, -1), bl) && maxBlindex < 19 && RestUnused(bl, maxBlindex + 1)
    ensures maxBlindex >= 17
  {
    var d: seq<nat> := [1, 1];
    assert RunFrom(d, 0, 1, 7) == RunFrom(d, 0, 2, 7) == 2;
    assert Piece(1, -1, 2) == Rep(ClSym(1, 0), 2);
    assert Syms(d, 0, -1)[0] == ClSym(1, 0);
    assert HasCode(ClSym(1, 0), bl);
    assert BL_ORDER[17] == 1 && BL_ORDER[18] == 15;
  }

  // ----- the runs of zeros -----

  lemma {:induction false} RunExact(lens: seq<nat>, start: nat, count: nat, limit: nat, n: nat)
    requires 1 <= count <= n <= limit && start + n <= |lens|
    requires forall k :: start <= k < start + n ==> lens[k] == lens[start]
    requires n == limit || start + n == |lens| || lens[start + n] != lens[start]
    ensures RunFrom(lens, start, count, limit) == n
    decreases n - count
  {
    if count < n {
      RunExact(lens, start, count + 1, limit, n);
    }
  }

  /** The first stretch, which ends where the length changes at the latest. */
  lemma SymsStep(lens: seq<nat>, start: nat, prev: int, m: nat) returns (piece: seq<ClSym>, next: nat)
    requires start < m < |lens| && lens[m] != lens[m - 1]
    ensures start < next <= m && Syms(lens, start, prev) == piece + Syms(lens, next, lens[start])
  {
    var c := RunFrom(lens, start, 1, MaxCount(lens[start], prev));
    RunIsEqual(lens, start, 1, MaxCount(lens[start], prev));
    assert start + c <= m;
    piece, next := Piece(lens[start], prev, c), start + c;
  }

  /** Where the length changes, a stretch ends. */
  lemma {:induction false} SymsReach(lens: seq<nat>, start: nat, prev: int, m: nat)
    returns (front: seq<ClSym>, before: int)
    requires start <= m < |lens| && 0 < m && lens[m] != lens[m - 1]
    ensures Syms(lens, start, prev) == front + Syms(lens, m, before)
    decreases m - start
  {
    if start == m {
      front, before := [], prev;
    } else {
      var piece, next := SymsStep(lens, start, prev, m);
      front, before := SymsReach(lens, next, lens[start], m);
      SeqRegroup(piece, front, Syms(lens, m, before));
      front := piece + front;
    }
  }

  lemma SeqRegroup(a: seq<ClSym>, b: seq<ClSym>, c: seq<ClSym>)
    ensures a + (b + c) == a + b + c
  {
  }

  lemma {:induction false} SuffixSize(front: seq<ClSym>, back: seq<ClSym>, bl: seq<nat>)
    requires HaveCodes(front + back, bl)
    ensures HaveCodes(back, bl) && |ClBits(front + back, bl)| >= |ClBits(back, bl)|
    decreases |front|
  {
    if front == [] {
      assert front + back == back;
    } else {
      ClBitsFront(front + back, bl);
      assert (front + back)[1..] == front[1..] + back;
      SuffixSize(front[1..], back, bl);
    }
  }

  /** A run of `n` zeros that goes no further. */
  ghost predicate ZeroRun(lens: seq<nat>, start: nat, n: nat) {
    && start + n <= |lens| && 3 <= n <= 138 && (forall k :: start <= k < start + n ==> lens[k] == 0)
    && (n == 138 || start + n == |lens| || lens[start + n] != 0)
  }

  lemma SymsUnfold(lens: seq<nat>, start: nat, prev: int)
    requires start < |lens|
    ensures var c := RunFrom(lens, start, 1, MaxCount(lens[start], prev));
            Syms(lens, start, prev) == Piece(lens[start], prev, c) + Syms(lens, start + c, lens[start])
  {
  }

  lemma ZeroPiece(lens: seq<nat>, start: nat, prev: int, n: nat)
    requires ZeroRun(lens, start, n)
    ensures Syms(lens, start, prev) == Piece(0, prev, n) + Syms(lens, start + n, 0)
  {
    RunExact(lens, start, 1, 138, n);
    SymsUnfold(lens, start, prev);
  }

  /** It takes at least its extra bits. */
  lemma RunSize(lens: seq<nat>, start: nat, prev: int, n: nat, bl: seq<nat>)
    requires ZeroRun(lens, start, n) && HaveCodes(Syms(lens, start, prev), bl)
    ensures HaveCodes(Syms(lens, start + n, 0), bl)
    ensures |ClBits(Syms(lens, start, prev), bl)| >= (if n <= 10 then 3 else 7) + |ClBits(Syms(lens, start + n, 0), bl)|
  {
    ZeroPiece(lens, start, prev, n);
    var piece, rest := Piece(0, prev, n)[0], Syms(lens, start + n, 0);
    FrontSize(piece, rest, bl);
  }

  lemma FrontSize(piece: ClSym, rest: seq<ClSym>, bl: seq<nat>)
    requires HaveCodes([piece] + rest, bl)
    ensures HaveCodes(rest, bl) && |ClBits([piece] + rest, bl)| >= ClExtra(piece.sym) + |ClBits(rest, bl)|
  {
    ClBitsFront([piece] + rest, bl);
    assert ([piece] + rest)[1..] == rest;
  }

  lemma ZeroRuns(l: seq<nat>)
    requires |l| == 257 && (forall n :: 0 <= n < 257 ==> (l[n] > 0 <==> IsUsed(n)))
    ensures ZeroRun(l, 0, 138) && ZeroRun(l, 138, 6) && ZeroRun(l, 159, 97) && l[159] != l[158]
  {
    assert IsUsed(144) && IsUsed(158) && IsUsed(256);
  }

  /** The runs of 144 and of 97 zeros take 17 extra bits. */
  lemma RunsSize(l: seq<nat>, bl: seq<nat>)
    requires |l| == 257 && ZeroRun(l, 0, 138) && ZeroRun(l, 138, 6) && ZeroRun(l, 159, 97) && l[159] != l[158]
    requires HaveCodes(Syms(l, 0, -1), bl)
    ensures |ClBits(Syms(l, 0, -1), bl)| >= 17
  {
    RunSize(l, 0, -1, 138, bl);
    RunSize(l, 138, 0, 6, bl);
    var front, before := SymsReach(l, 144, 0, 159);
    SuffixSize(front, Syms(l, 159, before), bl);
    RunSize(l, 159, before, 97, bl);
  }

  // ----- the data -----

  /** A length and the code space it takes, weighed against each other. */
  lemma LengthPrice(len: nat)
    requires 0 < len <= 15
    ensures 2048 * len + Pow2(15 - len) >= 5 * 2048
  {
    if len <= 4 {
      Pow2Mono(11, 15 - len);
      Pow2Add(3, 8);
      Pow2Add(4, 8);
      Pow2Add(5, 8);
      Pow2Add(6, 8);
      Pow2Values();
    }
  }

  /** Part `i` is a code of the length that symbol `m + i` has. */
  ghost predicate CodedAt(parts: seq<seq<bool>>, l: seq<nat>, m: nat, i: nat) {
    i < |parts| && m + i < |l| && |parts[i]| == l[m + i] && 0 < l[m + i] <= 15
  }

  lemma {:induction false} LiteralsPrice(parts: seq<seq<bool>>, l: seq<nat>, m: nat, k: nat)
    requires k <= |parts| && m + |parts| <= |l| && forall i :: 0 <= i < |parts| ==> CodedAt(parts, l, m, i)
    ensures 2048 * |Flat(parts[..k])| + Kraft(l, 15, m + k) - Kraft(l, 15, m) >= 10240 * k
    decreases k
  {
    if k == 0 {
      assert parts[..0] == [];
    } else {
      LiteralsPrice(parts, l, m, k - 1);
      assert CodedAt(parts, l, m, k - 1);
      assert parts[..k] == parts[..k - 1] + [parts[k - 1]];
      FlatJoin(parts[..k - 1], [parts[k - 1]]);
      assert Flat([parts[k - 1]]) == parts[k - 1] + Flat([]);
      LengthPrice(l[m + k - 1]);
    }
  }

  /** Sixteen symbols, each sent once, take at least 64 bits in any code. */
  lemma DataSize(T: Tables, l: seq<nat>, d: seq<nat>)
    requires T.Right() && AllOk(Fifteen()) && AllCoverable(SymsOf(T, Fifteen()), l, d) && Complete(l, 15) && |l| == 257
    requires forall n :: 0 <= n < 257 ==> (l[n] > 0 <==> IsUsed(n))
    ensures |DataBits(SymsOf(T, Fifteen()), l, d)| >= 64
  {
    FifteenLiterals(T);
    var syms := SymsOf(T, Fifteen());
    var parts := SymbolParts(syms, l, d);
    forall i | 0 <= i < 15
      ensures CodedAt(parts, l, 144, i)
    {
      assert IsUsed(144 + i);
    }
    LiteralsPrice(parts, l, 144, 15);
    assert parts[..15] == parts;
    assert IsUsed(256);
    LengthPrice(l[256]);
    KraftGrows(l, 15, 159, 256);
    Pow2Values();
  }

  // ----- the whole -----

  lemma TreesSize(l: seq<nat>, d: seq<nat>, bl: seq<nat>, blcodes: nat)
    requires 257 <= |l| && 1 <= |d| && |bl| == 19 && 4 <= blcodes <= 19
    requires HaveCodes(Syms(l, 0, -1), bl) && HaveCodes(Syms(d, 0, -1), bl)
    ensures |TreesBits(l, d, bl, blcodes)| >= 14 + 3 * blcodes + |ClBits(Syms(l, 0, -1), bl)|
  {
  }

  /** 14 bits for the counts, 54 for the code length codes, 17 for the runs, 64 for the data. */
  lemma FourParts(T: Tables, l: seq<nat>, d: seq<nat>, bl: seq<nat>, maxBlindex: nat)
    requires T.Right() && AllOk(Fifteen()) && 257 <= |l| && 1 <= |d| && |bl| == 19 && 3 <= maxBlindex < 19
    requires RightTrees(T, Fifteen(), l, d) && RestUnused(bl, maxBlindex + 1)
    requires HaveCodes(Syms(l, 0, -1), bl) && HaveCodes(Syms(d, 0, -1), bl)
    requires AllCoverable(SymsOf(T, Fifteen()), l, d)
    ensures |TreesBits(l, d, bl, maxBlindex + 1)| + |DataBits(SymsOf(T, Fifteen()), l, d)| >= 149
  {
    Covered(T, l, d);
    assert |l| == 257 && |d| == 2;
    OneBitEach(d);
    AlmostAllSent(bl, maxBlindex);
    ZeroRuns(l);
    RunsSize(l, bl);
    TreesSize(l, d, bl, maxBlindex + 1);
    DataSize(T, l, d);
  }

  /** The dynamic block is larger than the static one. */
  lemma DynamicSize(T: Tables, p: Plan, t: Sent)
    requires T.Right() && SizesOf(p, T, Fifteen(), t)
    ensures p.opt >= 149
  {
    FourParts(T, t.l, t.d, t.bl, p.maxBlindex);
  }

  lemma StaticIs142(T: Tables, p: Plan, t: Sent)
    requires T.Right() && SizesOf(p, T, Fifteen(), t)
    ensures p.stat == 142
  {
    StaticSize(T);
  }

  lemma PlanSizes(p: Plan, T: Tables, t: Sent)
    requires T.Right() && ExactlySized(p, T, Fifteen(), t)
    ensures p.stat == 142 && p.opt >= 149
  {
    assert Same(p, p);
    StaticIs142(T, p, t);
    DynamicSize(T, p, t);
  }

  lemma FifteenSizes(opt: nat)
    requires opt >= 149
    ensures Choice(opt, 142, 15, true) == STORED
    ensures BlockSize(STORED, 0, opt, 142, 15) == 160 && BlockSize(STATIC, 0, opt, 142, 15) == 145
  {
  }

  lemma FormedStored(kind: nat, p: Plan, body: seq<bool>, t: Sent, T: Tables, tokens: seq<Token>, buf: seq<bv8>,
                     hist: seq<bv8>, eof: bool)
    requires |buf| == 15 && Formed(kind, p, body, t, T, tokens, 0 + 3, |buf|, true, hist)
    requires p.stat == 142 && p.opt >= 149
    ensures SizesOf(p, T, tokens, t) && kind == STORED
    ensures |BlockBits(body, kind, eof)| == 160 && |StaticBlock(p, T, tokens, t, eof)| == 145
  {
    FormedSizes(kind, p, body, t, T, tokens, 0, buf, true, hist, eof);
    BlockSizes(p, T, tokens, t, buf, 0, eof);
    FifteenSizes(p.opt);
  }

  /** Whatever trees are built for them, the fifteen literals go out as a stored block of 160 bits, 20 bytes, where the
      static one is 145 bits, 19 bytes. */
  lemma StoredLarger(kind: nat, p: Plan, body: seq<bool>, t: Sent, T: Tables, buf: seq<bv8>, hist: seq<bv8>, eof: bool)
    requires T.Right() && |buf| == 15 && Formed(kind, p, body, t, T, Fifteen(), 0 + 3, |buf|, true, hist)
    ensures SizesOf(p, T, Fifteen(), t) && kind == STORED
    ensures |BlockBits(body, kind, eof)| == 160 && |StaticBlock(p, T, Fifteen(), t, eof)| == 145
  {
    PlanSizes(p, T, t);
    FormedStored(kind, p, body, t, T, Fifteen(), buf, hist, eof);
  }
}
