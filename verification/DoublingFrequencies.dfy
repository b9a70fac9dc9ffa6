/** Frequencies for which a limit on the code lengths costs something: with 1, 1, 2, 4, 8, ... every symbol needs one
    bit
    more than the next, and no cheapest code does with less. */
module DoublingFrequencies {
  import opened Arith
  import opened Powers
  import opened PrefixCode
  import opened Huffman
  import opened CodeQuality
  import HC = HbCodes

  ghost function Doubling(n: nat): (f: seq<nat>)
    ensures |f| == n
  {
    seq(n, i requires 0 <= i < n => if i == 0 then 1 else Pow2(i - 1))
  }

  /** The longest first, each of the others one bit shorter than the one before. */
  ghost function Staircase(n: nat): (lens: seq<nat>)
    ensures |lens| == n
  {
    seq(n, i requires 0 <= i < n => if i == 0 then n - 1 else n - i)
  }

  lemma {:induction false} StaircaseSpace(n: nat, m: nat)
    requires 2 <= n && 1 <= m <= n
    ensures Kraft(Staircase(n), n - 1, m) == FreqSum(Doubling(n), m) == Pow2(m - 1)
    decreases m
  {
    var lens, f := Staircase(n), Doubling(n);
    if m == 1 {
      assert Kraft(lens, n - 1, 1) == Kraft(lens, n - 1, 0) + Pow2(n - 1 - lens[0]);
      assert FreqSum(f, 1) == FreqSum(f, 0) + f[0];
    } else {
      StaircaseSpace(n, m - 1);
    }
  }

  /** The lengths fill the code space. */
  lemma StaircaseCode(n: nat)
    requires 2 <= n
    ensures CodesUsed(Doubling(n), Staircase(n), n, n - 1)
  {
    StaircaseSpace(n, n);
  }

  lemma {:induction false} AboveLine(x: nat)
    ensures Pow2(x) >= 1 + x && (x >= 2 ==> Pow2(x) > 1 + x)
  {
    if x > 0 {
      AboveLine(x - 1);
    }
  }

  lemma ShorterPrice(w: nat, c: nat, x: nat)
    ensures w * c + w * Pow2(x) >= w * (c + x) + w
    ensures w > 0 && w * c + w * Pow2(x) == w * (c + x) + w ==> x < 2
  {
    AboveLine(x);
    Distribute(c, x, w);
    Distribute(x, 1, w);
    MulMono(x + 1, Pow2(x), w);
    if x >= 2 {
      MulMono(x + 2, Pow2(x), w);
      Distribute(x, 2, w);
    }
  }

  /** Frequency times length and the code space taken, against what they are on the staircase. */
  lemma StepPrice(w: nat, e: nat, len: nat, c: nat)
    requires w == Pow2(e) && 1 <= c && c <= len + e
    ensures var s := Pow2(len + e - c);
            && w * c + s >= w * len + w
            && (w * c + s == w * len + w ==> s >= w && (c < len ==> s > w))
  {
    if c <= len {
      ShorterPrice(w, c, len - c);
      Pow2Add(e, len - c);
      Pow2Mono(e, len + e - c);
    } else {
      MulMono(len + 1, c, w);
      Distribute(len, 1, w);
    }
  }

  function AtMostTwo(m: nat): (r: nat) { if m < 2 then m else 2 }

  /** No code of shorter lengths costs less, and one that costs as much would take too much space. */
  lemma {:induction false} LimitPrice(n: nat, c: seq<nat>, m: nat)
    requires 3 <= n && CodesUsed(Doubling(n), c, n, n - 2) && m <= n
    ensures var f := Doubling(n);
            var now, then_ := Total(f, c, m) + 2 * Kraft(c, n - 2, m), Total(f, Staircase(n), m) + FreqSum(f, m);
            now >= then_ && (now == then_ ==> 2 * Kraft(c, n - 2, m) >= FreqSum(f, m) + AtMostTwo(m))
    decreases m
  {
    if m > 0 {
      LimitPrice(n, c, m - 1);
      var i := m - 1;
      assert Doubling(n)[i] > 0;
      StepPrice(Doubling(n)[i], if i == 0 then 0 else i - 1, Staircase(n)[i], c[i]);
      assert Pow2(n - 1 - c[i]) == 2 * Pow2(n - 2 - c[i]);
    }
  }

  /** For every limit there are frequencies for which no cheapest code fits it. */
  lemma NoneFits(top: nat)
    requires 1 <= top
    ensures FreqSum(Doubling(top + 2), top + 2) == Pow2(top + 1) && !CheapestFits(Doubling(top + 2), top + 2, top)
  {
    var n := top + 2;
    StaircaseSpace(n, n);
    StaircaseCode(n);
    forall c: seq<nat> | CodesUsed(Doubling(n), c, n, top)
      ensures !Cheapest(Doubling(n), c, n)
    {
      LimitPrice(n, c, n);
    }
  }

  // ----- more symbols than occur -----

  /** `freq` has these frequencies first and no others. */
  ghost predicate Padded(freq: seq<nat>, f: seq<nat>, elems: nat) {
    && |f| <= elems <= |freq| && (forall i :: 0 <= i < |f| ==> freq[i] == f[i])
    && forall i :: |f| <= i < elems ==> freq[i] == 0
  }

  lemma {:induction false} TotalPadded(freq: seq<nat>, f: seq<nat>, lens: seq<nat>, elems: nat)
    requires Padded(freq, f, elems) && elems <= |lens|
    ensures Total(freq, lens, elems) == Total(f, lens, |f|)
    decreases elems
  {
    if elems == |f| {
      TotalFrame(freq, f, lens, lens, elems);
    } else {
      TotalPadded(freq, f, lens, elems - 1);
    }
  }

  lemma {:induction false} SumPadded(freq: seq<nat>, f: seq<nat>, elems: nat)
    requires Padded(freq, f, elems)
    ensures FreqSum(freq, elems) == FreqSum(f, |f|)
    decreases elems
  {
    if elems == |f| {
      SumFrame(freq, f, elems);
    } else {
      SumPadded(freq, f, elems - 1);
    }
  }

  lemma {:induction false} KraftPadded(lens: seq<nat>, m: nat, top: nat, c: nat)
    requires m <= c <= |lens| && forall i :: m <= i < c ==> lens[i] == 0
    ensures Kraft(lens, top, c) == Kraft(lens, top, m)
    decreases c
  {
    if m < c {
      KraftPadded(lens, m, top, c - 1);
    }
  }

  /** A code for the symbols that occur, with nothing for the others. */
  lemma CodePadded(freq: seq<nat>, f: seq<nat>, elems: nat, rival: seq<nat>, top: nat) returns (all: seq<nat>)
    requires Padded(freq, f, elems) && CodesUsed(f, rival, |f|, top)
    ensures CodesUsed(freq, all, elems, top) && Total(freq, all, elems) == Total(f, rival, |f|)
  {
    all := rival[..|f|] + seq(elems - |f|, i => 0);
    KraftPadded(all, |f|, top, elems);
    KraftSame(all, rival, top, |f|);
    TotalPadded(freq, f, all, elems);
    TotalFrame(f, f, all, rival, |f|);
  }

  /** Symbols that do not occur make no difference. */
  lemma FitsPadded(freq: seq<nat>, f: seq<nat>, elems: nat, top: nat)
    requires Padded(freq, f, elems) && CheapestFits(freq, elems, top)
    ensures CheapestFits(f, |f|, top)
  {
    var rival: seq<nat> :| CodesUsed(freq, rival, elems, top) && Cheapest(freq, rival, elems);
    KraftGrows(rival, top, |f|, elems);
    TotalPadded(freq, f, rival, elems);
    assert CodesUsed(f, rival, |f|, top);
    forall other: seq<nat>, t: nat | CodesUsed(f, other, |f|, t)
      ensures Total(f, rival, |f|) <= Total(f, other, |f|)
    {
      var all := CodePadded(freq, f, elems, other, t);
    }
  }

  /** So the nine frequencies 1, 1, 2, 4, ..., 128 are beyond the seven bits of a code length code: whatever lengths
      come out for them, they are not the cheapest. */
  lemma SevenBitsFail(freq: seq<nat>, lens: seq<nat>, overflow: nat)
    requires Padded(freq, Doubling(9), 19) && Best(freq, lens, 19, 7, overflow)
    ensures FreqSum(freq, 19) == 256 && overflow > 0 && !Cheapest(freq, lens, 19)
  {
    NoneFits(7);
    Pow2Values();
    SumPadded(freq, Doubling(9), 19);
    if CheapestFits(freq, 19, 7) {
      FitsPadded(freq, Doubling(9), 19, 7);
    }
  }

  /** The nineteen frequencies up to 131072 are beyond the seventeen bits of a bzip2 table. */
  lemma SeventeenBitsFail(freq: seq<int>, lens: seq<nat>, r: nat)
    requires HC.Settles(freq, lens, 19, 17, r) && HC.Rescaled(freq, 19, 0) == Doubling(19)
    requires |lens| == 19 && Complete(lens, 17) && forall i :: 0 <= i < 19 ==> 1 <= lens[i] <= 17
    ensures FreqSum(Doubling(19), 19) == 0x4_0000 && r > 0 && !Cheapest(Doubling(19), lens, 19)
  {
    NoneFits(17);
    Pow2Values();
    Pow2Add(16, 2);
    HC.CheapestIfFits(freq, lens, 19, 17, r);
  }
}
