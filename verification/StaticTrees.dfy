/** The fixed codes of section 3.2.6 of RFC 1951. */
module StaticTrees {
  import opened Arith
  import opened Powers
  import opened PrefixCode

  /** Literal and length code lengths; 286 and 287 take part in the code but are never sent. */
  function FixedL(): (r: seq<nat>)
    ensures |r| == 288 && forall n :: 0 <= n < 288 ==> r[n] == FixedLen(n)
  {
    seq(288, n requires 0 <= n => FixedLen(n))
  }

  function FixedLen(n: nat): (r: nat) {
    if n <= 143 then 8 else if n <= 255 then 9 else if n <= 279 then 7 else 8
  }

  function FixedD(): (r: seq<nat>)
    ensures |r| == 30 && forall n :: 0 <= n < 30 ==> r[n] == 5
  {
    seq(30, n => 5)
  }

  /** A stretch of symbols of one length. */
  lemma {:induction false} KraftStretch(lens: seq<nat>, top: nat, a: nat, b: nat, len: nat)
    requires a <= b <= |lens| && 0 < len <= top && forall n :: a <= n < b ==> lens[n] == len
    ensures Kraft(lens, top, b) == Kraft(lens, top, a) + (b - a) * Pow2(top - len)
    decreases b
  {
    if a < b {
      KraftStretch(lens, top, a, b - 1, len);
      Distribute(b - 1 - a, 1, Pow2(top - len));
    }
  }

  lemma {:induction false} CountStretch(lens: seq<nat>, c: nat, a: nat, b: nat, len: nat)
    requires a <= b <= |lens| && forall n :: a <= n < b ==> lens[n] == len
    ensures CountLen(lens, c, b) == CountLen(lens, c, a) + if c == len then b - a else 0
    decreases b
  {
    if a < b {
      CountStretch(lens, c, a, b - 1, len);
    }
  }

  lemma FixedKraft(l: seq<nat>)
    requires |l| == 288 && forall n :: 0 <= n < 288 ==> l[n] == FixedLen(n)
    ensures Kraft(l, 9, 288) == 512
  {
    Pow2Values();
    KraftStretch(l, 9, 0, 144, 8);
    KraftStretch(l, 9, 144, 256, 9);
    KraftStretch(l, 9, 256, 280, 7);
    KraftStretch(l, 9, 280, 288, 8);
  }

  lemma FixedFits()
    ensures Complete(FixedL(), 9) && Fits(FixedL(), 9) && Fits(FixedD(), 9)
  {
    FixedLFits(FixedL());
    FixedDFits(FixedD());
  }

  lemma FixedLFits(l: seq<nat>)
    requires |l| == 288 && forall n :: 0 <= n < 288 ==> l[n] == FixedLen(n)
    ensures Complete(l, 9) && Fits(l, 9)
  {
    assert Pow2(9) == 2 * Pow2(8) by { Pow2Values(); }
    FixedKraft(l);
  }

  lemma FixedDFits(d: seq<nat>)
    requires |d| == 30 && forall n :: 0 <= n < 30 ==> d[n] == 5
    ensures Fits(d, 9)
  {
    Pow2Values();
    assert Pow2(9) == 2 * Pow2(8);
    KraftStretch(d, 9, 0, 30, 5);
  }

  /** The counts `ct_init` writes down for the static literal tree. */
  lemma FixedCounts(c: nat)
    requires 1 <= c
    ensures CountLen(FixedL(), c, 288) == if c == 7 then 24 else if c == 8 then 152 else if c == 9 then 112 else 0
  {
    var l := FixedL();
    CountStretch(l, c, 0, 144, 8);
    CountStretch(l, c, 144, 256, 9);
    CountStretch(l, c, 256, 280, 7);
    CountStretch(l, c, 280, 288, 8);
  }

  /** The fixed distance code of `n` is `n` itself. */
  lemma FixedDist(n: nat)
    requires n < 30
    ensures Code(FixedD(), n) == n
  {
    var d := FixedD();
    CountStretch(d, 5, 0, n, 5);
    NoShortDist(5);
  }

  lemma {:induction false} NoShortDist(b: nat)
    requires b <= 5
    ensures NextCode(FixedD(), b) == 0
  {
    if b > 0 {
      NoShortDist(b - 1);
      CountStretch(FixedD(), b - 1, 0, 30, 5);
    }
  }
}
