/** What is still true of lengths that were cut off and repaired: with as many codes of each length, no other way of
    giving them to the symbols takes fewer bits. */
module Arrangement {
  import opened Arith
  import opened PrefixCode
  import opened Huffman
  import opened CodeQuality

  /** How often the symbols with codes longer than `b` occur, and how many they are. */
  ghost function LongerSum(freq: seq<nat>, lens: seq<nat>, b: nat, m: nat): (r: nat)
    requires m <= |freq| && m <= |lens|
  {
    if m == 0 then 0 else LongerSum(freq, lens, b, m - 1) + if lens[m - 1] > b then freq[m - 1] else 0
  }

  ghost function LongerCount(lens: seq<nat>, b: nat, m: nat): (r: nat)
    requires m <= |lens|
  {
    if m == 0 then 0 else LongerCount(lens, b, m - 1) + if lens[m - 1] > b then 1 else 0
  }

  // ----- level by level -----

  /** The bits up to the `b`-th of every code. */
  ghost function Layers(freq: seq<nat>, lens: seq<nat>, b: nat, m: nat): (r: nat)
    requires m <= |freq| && m <= |lens|
  {
    if b == 0 then 0 else Layers(freq, lens, b - 1, m) + LongerSum(freq, lens, b - 1, m)
  }

  function Lower(a: nat, b: nat): (r: nat) { if a < b then a else b }

  lemma OneMore(f: nat, len: nat, b: nat)
    requires b > 0
    ensures f * Lower(len, b) == f * Lower(len, b - 1) + if len > b - 1 then f else 0
  {
    Distribute(b - 1, 1, f);
  }

  lemma {:induction false} LayersOne(freq: seq<nat>, lens: seq<nat>, b: nat, m: nat)
    requires 0 < m <= |freq| && m <= |lens|
    ensures Layers(freq, lens, b, m) == Layers(freq, lens, b, m - 1) + freq[m - 1] * Lower(lens[m - 1], b)
    decreases b
  {
    if b > 0 {
      LayersOne(freq, lens, b - 1, m);
      OneMore(freq[m - 1], lens[m - 1], b);
    }
  }

  lemma {:induction false} LayersZero(freq: seq<nat>, lens: seq<nat>, b: nat)
    ensures Layers(freq, lens, b, 0) == 0
  {
    if b > 0 {
      LayersZero(freq, lens, b - 1);
    }
  }

  /** A code's bits, counted level by level. */
  lemma {:induction false} LayersAll(freq: seq<nat>, lens: seq<nat>, top: nat, m: nat)
    requires m <= |freq| && m <= |lens| && forall v :: 0 <= v < m ==> lens[v] <= top
    ensures Layers(freq, lens, top, m) == Total(freq, lens, m)
    decreases m
  {
    if m == 0 {
      LayersZero(freq, lens, top);
    } else {
      LayersAll(freq, lens, top, m - 1);
      LayersOne(freq, lens, top, m);
    }
  }

  // ----- as many of each length -----

  lemma {:induction false} NoneLonger(lens: seq<nat>, top: nat, m: nat)
    requires m <= |lens| && forall v :: 0 <= v < m ==> lens[v] <= top
    ensures LongerCount(lens, top, m) == 0
    decreases m
  {
    if m > 0 {
      NoneLonger(lens, top, m - 1);
    }
  }

  lemma {:induction false} LongerStep(lens: seq<nat>, b: nat, m: nat)
    requires m <= |lens|
    ensures LongerCount(lens, b, m) == LongerCount(lens, b + 1, m) + CountLen(lens, b + 1, m)
    decreases m
  {
    if m > 0 {
      LongerStep(lens, b, m - 1);
    }
  }

  /** The same symbols have codes, and there are as many of each length. */
  ghost predicate SameLengths(lens: seq<nat>, other: seq<nat>, elems: nat) {
    && elems <= |lens| && elems <= |other|
    && (forall v :: 0 <= v < elems && lens[v] == 0 ==> other[v] == 0)
    && (forall b :: 0 < b ==> CountLen(lens, b, elems) == CountLen(other, b, elems))
  }

  lemma {:induction false} SameLonger(lens: seq<nat>, other: seq<nat>, elems: nat, top: nat, b: nat)
    requires SameLengths(lens, other, elems) && b <= top
    requires forall v :: 0 <= v < elems ==> lens[v] <= top && other[v] <= top
    ensures LongerCount(lens, b, elems) == LongerCount(other, b, elems)
    decreases top - b
  {
    if b == top {
      NoneLonger(lens, top, elems);
      NoneLonger(other, top, elems);
    } else {
      SameLonger(lens, other, elems, top, b + 1);
      LongerStep(lens, b, elems);
      LongerStep(other, b, elems);
    }
  }

  // ----- one level -----

  /** No symbol with a code longer than `b` occurs more than `t` times, and no other less often. */
  ghost predicate Divides(freq: seq<nat>, lens: seq<nat>, b: nat, m: nat, t: nat) {
    && m <= |freq| && m <= |lens|
    && forall v :: 0 <= v < m && lens[v] > 0 ==> if lens[v] > b then freq[v] <= t else freq[v] >= t
  }

  lemma {:induction false} MostOfLonger(freq: seq<nat>, lens: seq<nat>, b: nat, m: nat) returns (t: nat)
    requires m <= |freq| && m <= |lens|
    ensures forall v :: 0 <= v < m && lens[v] > b ==> freq[v] <= t
    ensures t == 0 || exists v :: 0 <= v < m && lens[v] > b && freq[v] == t
    decreases m
  {
    t := 0;
    if m > 0 {
      t := MostOfLonger(freq, lens, b, m - 1);
      if lens[m - 1] > b && freq[m - 1] > t {
        t := freq[m - 1];
      }
    }
  }

  ghost function Flat(t: nat, m: nat): (f: seq<nat>)
    ensures |f| == m && forall i :: 0 <= i < m ==> f[i] == t
  {
    seq(m, i => t)
  }

  lemma {:induction false} FlatSum(t: nat, lens: seq<nat>, b: nat, n: nat, m: nat)
    requires m <= n && m <= |lens|
    ensures LongerSum(Flat(t, n), lens, b, m) == t * LongerCount(lens, b, m)
    decreases m
  {
    if m > 0 {
      FlatSum(t, lens, b, n, m - 1);
      Distribute(LongerCount(lens, b, m - 1), 1, t);
    }
  }

  lemma {:induction false} LeastOften(freq: seq<nat>, lens: seq<nat>, other: seq<nat>, b: nat, t: nat, n: nat, m: nat)
    requires Divides(freq, lens, b, n, t) && m <= n <= |other|
    requires forall v :: 0 <= v < n && lens[v] == 0 ==> other[v] == 0
    ensures LongerSum(freq, lens, b, m) + LongerSum(Flat(t, n), other, b, m) <=
            LongerSum(freq, other, b, m) + LongerSum(Flat(t, n), lens, b, m)
    decreases m
  {
    if m > 0 {
      LeastOften(freq, lens, other, b, t, n, m - 1);
    }
  }

  /** If length follows frequency, the symbols with the longer codes occur least often of any that many. */
  lemma LayerLeast(freq: seq<nat>, lens: seq<nat>, other: seq<nat>, elems: nat, top: nat, b: nat)
    requires FrequentShort(freq, lens, elems) && SameLengths(lens, other, elems) && b <= top
    requires forall v :: 0 <= v < elems ==> lens[v] <= top && other[v] <= top
    ensures LongerSum(freq, lens, b, elems) <= LongerSum(freq, other, b, elems)
  {
    var t := MostOfLonger(freq, lens, b, elems);
    LeastOften(freq, lens, other, b, t, elems, elems);
    SameLonger(lens, other, elems, top, b);
    FlatSum(t, lens, b, elems, elems);
    FlatSum(t, other, b, elems, elems);
  }

  lemma {:induction false} LayersLeast(freq: seq<nat>, lens: seq<nat>, other: seq<nat>, elems: nat, top: nat, b: nat)
    requires FrequentShort(freq, lens, elems) && SameLengths(lens, other, elems) && b <= top
    requires forall v :: 0 <= v < elems ==> lens[v] <= top && other[v] <= top
    ensures Layers(freq, lens, b, elems) <= Layers(freq, other, b, elems)
    decreases b
  {
    if b > 0 {
      LayersLeast(freq, lens, other, elems, top, b - 1);
      LayerLeast(freq, lens, other, elems, top, b - 1);
    }
  }

  /** Lengths that follow frequency are the cheapest way to give out that many codes of each length. */
  lemma BestArranged(freq: seq<nat>, lens: seq<nat>, other: seq<nat>, elems: nat, top: nat)
    requires FrequentShort(freq, lens, elems) && SameLengths(lens, other, elems)
    requires forall v :: 0 <= v < elems ==> lens[v] <= top && other[v] <= top
    ensures Total(freq, lens, elems) <= Total(freq, other, elems)
  {
    LayersAll(freq, lens, top, elems);
    LayersAll(freq, other, top, elems);
    LayersLeast(freq, lens, other, elems, top, top);
  }
}
