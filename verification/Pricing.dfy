/** What a list of symbols costs in a tree: the sum over frequencies that `gen_bitlen`
    keeps is the number of bits the symbols take when they are sent. */
module Pricing {
  import opened Arith
  import opened GenBitlen
  import opened Occurrences

  ghost predicate IsCount(freq: seq<nat>, list: seq<nat>, m: nat) {
    m <= |freq| && forall n :: 0 <= n < m ==> freq[n] == Count(list, n)
  }

  /** Every symbol of the list is in the alphabet and has a length. */
  ghost predicate Priced(d: Desc, lens: seq<nat>, list: seq<nat>) {
    && d.elems <= |lens| && d.elems == d.extraBase + |d.extraBits|
    && forall i :: 0 <= i < |list| ==> list[i] < d.elems && Assigned(lens[list[i]])
  }

  /** The bits the symbols take, extra bits included, with these lengths. */
  ghost function Price(d: Desc, lens: seq<nat>, list: seq<nat>): (r: nat)
    requires d.elems <= |lens| && d.elems == d.extraBase + |d.extraBits|
    requires forall i :: 0 <= i < |list| ==> list[i] < d.elems
  {
    if list == [] then 0
    else
      var x := list[|list| - 1];
      Price(d, lens, list[..|list| - 1]) + lens[x] + d.Extra(x)
  }

  lemma {:induction false} CostBump(d: Desc, freq: seq<nat>, lens: seq<nat>, x: nat, m: nat)
    requires m <= d.extraBase + |d.extraBits| && m <= |freq| && m <= |lens| && x < |freq| && freq[x] > 0
    ensures Cost(d, freq, lens, m) ==
            Cost(d, freq[x := freq[x] - 1], lens, m) + if x < m && Assigned(lens[x]) then lens[x] + d.Extra(x) else 0
  {
    if m > 0 {
      CostBump(d, freq, lens, x, m - 1);
      if x == m - 1 {
        Distribute(freq[x] - 1, 1, lens[x] + d.Extra(x));
      }
    }
  }

  lemma {:induction false} StaticBump(d: Desc, freq: seq<nat>, lens: seq<nat>, x: nat, m: nat)
    requires m <= d.extraBase + |d.extraBits| && m <= |freq| && m <= |lens| && x < |freq| && freq[x] > 0
    requires d.staticLens.Some? && m <= |d.staticLens.value|
    ensures StaticCost(d, freq, lens, m) ==
            StaticCost(d, freq[x := freq[x] - 1], lens, m) + if x < m && Assigned(lens[x])
                then d.staticLens.value[x] + d.Extra(x) else 0
  {
    if m > 0 {
      StaticBump(d, freq, lens, x, m - 1);
      if x == m - 1 {
        Distribute(freq[x] - 1, 1, d.staticLens.value[x] + d.Extra(x));
      }
    }
  }

  lemma {:induction false} NoCost(d: Desc, freq: seq<nat>, lens: seq<nat>, m: nat)
    requires m <= d.extraBase + |d.extraBits| && m <= |freq| && m <= |lens| && forall n :: 0 <= n < m ==> freq[n] == 0
    ensures Cost(d, freq, lens, m) == 0
    ensures d.staticLens.Some? && m <= |d.staticLens.value| ==> StaticCost(d, freq, lens, m) == 0
  {
    if m > 0 {
      NoCost(d, freq, lens, m - 1);
    }
  }

  lemma CountLess(freq: seq<nat>, list: seq<nat>, m: nat)
    requires IsCount(freq, list, m) && list != [] && list[|list| - 1] < m
    ensures var x := list[|list| - 1]; freq[x] > 0 && IsCount(freq[x := freq[x] - 1], list[..|list| - 1], m)
  {
  }

  /** The price of a list is the cost of its frequencies. */
  lemma {:induction false} CostIsPrice(d: Desc, freq: seq<nat>, lens: seq<nat>, list: seq<nat>)
    requires Priced(d, lens, list) && IsCount(freq, list, d.elems)
    ensures Cost(d, freq, lens, d.elems) == Price(d, lens, list)
    decreases |list|
  {
    if list == [] {
      NoCost(d, freq, lens, d.elems);
    } else {
      var x := list[|list| - 1];
      assert list[|list| - 1] < d.elems;
      CountLess(freq, list, d.elems);
      CostIsPrice(d, freq[x := freq[x] - 1], lens, list[..|list| - 1]);
      CostBump(d, freq, lens, x, d.elems);
    }
  }

  /** ... and so with the static lengths, for lists the dynamic tree covers. */
  lemma {:induction false} StaticIsPrice(d: Desc, freq: seq<nat>, lens: seq<nat>, list: seq<nat>)
    requires Priced(d, lens, list) && IsCount(freq, list, d.elems) && d.staticLens.Some?
    requires d.elems <= |d.staticLens.value|
    ensures StaticCost(d, freq, lens, d.elems) == Price(d, d.staticLens.value, list)
    decreases |list|
  {
    if list == [] {
      NoCost(d, freq, lens, d.elems);
    } else {
      var x := list[|list| - 1];
      assert list[|list| - 1] < d.elems;
      CountLess(freq, list, d.elems);
      StaticIsPrice(d, freq[x := freq[x] - 1], lens, list[..|list| - 1]);
      StaticBump(d, freq, lens, x, d.elems);
    }
  }

  lemma PriceMore(d: Desc, lens: seq<nat>, list: seq<nat>, x: nat)
    requires d.elems <= |lens| && d.elems == d.extraBase + |d.extraBits|
    requires (forall i :: 0 <= i < |list| ==> list[i] < d.elems) && x < d.elems
    ensures Price(d, lens, list + [x]) == Price(d, lens, list) + lens[x] + d.Extra(x)
  {
    assert (list + [x])[..|list|] == list;
  }
}
