/** How good code lengths are: that they follow frequency, when no other code takes fewer bits, and when a limit
    on the lengths makes that impossible. */
module CodeQuality {
  import opened Powers
  import opened PrefixCode
  import opened TreeWeight
  import opened Huffman
  import opened HuffmanHeight
  import opened Fibonacci
  import opened NodeWeights
  import opened TreeDepths
  import opened GenBitlen

  /** What the first `m` symbols count together. */
  ghost function FreqSum(freq: seq<nat>, m: nat): (r: nat)
    requires m <= |freq|
  {
    if m == 0 then 0 else FreqSum(freq, m - 1) + freq[m - 1]
  }

  /** No symbol that occurs more often has the longer code. */
  ghost predicate FrequentShort(freq: seq<nat>, lens: seq<nat>, elems: nat) {
    && elems <= |freq| && elems <= |lens|
    && forall u, v :: 0 <= u < elems && 0 <= v < elems && lens[u] > 0 && lens[v] > 0 && freq[u] > freq[v] ==>
          lens[u] <= lens[v]
  }

  /** A code with lengths of at most `top` that has a word for every symbol that occurs. */
  ghost predicate CodesUsed(freq: seq<nat>, rival: seq<nat>, elems: nat, top: nat) {
    && elems <= |freq| && elems <= |rival| && Kraft(rival, top, elems) <= Pow2(top)
    && forall v :: 0 <= v < elems && freq[v] > 0 ==> 0 < rival[v] <= top
  }

  /** No code for the symbols that occur takes fewer bits. */
  ghost predicate Cheapest(freq: seq<nat>, lens: seq<nat>, elems: nat) {
    && elems <= |freq| && elems <= |lens|
    && forall rival: seq<nat>, top: nat :: CodesUsed(freq, rival, elems, top) ==>
          Total(freq, lens, elems) <= Total(freq, rival, elems)
  }

  /** Some cheapest code has lengths of at most `top`. */
  ghost predicate CheapestFits(freq: seq<nat>, elems: nat, top: nat) {
    exists rival: seq<nat> :: CodesUsed(freq, rival, elems, top) && Cheapest(freq, rival, elems)
  }

  /** What a limit of `top` leaves: lengths follow frequency; they are a cheapest code exactly if one fits the limit;
      and one does whenever the frequencies add up to less than a Fibonacci number. */
  ghost predicate Good(freq: seq<nat>, lens: seq<nat>, elems: nat, top: nat) {
    && elems <= |freq| && FrequentShort(freq, lens, elems)
    && (Cheapest(freq, lens, elems) <==> CheapestFits(freq, elems, top))
    && (FreqSum(freq, elems) < Fib(top + 1) ==> CheapestFits(freq, elems, top))
  }

  /** So it is unless the frequencies outgrow their 16 bits, and none of the tree is too deep exactly if a cheapest
      code fits the limit. */
  ghost predicate Best(freq: seq<nat>, lens: seq<nat>, elems: nat, top: nat, overflow: nat) {
    && elems <= |freq|
    && (FreqSum(freq, elems) < 65536 ==>
          Good(freq, lens, elems, top) && (overflow == 0 <==> CheapestFits(freq, elems, top)))
  }

  // ----- frames -----

  lemma {:induction false} TotalLess(freq: seq<nat>, lens: seq<nat>, rival: seq<nat>, m: nat)
    requires m <= |freq| && m <= |lens| && m <= |rival| && forall v :: 0 <= v < m && freq[v] > 0 ==> lens[v] <= rival[v]
    ensures Total(freq, lens, m) <= Total(freq, rival, m)
  {
    if m > 0 {
      TotalLess(freq, lens, rival, m - 1);
      var f := freq[m - 1];
      if f > 0 {
        Rearrange(0, f, lens[m - 1], rival[m - 1]);
      }
    }
  }

  lemma {:induction false} TotalFrame(freq: seq<nat>, freq': seq<nat>, lens: seq<nat>, lens': seq<nat>, m: nat)
    requires m <= |freq| && m <= |lens| && m <= |freq'| && m <= |lens'|
    requires forall v :: 0 <= v < m ==> freq[v] == freq'[v] && lens[v] == lens'[v]
    ensures Total(freq, lens, m) == Total(freq', lens', m)
  {
    if m > 0 {
      TotalFrame(freq, freq', lens, lens', m - 1);
    }
  }

  lemma {:induction false} SumFrame(freq: seq<nat>, freq': seq<nat>, m: nat)
    requires m <= |freq| && m <= |freq'| && forall v :: 0 <= v < m ==> freq[v] == freq'[v]
    ensures FreqSum(freq, m) == FreqSum(freq', m)
  {
    if m > 0 {
      SumFrame(freq, freq', m - 1);
    }
  }

  /** Only the frequencies and lengths of the symbols matter. */
  lemma CheapestFrame(freq: seq<nat>, freq': seq<nat>, lens: seq<nat>, lens': seq<nat>, elems: nat)
    requires Cheapest(freq, lens, elems) && elems <= |freq'| && elems <= |lens'|
    requires forall v :: 0 <= v < elems ==> freq[v] == freq'[v] && lens[v] == lens'[v]
    ensures Cheapest(freq', lens', elems)
  {
    TotalFrame(freq, freq', lens, lens', elems);
    forall rival: seq<nat>, top: nat | CodesUsed(freq', rival, elems, top)
      ensures Total(freq', lens', elems) <= Total(freq', rival, elems)
    {
      assert CodesUsed(freq, rival, elems, top);
      TotalFrame(freq, freq', rival, rival, elems);
    }
  }

  lemma FitsFrame(freq: seq<nat>, freq': seq<nat>, elems: nat, top: nat)
    requires CheapestFits(freq, elems, top) && elems <= |freq| && elems <= |freq'|
    requires forall v :: 0 <= v < elems ==> freq[v] == freq'[v]
    ensures CheapestFits(freq', elems, top)
  {
    var rival: seq<nat> :| CodesUsed(freq, rival, elems, top) && Cheapest(freq, rival, elems);
    CheapestFrame(freq, freq', rival, rival, elems);
    assert CodesUsed(freq', rival, elems, top);
  }

  lemma BestFrame(freq: seq<nat>, freq': seq<nat>, lens: seq<nat>, lens': seq<nat>, elems: nat, top: nat, overflow: nat)
    requires Best(freq, lens, elems, top, overflow) && elems <= |freq'| && elems <= |lens| && elems <= |lens'|
    requires forall v :: 0 <= v < elems ==> freq[v] == freq'[v] && lens[v] == lens'[v]
    ensures Best(freq', lens', elems, top, overflow)
  {
    SumFrame(freq, freq', elems);
    if CheapestFits(freq, elems, top) {
      FitsFrame(freq, freq', elems, top);
    }
    if CheapestFits(freq', elems, top) {
      FitsFrame(freq', freq, elems, top);
    }
    if Cheapest(freq, lens, elems) {
      CheapestFrame(freq, freq', lens, lens', elems);
    }
    if Cheapest(freq', lens', elems) {
      CheapestFrame(freq', freq, lens', lens, elems);
    }
  }

  // ----- lengths by frequency -----

  /** Lengths that rise along the list of nodes fall with frequency. */
  lemma SteppedShort(order: seq<int>, freq: seq<nat>, lens: seq<nat>, elems: nat, k: nat, u: nat, v: nat)
    requires Siblings(order, freq, elems, k) && Stepped(order, lens, elems, 0, 0)
    requires u < elems && v < elems && u in order && v in order && freq[u] > freq[v]
    ensures u < |lens| && v < |lens| && lens[u] <= lens[v]
  {
    var i :| 0 <= i < |order| && order[i] == u;
    var j :| 0 <= j < |order| && order[j] == v;
    assert i < j;
    assert NoShorter(order, lens, elems, i, j);
  }

  lemma ShortByTree(order: seq<int>, freq: seq<nat>, lens: seq<nat>, elems: nat, k: nat, top: nat, overflow: nat)
    requires Siblings(order, freq, elems, k) && Settled(order, lens, elems, k, top)
    requires Kraft(lens, top, elems) == Pow2(top)
    requires forall v :: 0 <= v < elems && v !in order ==> freq[v] == 0
    requires if overflow == 0 then TrueDepths(order, lens, elems, k) else Stepped(order, lens, elems, 0, 0)
    ensures FrequentShort(freq, lens, elems)
  {
    RivalItself(order, lens, elems, k, top);
    forall u, v | 0 <= u < elems && 0 <= v < elems && lens[u] > 0 && lens[v] > 0 && freq[u] > freq[v]
      ensures lens[u] <= lens[v]
    {
      assert u in order && v in order;
      if overflow == 0 {
        HeavierNotLonger(order, freq, lens, elems, k, top, u, v);
      } else {
        SteppedShort(order, freq, lens, elems, k, u, v);
      }
    }
  }

  lemma RivalItself(order: seq<int>, lens: seq<nat>, elems: nat, k: nat, top: nat)
    requires Settled(order, lens, elems, k, top) && Kraft(lens, top, elems) == Pow2(top)
    ensures Rival(order, lens, elems, top)
  {
    forall v | 0 <= v < elems && v in order
      ensures 0 < lens[v] <= top
    {
      var p :| 0 <= p < |order| && order[p] == v;
    }
  }

  // ----- the cheapest code and the limit -----

  /** The depths of the leaves fill the code space of any limit they keep to. */
  lemma DepthsFill(order: seq<int>, deep: seq<nat>, elems: nat, k: nat, top: nat)
    requires TrueDepths(order, deep, elems, k) && (forall n :: 0 <= n < elems && n !in order ==> deep[n] == 0)
    requires forall i :: 0 <= i < |order| ==> deep[order[i]] <= top
    ensures Settled(order, deep, elems, k, top) && Kraft(deep, top, elems) == Pow2(top)
  {
    NoOverflow(order, deep, elems, k, top);
    forall a | 0 <= a < |order| && order[a] < elems
      ensures 0 < deep[order[a]] <= top
    {
      assert deep[order[a]] == deep[Parent(elems, k, a)] + 1;
    }
    assert deep[order[1]] == deep[Parent(elems, k, 1)] + 1;
    AfterPass(order, deep, elems, k, top, 0);
  }

  /** They are a code for the symbols of the tree. */
  lemma DepthsCode(order: seq<int>, freq: seq<nat>, deep: seq<nat>, elems: nat, k: nat, top: nat)
    requires TrueDepths(order, deep, elems, k) && (forall n :: 0 <= n < elems && n !in order ==> deep[n] == 0)
    requires forall i :: 0 <= i < |order| ==> deep[order[i]] <= top
    requires elems <= |freq| && forall v :: 0 <= v < elems && freq[v] != 0 ==> v in order
    ensures CodesUsed(freq, deep, elems, top)
  {
    DepthsFill(order, deep, elems, k, top);
    RivalItself(order, deep, elems, k, top);
  }

  /** The leaf depths are a cheapest code. */
  lemma CheapestByTree(order: seq<int>, freq: seq<nat>, lens: seq<nat>, elems: nat, k: nat)
    requires Siblings(order, freq, elems, k) && TrueDepths(order, lens, elems, k)
    requires forall v :: 0 <= v < elems ==> (v in order <==> freq[v] != 0)
    ensures Cheapest(freq, lens, elems)
  {
    forall rival: seq<nat>, top: nat | CodesUsed(freq, rival, elems, top)
      ensures Total(freq, lens, elems) <= Total(freq, rival, elems)
    {
      Optimal(order, freq, lens, elems, k, rival, top);
    }
  }

  /** If a node lies deeper than `top`, no code of lengths up to `top` is cheapest. */
  lemma DeepRulesOut(order: seq<int>, freq: seq<nat>, height: seq<nat>, deep: seq<nat>, elems: nat, k: nat, top: nat,
                     rival: seq<nat>)
    requires Ordered(order, freq, height, elems, k) && TrueDepths(order, deep, elems, k)
    requires forall v :: 0 <= v < elems ==> (v in order <==> freq[v] != 0) && (v !in order ==> deep[v] == 0)
    requires top < height[elems + k - 1] && CodesUsed(freq, rival, elems, top)
    ensures !Cheapest(freq, rival, elems)
  {
    forall a | 0 <= a < |order|
      ensures deep[order[a]] <= |order|
    {
      DepthByPlace(order, deep, elems, k, a);
    }
    DepthsCode(order, freq, deep, elems, k, |order|);
    LimitedCostsMore(order, freq, height, deep, elems, k, rival, top);
  }

  /** A node deeper than the limit keeps every cheapest code out, and takes a tree as heavy as a Fibonacci number. */
  lemma DeepNode(order: seq<int>, w: seq<int>, deep: seq<nat>, elems: nat, k: nat, top: nat, total: nat, a: nat)
    requires Weighed(order, w, elems, k, total) && TrueDepths(order, deep, elems, k)
    requires forall v :: 0 <= v < elems ==> (v in order <==> Freqs(w)[v] != 0) && (v !in order ==> deep[v] == 0)
    requires a < |order| && deep[order[a]] > top
    ensures !CheapestFits(Freqs(w), elems, top) && total >= Fib(top + 1)
  {
    var f, h := Freqs(w), Heights(w);
    assert Whole(k, k);
    DepthAndHeight(order, f, h, deep, elems, k, a);
    FibMono(top + 1, h[elems + k - 1]);
    forall rival: seq<nat> | CodesUsed(f, rival, elems, top)
      ensures !Cheapest(f, rival, elems)
    {
      DeepRulesOut(order, f, h, deep, elems, k, top, rival);
    }
  }

  /** A cheapest code fits the limit exactly if no node of the tree is deeper; and none is if the tree weighs less than
      the Fibonacci number of the limit. */
  lemma FitsByDepth(order: seq<int>, w: seq<int>, deep: seq<nat>, elems: nat, k: nat, top: nat, total: nat)
    requires Weighed(order, w, elems, k, total) && TrueDepths(order, deep, elems, k)
    requires forall v :: 0 <= v < elems ==> (v in order <==> Freqs(w)[v] != 0) && (v !in order ==> deep[v] == 0)
    ensures CheapestFits(Freqs(w), elems, top) <==> Deep(order, deep, top, |order|) == 0
    ensures total < Fib(top + 1) ==> CheapestFits(Freqs(w), elems, top)
  {
    NoneDeep(order, deep, top, |order|);
    if Deep(order, deep, top, |order|) == 0 {
      assert Whole(k, k);
      DepthsCode(order, Freqs(w), deep, elems, k, top);
      CheapestByTree(order, Freqs(w), deep, elems, k);
    } else {
      var a :| 0 <= a < |order| && deep[order[a]] > top;
      DeepNode(order, w, deep, elems, k, top, total, a);
    }
  }

  // ----- what gen_bitlen delivers -----

  /** The two leaves of a three-node tree get one bit each. */
  lemma TwoLeaves(order: seq<int>, lens: seq<nat>, elems: nat, top: nat)
    requires Settled(order, lens, elems, 1, top) && Kraft(lens, top, elems) == Pow2(top)
    ensures forall i :: 1 <= i < 3 ==> lens[order[i]] == 1
  {
    TreeIndexes(order, elems, 1);
    KraftByPlace(order, lens, elems, 1, top, elems);
    var w := Weights(order, lens, top);
    assert order[1] < Parent(elems, 1, 1) && order[2] < Parent(elems, 1, 2);
    var l1, l2 := lens[order[1]], lens[order[2]];
    assert Below(order, w, elems, 3) == Below(order, w, elems, 2) + w[2];
    assert Below(order, w, elems, 2) == Below(order, w, elems, 1) + w[1];
    assert Below(order, w, elems, 1) == Below(order, w, elems, 0) == 0;
    HalfOrLess(l1, top);
    HalfOrLess(l2, top);
  }

  lemma HalfOrLess(l: nat, top: nat)
    requires 0 < l <= top
    ensures 2 * Pow2(top - l) <= Pow2(top) && (l > 1 ==> 2 * Pow2(top - l) < Pow2(top))
  {
    if l > 1 {
      Pow2Mono(top - l, top - 2);
    }
  }

  /** Two leaves have one bit each, which nothing can beat. */
  lemma TwoAreCheapest(freq0: seq<nat>, lens: seq<nat>, order: seq<int>, elems: nat, top: nat)
    requires Settled(order, lens, elems, 1, top) && Kraft(lens, top, elems) == Pow2(top) && elems <= |freq0|
    requires forall v :: 0 <= v < elems && freq0[v] > 0 ==> v in order
    ensures FrequentShort(freq0, lens, elems) && Cheapest(freq0, lens, elems) && CheapestFits(freq0, elems, top)
  {
    TwoLeaves(order, lens, elems, top);
    forall v | 0 <= v < elems
      ensures lens[v] <= 1
    {
      if v in order {
        var p :| 0 <= p < |order| && order[p] == v;
        assert p > 0;
      }
    }
    forall rival: seq<nat>, t: nat | CodesUsed(freq0, rival, elems, t)
      ensures Total(freq0, lens, elems) <= Total(freq0, rival, elems)
    {
      TotalLess(freq0, lens, rival, elems);
    }
    RivalItself(order, lens, elems, 1, top);
    assert CodesUsed(freq0, lens, elems, top);
  }

  /** A tree of one inner node is not too deep. */
  lemma TwoNotDeep(order: seq<int>, deep: seq<nat>, elems: nat, top: nat)
    requires TrueDepths(order, deep, elems, 1) && top > 0
    ensures Deep(order, deep, top, |order|) == 0
  {
    forall i | 0 <= i < |order|
      ensures deep[order[i]] <= 1
    {
      assert i > 0 ==> Parent(elems, 1, i) == elems;
    }
    NoneDeep(order, deep, top, |order|);
  }

  /** What `gen_bitlen` leaves behind for a tree: a complete code for its leaves, their depths unless some were too
      large. */
  ghost predicate LengthsOf(order: seq<int>, lens: seq<nat>, elems: nat, k: nat, top: nat, overflow: nat) {
    && Settled(order, lens, elems, k, top) && Kraft(lens, top, elems) == Pow2(top)
    && TooDeep(order, elems, k, top, overflow)
    && if overflow == 0 then TrueDepths(order, lens, elems, k) else Stepped(order, lens, elems, 0, 0)
  }

  /** The lengths for a weighed tree. */
  lemma TreeIsBest(order: seq<int>, w: seq<int>, par: seq<int>, lens: seq<nat>, elems: nat, k: nat, top: nat,
                   total: nat, overflow: nat)
    requires Weighed(order, w, elems, k, total) && Parented(order, par, elems, k)
    requires LengthsOf(order, lens, elems, k, top, overflow)
    requires (forall v :: 0 <= v < elems ==> (v in order <==> Freqs(w)[v] != 0)) && FreqSum(Freqs(w), elems) == total
    ensures Best(Freqs(w), lens, elems, top, overflow)
  {
    var f, deep := Freqs(w), DepthVector(par, elems + k);
    DepthsTrue(order, par, elems, k);
    FitsByDepth(order, w, deep, elems, k, top, total);
    assert Whole(k, k);
    ShortByTree(order, f, lens, elems, k, top, overflow);
    RivalItself(order, lens, elems, k, top);
    assert CodesUsed(f, lens, elems, top);
    if overflow == 0 {
      CheapestByTree(order, f, lens, elems, k);
    }
  }

  /** The lengths for the two leaves of a tree with made-up symbols. */
  lemma PairIsBest(order: seq<int>, freq0: seq<nat>, par: seq<int>, lens: seq<nat>, elems: nat, top: nat,
                   overflow: nat)
    requires Parented(order, par, elems, 1) && LengthsOf(order, lens, elems, 1, top, overflow)
    requires elems <= |freq0| && forall v :: 0 <= v < elems && freq0[v] > 0 ==> v in order
    ensures Best(freq0, lens, elems, top, overflow)
  {
    TwoAreCheapest(freq0, lens, order, elems, top);
    DepthsTrue(order, par, elems, 1);
    TwoNotDeep(order, DepthVector(par, elems + 1), elems, top);
  }
}
