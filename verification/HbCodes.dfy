/** The retry loop of `BZ2_hbMakeCodeLengths` and the codes `BZ2_hbAssignCodes` gives. */
module HbCodes {
  import opened Powers
  import opened PrefixCode
  import opened Huffman
  import opened Fibonacci
  import opened NodeWeights
  import opened TreeDepths
  import opened CodeQuality
  import opened HbLengths
  import BT = BuildTree

  /** What a symbol counts for: at least one. */
  function AtLeastOne(f: int): int { if f == 0 then 1 else f }

  ghost function FreqTotal(freq: seq<int>, m: nat): int
    requires m <= |freq|
  {
    if m == 0 then 0 else FreqTotal(freq, m - 1) + AtLeastOne(freq[m - 1])
  }

  ghost predicate Initial(w: seq<int>, freq: seq<int>, m: nat) {
    m <= |freq| && m < |w| && forall i :: 0 <= i < m ==> InitialAt(w, freq, i)
  }

  ghost predicate InitialAt(w: seq<int>, freq: seq<int>, i: nat) {
    i < |freq| && i + 1 < |w| && w[i + 1] == 256 * AtLeastOne(freq[i])
  }

  lemma {:induction false} InitialTotal(w: seq<int>, freq: seq<int>, m: nat)
    requires Initial(w, freq, m)
    ensures LeafTotal(w, m) == FreqTotal(freq, m)
  {
    if m > 0 {
      assert InitialAt(w, freq, m - 1);
      InitialTotal(w, freq, m - 1);
    }
  }

  lemma InitialLeaves(w: seq<int>, freq: seq<int>, m: nat)
    requires Initial(w, freq, m) && |w| == 516 && m <= MAX_ALPHA && forall i :: 0 <= i < m ==> freq[i] >= 0
    ensures LeafWeights(w, m)
  {
    forall v | 1 <= v <= m
      ensures w[v] >= 256 && Height(w[v]) == 0
    {
      assert InitialAt(w, freq, v - 1);
    }
  }

  /** The starting weights. */
  method InitWeights(weight: array<int>, freq: array<int>, alphaSize: nat)
    requires weight != freq && weight.Length == 516 && alphaSize <= MAX_ALPHA && alphaSize <= freq.Length
    requires forall i :: 0 <= i < alphaSize ==> freq[i] >= 0
    modifies weight
    ensures LeafWeights(weight[..], alphaSize) && LeafTotal(weight[..], alphaSize) == FreqTotal(freq[..], alphaSize)
    ensures LeafFreqs(weight[..], alphaSize) == Rescaled(freq[..], alphaSize, 0)
  {
    for i := 0 to alphaSize
      invariant Initial(weight[..], freq[..], i)
    {
      ghost var w := weight[..];
      weight[i + 1] := 256 * AtLeastOne(freq[i]);
      forall j | 0 <= j < i
        ensures InitialAt(weight[..], freq[..], j)
      {
        assert InitialAt(w, freq[..], j);
      }
    }
    InitialTotal(weight[..], freq[..], alphaSize);
    InitialLeaves(weight[..], freq[..], alphaSize);
    InitialFreqs(weight[..], freq[..], alphaSize);
  }

  // ----- scaling down -----

  /** What the first `m` symbols count for after `r` rescalings. */
  ghost function Rescaled(freq: seq<int>, m: nat, r: nat): (f: seq<nat>)
    requires m <= |freq| && forall i :: 0 <= i < m ==> freq[i] >= 0
    ensures |f| == m
  {
    if r == 0 then seq(m, i requires 0 <= i < m => AtLeastOne(freq[i]))
    else seq(m, i requires 0 <= i < m => 1 + Rescaled(freq, m, r - 1)[i] / 2)
  }

  /** The symbols' frequencies, out of the weights of nodes 1..m. */
  ghost function LeafFreqs(w: seq<int>, m: nat): (f: seq<nat>)
    requires m < |w|
    ensures |f| == m
  {
    seq(m, i requires 0 <= i < m => NatFreq(w[i + 1]))
  }

  lemma LeafFreqsSame(w: seq<int>, w': seq<int>, m: nat)
    requires |w| == |w'| && m < |w| && forall v :: 1 <= v <= m ==> w[v] == w'[v]
    ensures LeafFreqs(w, m) == LeafFreqs(w', m)
  {
    forall i | 0 <= i < m
      ensures LeafFreqs(w, m)[i] == LeafFreqs(w', m)[i]
    {
      assert w[i + 1] == w'[i + 1];
    }
  }

  lemma InitialFreqs(w: seq<int>, freq: seq<int>, m: nat)
    requires Initial(w, freq, m) && forall i :: 0 <= i < m ==> freq[i] >= 0
    ensures LeafFreqs(w, m) == Rescaled(freq, m, 0)
  {
    forall i | 0 <= i < m
      ensures LeafFreqs(w, m)[i] == Rescaled(freq, m, 0)[i]
    {
      assert InitialAt(w, freq, i);
      assert NatFreq(w[i + 1]) == AtLeastOne(freq[i]);
    }
  }

  lemma ScaledFreqs(w: seq<int>, w': seq<int>, freq: seq<int>, m: nat, r: nat)
    requires LeafWeights(w, m) && Scaled(w, w', m) && m <= |freq| && (forall i :: 0 <= i < m ==> freq[i] >= 0)
    requires LeafFreqs(w, m) == Rescaled(freq, m, r)
    ensures LeafFreqs(w', m) == Rescaled(freq, m, r + 1)
  {
    forall i | 0 <= i < m
      ensures LeafFreqs(w', m)[i] == Rescaled(freq, m, r + 1)[i]
    {
      var v := i + 1;
      assert w'[v] == Halved(w[v]) && w[v] >= 256;
      HalvedLess(w[v]);
      assert LeafFreqs(w, m)[i] == NatFreq(w[v]) == Freq(w[v]);
      assert NatFreq(w'[v]) == 1 + Freq(w[v]) / 2;
    }
  }

  function Halved(w: int): int { 256 * (1 + Freq(w) / 2) }

  ghost predicate Scaled(w: seq<int>, w': seq<int>, m: nat) {
    |w| == |w'| && m < |w| && forall v :: 1 <= v <= m ==> w'[v] == Halved(w[v])
  }

  /** Scaling lowers the total unless every weight is already 1 or 2. */
  lemma {:induction false} ScaledTotal(w: seq<int>, w': seq<int>, m: nat)
    requires LeafWeights(w, m) && Scaled(w, w', m)
    ensures 0 <= LeafTotal(w', m) <= LeafTotal(w, m)
    ensures LeafTotal(w', m) == LeafTotal(w, m) ==> LeafTotal(w, m) <= 2 * m
  {
    if m > 0 {
      ScaledTotal(w, w', m - 1);
      HalvedLess(w[m]);
    }
  }

  lemma HalvedLess(w: int)
    requires w >= 256 && Height(w) == 0
    ensures 1 <= Freq(Halved(w)) <= Freq(w) && Height(Halved(w)) == 0 && Halved(w) >= 256
    ensures Freq(Halved(w)) == Freq(w) ==> Freq(w) <= 2
  {
  }

  method Rescale(weight: array<int>, alphaSize: nat)
    requires weight.Length == 516 && LeafWeights(weight[..], alphaSize)
    modifies weight
    ensures Scaled(old(weight[..]), weight[..], alphaSize) && LeafWeights(weight[..], alphaSize)
  {
    var i := 1;
    while i <= alphaSize
      invariant 1 <= i <= alphaSize + 1
      invariant forall v :: 1 <= v < i ==> weight[v] == Halved(old(weight[v]))
      invariant forall v :: i <= v < 516 ==> weight[v] == old(weight[v])
    {
      var j := weight[i] / 256;
      j := 1 + j / 2;
      weight[i] := j * 256;
      i := i + 1;
    }
    forall v | 1 <= v <= alphaSize
      ensures weight[v] >= 256 && Height(weight[v]) == 0
    {
      assert old(weight[..])[v] >= 256;
      HalvedLess(old(weight[v]));
    }
  }

  // ----- reading the lengths off -----

  /** The lengths of the symbols are the depths of the leaves. */
  ghost predicate Leaves(len: seq<nat>, par: seq<int>, m: nat) {
    m <= |len| && m < |par| && forall v :: 1 <= v <= m ==> LeafAt(len, par, v)
  }

  ghost predicate LeafAt(len: seq<nat>, par: seq<int>, v: nat) {
    1 <= v <= |len| && v < |par| && len[v - 1] == Dep(par, v)
  }

  /** The lengths by symbol, and whether one is longer than allowed. */
  method ReadLengths(len: array<nat>, parent: array<int>, alphaSize: nat, maxLen: nat,
                     ghost order: seq<int>, ghost w: seq<int>, ghost k: nat, ghost total: nat)
    returns (tooLong: bool)
    requires len as object != parent && alphaSize <= len.Length
    requires Finished(order, w, parent[..], alphaSize + 1, k, total)
    modifies len
    ensures Leaves(len[..], parent[..], alphaSize)
    ensures tooLong <==> exists v :: 1 <= v <= alphaSize && Dep(parent[..], v) > maxLen
    ensures forall j :: alphaSize <= j < len.Length ==> len[j] == old(len[j])
  {
    ghost var par := parent[..];
    tooLong := false;
    var i := 1;
    while i <= alphaSize
      invariant 1 <= i <= alphaSize + 1 && parent[..] == par
      invariant Leaves(len[..], par, i - 1)
      invariant tooLong <==> exists v :: 1 <= v < i && Dep(par, v) > maxLen
      invariant forall j :: alphaSize <= j < len.Length ==> len[j] == old(len[j])
    {
      ghost var before := len[..];
      assert i in order;
      var j := CountSteps(order, w, parent, alphaSize + 1, k, total, i);
      len[i - 1] := j;
      if j > maxLen {
        tooLong := true;
      }
      forall v | 1 <= v <= i
        ensures LeafAt(len[..], par, v)
      {
        assert v < i ==> LeafAt(before, par, v);
      }
      i := i + 1;
    }
  }

  // ----- symbols 0..m-1 and nodes 1..m -----

  lemma {:induction false} KraftShift(lens: seq<nat>, top: nat, m: nat)
    requires m < |lens|
    ensures Kraft(lens, top, m + 1) == Kraft(lens[1..], top, m) + Kraft(lens, top, 1)
  {
    if m > 0 {
      KraftShift(lens, top, m - 1);
    }
  }

  /** The nodes' frequencies are those of the symbols, and node 0 counts for nothing. */
  ghost predicate Shifted(f: seq<nat>, g: seq<nat>, m: nat) {
    m <= |f| && m < |g| && g[0] == 0 && forall i :: 0 <= i < m ==> f[i] == g[i + 1]
  }

  lemma {:induction false} TotalShift(f: seq<nat>, lens: seq<nat>, g: seq<nat>, all: seq<nat>, m: nat)
    requires Shifted(f, g, m) && m <= |lens| && m < |all|
    requires forall i :: 0 <= i < m ==> lens[i] == all[i + 1]
    ensures Total(f, lens, m) == Total(g, all, m + 1)
  {
    if m > 0 {
      TotalShift(f, lens, g, all, m - 1);
    }
  }

  /** A code for the symbols is one for the nodes, and the other way round. */
  lemma CodeShift(f: seq<nat>, g: seq<nat>, lens: seq<nat>, m: nat, top: nat)
    requires Shifted(f, g, m)
    ensures CodesUsed(f, lens, m, top) ==> CodesUsed(g, [0] + lens, m + 1, top)
    ensures CodesUsed(g, lens, m + 1, top) ==> CodesUsed(f, lens[1..], m, top)
  {
    if CodesUsed(f, lens, m, top) {
      var all: seq<nat> := [0] + lens;
      assert all[1..] == lens;
      KraftShift(all, top, m);
      assert Kraft(all, top, 1) == Kraft(all, top, 0);
    }
    if CodesUsed(g, lens, m + 1, top) {
      KraftShift(lens, top, m);
      forall v | 0 <= v < m && f[v] > 0
        ensures 0 < lens[1..][v] <= top
      {
        assert g[v + 1] > 0;
      }
    }
  }

  lemma CheapestShift(f: seq<nat>, lens: seq<nat>, g: seq<nat>, all: seq<nat>, m: nat)
    requires Shifted(f, g, m) && m <= |lens| && m < |all| && forall i :: 0 <= i < m ==> lens[i] == all[i + 1]
    ensures Cheapest(f, lens, m) <==> Cheapest(g, all, m + 1)
  {
    TotalShift(f, lens, g, all, m);
    if Cheapest(g, all, m + 1) {
      forall rival: seq<nat>, top: nat | CodesUsed(f, rival, m, top)
        ensures Total(f, lens, m) <= Total(f, rival, m)
      {
        CodeShift(f, g, rival, m, top);
        TotalShift(f, rival, g, [0] + rival, m);
      }
    }
    var n := m + 1;
    if Cheapest(f, lens, m) {
      forall rival: seq<nat>, top: nat | CodesUsed(g, rival, n, top)
        ensures Total(g, all, n) <= Total(g, rival, n)
      {
        CodeShift(f, g, rival, m, top);
        TotalShift(f, rival[1..], g, rival, m);
      }
    }
  }

  lemma FitsShift(f: seq<nat>, g: seq<nat>, m: nat, top: nat)
    requires Shifted(f, g, m)
    ensures CheapestFits(f, m, top) <==> CheapestFits(g, m + 1, top)
  {
    if CheapestFits(f, m, top) {
      var rival: seq<nat> :| CodesUsed(f, rival, m, top) && Cheapest(f, rival, m);
      CodeShift(f, g, rival, m, top);
      CheapestShift(f, rival, g, [0] + rival, m);
    }
    if CheapestFits(g, m + 1, top) {
      var rival: seq<nat> :| CodesUsed(g, rival, m + 1, top) && Cheapest(g, rival, m + 1);
      CodeShift(f, g, rival, m, top);
      CheapestShift(f, rival[1..], g, rival, m);
    }
  }

  // ----- what a round finds -----

  /** What is known once the lengths are read off. */
  ghost predicate ReadOff(len: seq<nat>, w: seq<int>, par: seq<int>, order: seq<int>, m: nat, k: nat, total: nat) {
    1 <= m && Finished(order, w, par, m + 1, k, total) && Leaves(len, par, m) && LeafWeights(w, m) && w[0] == 0
  }

  lemma LeavesShifted(len: seq<nat>, w: seq<int>, par: seq<int>, order: seq<int>, m: nat, k: nat, total: nat)
    requires ReadOff(len, w, par, order, m, k, total)
    ensures Shifted(LeafFreqs(w, m), Freqs(w), m)
    ensures forall v :: 0 <= v < m + 1 ==> (v in order <==> Freqs(w)[v] != 0)
    ensures forall i :: 0 <= i < m ==> len[i] == DepthVector(par, m + 1 + k)[i + 1]
  {
    forall i | 0 <= i < m
      ensures LeafFreqs(w, m)[i] == Freqs(w)[i + 1] && len[i] == DepthVector(par, m + 1 + k)[i + 1]
    {
      assert LeafAt(len, par, i + 1);
    }
    forall v | 1 <= v < m + 1
      ensures Freqs(w)[v] != 0
    {
      assert w[v] >= 256;
    }
  }

  /** The leaf depths are the cheapest code for the present weights. */
  lemma LeavesCheapest(len: seq<nat>, w: seq<int>, par: seq<int>, order: seq<int>, m: nat, k: nat, total: nat)
    requires ReadOff(len, w, par, order, m, k, total)
    ensures Cheapest(LeafFreqs(w, m), len[..m], m)
  {
    var all := DepthVector(par, m + 1 + k);
    DepthsTrue(order, par, m + 1, k);
    LeavesShifted(len, w, par, order, m, k, total);
    assert Whole(k, k);
    CheapestByTree(order, Freqs(w), all, m + 1, k);
    CheapestShift(LeafFreqs(w, m), len[..m], Freqs(w), all, m);
  }

  ghost predicate Shallow(par: seq<int>, m: nat, top: nat) {
    m < |par| && forall v :: 1 <= v <= m ==> Dep(par, v) <= top
  }

  /** `all` holds the depths of a tree whose leaves are the nodes 1..m. */
  ghost predicate LeafTree(order: seq<int>, all: seq<nat>, par: seq<int>, m: nat, k: nat) {
    && m + 1 + k <= |par| && all == DepthVector(par, m + 1 + k) && TrueDepths(order, all, m + 1, k) && all[0] == 0
    && 0 !in order && (forall v :: 1 <= v <= m ==> v in order)
  }

  /** No node is deeper than `top` if no leaf is. */
  lemma AllShallow(order: seq<int>, all: seq<nat>, par: seq<int>, m: nat, k: nat, top: nat)
    requires LeafTree(order, all, par, m, k)
    ensures Deep(order, all, top, |order|) == 0 <==> Shallow(par, m, top)
  {
    LeavesDecide(order, all, m + 1, k, top);
    if Shallow(par, m, top) {
      forall a | 0 <= a < |order| && order[a] < m + 1
        ensures all[order[a]] <= top
      {
        assert order[a] in order;
        assert Dep(par, order[a]) <= top;
      }
    } else {
      var v :| 1 <= v <= m && Dep(par, v) > top;
      assert v in order;
      var a :| 0 <= a < |order| && order[a] == v;
      assert all[order[a]] > top;
    }
  }

  lemma LeafTreeFills(order: seq<int>, all: seq<nat>, par: seq<int>, m: nat, k: nat, top: nat, lens: seq<nat>)
    requires LeafTree(order, all, par, m, k) && Deep(order, all, top, |order|) == 0
    requires |lens| == m && forall i :: 0 <= i < m ==> lens[i] == all[i + 1]
    ensures Kraft(lens, top, m) == Pow2(top) && forall i :: 0 <= i < m ==> 1 <= lens[i] <= top
  {
    NoneDeep(order, all, top, |order|);
    DepthsFill(order, all, m + 1, k, top);
    RivalItself(order, all, m + 1, k, top);
    ShiftFills(all, lens, m, top);
    forall i | 0 <= i < m
      ensures 1 <= lens[i] <= top
    {
      var v := i + 1;
      assert v in order && lens[i] == all[v];
    }
  }

  lemma ShiftFills(all: seq<nat>, lens: seq<nat>, m: nat, top: nat)
    requires m < |all| && all[0] == 0 && |lens| == m && forall i :: 0 <= i < m ==> lens[i] == all[i + 1]
    ensures Kraft(lens, top, m) == Kraft(all, top, m + 1)
  {
    KraftShift(all, top, m);
    assert Kraft(all, top, 1) == Kraft(all, top, 0);
    KraftSame(lens, all[1..], top, m);
  }

  lemma FinishedLeafTree(order: seq<int>, w: seq<int>, par: seq<int>, m: nat, k: nat, total: nat)
    requires Finished(order, w, par, m + 1, k, total)
    ensures LeafTree(order, DepthVector(par, m + 1 + k), par, m, k)
  {
    DepthsTrue(order, par, m + 1, k);
  }

  /** Leaf depths within the limit are a complete code. */
  lemma LeavesComplete(len: seq<nat>, par: seq<int>, order: seq<int>, m: nat, k: nat, top: nat)
    requires m + 1 + k <= |par| && LeafTree(order, DepthVector(par, m + 1 + k), par, m, k) && Leaves(len, par, m)
    requires Shallow(par, m, top) && 1 <= m
    ensures Complete(len[..m], top) && forall i :: 0 <= i < m ==> 1 <= len[i] <= top
  {
    var all, lens := DepthVector(par, m + 1 + k), len[..m];
    AllShallow(order, all, par, m, k, top);
    forall i | 0 <= i < m
      ensures lens[i] == all[i + 1]
    {
      assert LeafAt(len, par, i + 1);
    }
    LeafTreeFills(order, all, par, m, k, top, lens);
    assert forall i :: 0 <= i < m ==> len[i] == lens[i];
  }

  lemma LeavesFitDeep(len: seq<nat>, w: seq<int>, par: seq<int>, order: seq<int>, m: nat, k: nat, total: nat, top: nat)
    requires ReadOff(len, w, par, order, m, k, total)
    ensures LeafTree(order, DepthVector(par, m + 1 + k), par, m, k)
    ensures CheapestFits(LeafFreqs(w, m), m, top) <==> Deep(order, DepthVector(par, m + 1 + k), top, |order|) == 0
    ensures total < Fib(top + 1) ==> CheapestFits(LeafFreqs(w, m), m, top)
  {
    FinishedLeafTree(order, w, par, m, k, total);
    LeavesShifted(len, w, par, order, m, k, total);
    FitsByDepth(order, w, DepthVector(par, m + 1 + k), m + 1, k, top, total);
    FitsShift(LeafFreqs(w, m), Freqs(w), m, top);
  }

  /** A leaf is too deep exactly if no cheapest code fits the limit, and only if the total can still be scaled down. */
  lemma LeavesFit(len: seq<nat>, w: seq<int>, par: seq<int>, order: seq<int>, m: nat, k: nat, total: nat, top: nat)
    requires ReadOff(len, w, par, order, m, k, total)
    ensures CheapestFits(LeafFreqs(w, m), m, top) <==> Shallow(par, m, top)
    ensures total < Fib(top + 1) ==> CheapestFits(LeafFreqs(w, m), m, top)
  {
    LeavesFitDeep(len, w, par, order, m, k, total, top);
    AllShallow(order, DepthVector(par, m + 1 + k), par, m, k, top);
  }

  /** One round: build the tree over the present weights and read the lengths off. One is too long exactly if no
      cheapest code for these weights fits the limit. */
  method Round(heap: array<int>, weight: array<int>, parent: array<int>, len: array<nat>, alphaSize: nat, maxLen: nat)
    returns (tooLong: bool)
    requires heap != weight && heap != parent && weight != parent
    requires len as object != parent && len as object != weight && len as object != heap
    requires heap.Length == 260 && weight.Length == parent.Length == 516 && alphaSize <= len.Length
    requires 2 <= alphaSize <= MAX_ALPHA && 0 < maxLen && LeafWeights(weight[..], alphaSize)
    requires LeafTotal(weight[..], alphaSize) < 0x80_0000
    modifies heap, weight, parent, len
    ensures forall i :: 1 <= i <= alphaSize ==> weight[i] == old(weight[i])
    ensures Cheapest(LeafFreqs(old(weight[..]), alphaSize), len[..alphaSize], alphaSize)
    ensures tooLong <==> !CheapestFits(LeafFreqs(old(weight[..]), alphaSize), alphaSize, maxLen)
    ensures tooLong ==> LeafTotal(old(weight[..]), alphaSize) >= Fib(maxLen + 1)
    ensures !tooLong ==> Complete(len[..alphaSize], maxLen) && forall i :: 0 <= i < alphaSize ==> 1 <= len[i] <= maxLen
    ensures forall j :: alphaSize <= j < len.Length ==> len[j] == old(len[j])
  {
    ghost var w0 := weight[..];
    Plant(heap, weight, parent, alphaSize);
    TotalFrame(w0, weight[..], alphaSize);
    PlantedGrows(heap[..], weight[..], parent[..], alphaSize);
    ghost var total: nat := LeafTotal(w0, alphaSize);
    ghost var tail := JoinAll(heap, weight, parent, alphaSize, total);
    ghost var order, k: nat := BT.Roots(heap[..], 1) + tail, alphaSize - 1;
    StateFinished(heap[..], weight[..], parent[..], tail, alphaSize + 1, k, total);
    ghost var w, par := weight[..], parent[..];
    tooLong := ReadLengths(len, parent, alphaSize, maxLen, order, w, k, total);
    LeafFreqsSame(w0, w, alphaSize);
    LeavesCheapest(len[..], w, par, order, alphaSize, k, total);
    LeavesFit(len[..], w, par, order, alphaSize, k, total, maxLen);
    if !tooLong {
      FinishedLeafTree(order, w, par, alphaSize, k, total);
      LeavesComplete(len[..], par, order, alphaSize, k, maxLen);
    }
  }

  lemma {:induction false} TotalFrame(w: seq<int>, w': seq<int>, m: nat)
    requires |w| == |w'| && m < |w| && forall v :: 1 <= v <= m ==> w[v] == w'[v]
    ensures LeafTotal(w, m) == LeafTotal(w', m)
  {
    if m > 0 {
      TotalFrame(w, w', m - 1);
    }
  }

  /** No cheapest code fits the limit after fewer than `r` rescalings. */
  ghost predicate Needed(freq: seq<int>, m: nat, maxLen: nat, r: nat) {
    && m <= |freq| && (forall i :: 0 <= i < m ==> freq[i] >= 0)
    && forall q :: 0 <= q < r ==> !CheapestFits(Rescaled(freq, m, q), m, maxLen)
  }

  /** The lengths are cheapest for the frequencies after `r` rescalings, and fewer would not have been enough. */
  ghost predicate Settles(freq: seq<int>, lens: seq<nat>, m: nat, maxLen: nat, r: nat) {
    Needed(freq, m, maxLen, r) && Cheapest(Rescaled(freq, m, r), lens, m)
  }

  /** So they are cheapest for the frequencies as given exactly if some cheapest code for those fits the limit. */
  lemma CheapestIfFits(freq: seq<int>, lens: seq<nat>, m: nat, maxLen: nat, r: nat)
    requires Settles(freq, lens, m, maxLen, r) && |lens| == m && Complete(lens, maxLen)
    requires forall i :: 0 <= i < m ==> 1 <= lens[i] <= maxLen
    ensures Cheapest(Rescaled(freq, m, 0), lens, m) <==> CheapestFits(Rescaled(freq, m, 0), m, maxLen)
    ensures CheapestFits(Rescaled(freq, m, 0), m, maxLen) <==> r == 0
  {
    assert CodesUsed(Rescaled(freq, m, 0), lens, m, maxLen);
  }

  /** The whole of `BZ2_hbMakeCodeLengths`: it ends for every frequency vector whose total fits the weights, with a
      complete code of lengths 1..maxLen. No code beats it for the frequencies after the least number of rescalings
      that lets a cheapest code fit the limit; that is none if the total stays below a Fibonacci number. */
  method MakeCodeLengths(heap: array<int>, weight: array<int>, parent: array<int>, len: array<nat>, freq: array<int>,
                         alphaSize: nat, maxLen: nat)
    returns (ghost rescalings: nat)
    requires heap != weight && heap != parent && weight != parent && freq != weight && freq != heap && freq != parent
    requires len as object != parent && len as object != weight && len as object != heap && len as object != freq
    requires heap.Length == 260 && weight.Length == parent.Length == 516 && alphaSize <= len.Length
    requires alphaSize <= freq.Length
    requires 2 <= alphaSize <= MAX_ALPHA && 0 < maxLen && Fib(maxLen + 1) > 2 * alphaSize
    requires (forall i :: 0 <= i < alphaSize ==> freq[i] >= 0) && FreqTotal(freq[..], alphaSize) < 0x80_0000
    modifies heap, weight, parent, len
    ensures Complete(len[..alphaSize], maxLen) && forall i :: 0 <= i < alphaSize ==> 1 <= len[i] <= maxLen
    ensures forall j :: alphaSize <= j < len.Length ==> len[j] == old(len[j])
    ensures Settles(freq[..], len[..alphaSize], alphaSize, maxLen, rescalings)
    ensures FreqTotal(freq[..], alphaSize) < Fib(maxLen + 1) ==> rescalings == 0
  {
    InitWeights(weight, freq, alphaSize);
    rescalings := 0;
    while true
      invariant LeafFreqs(weight[..], alphaSize) == Rescaled(freq[..], alphaSize, rescalings)
      invariant LeafWeights(weight[..], alphaSize) && LeafTotal(weight[..], alphaSize) < 0x80_0000
      invariant Needed(freq[..], alphaSize, maxLen, rescalings)
      invariant rescalings == 0 ==> LeafTotal(weight[..], alphaSize) == FreqTotal(freq[..], alphaSize)
      invariant FreqTotal(freq[..], alphaSize) < Fib(maxLen + 1) ==> rescalings == 0
      invariant forall j :: alphaSize <= j < len.Length ==> len[j] == old(len[j])
      decreases LeafTotal(weight[..], alphaSize)
    {
      ghost var w0 := weight[..];
      var tooLong := Round(heap, weight, parent, len, alphaSize, maxLen);
      ghost var w1 := weight[..];
      TotalFrame(w0, w1, alphaSize);
      LeafFreqsSame(w0, w1, alphaSize);
      if !tooLong {
        break;
      }
      Rescale(weight, alphaSize);
      ScaledTotal(w1, weight[..], alphaSize);
      ScaledFreqs(w1, weight[..], freq[..], alphaSize, rescalings);
      rescalings := rescalings + 1;
    }
  }

  /** The limit of 17 the compressor asks for is one that always ends. */
  lemma SeventeenEnds(alphaSize: nat)
    requires alphaSize <= MAX_ALPHA
    ensures Fib(17 + 1) > 2 * alphaSize
  {
    FibAt18();
  }

  // ----- assigning the codes -----

  /** Codes of one length, first to last, from `vec` up. */
  method AssignLength(code: array<nat>, length: array<nat>, alphaSize: nat, n: nat, vec0: nat) returns (vec: nat)
    requires code != length && alphaSize <= code.Length && alphaSize <= length.Length && n > 0
    modifies code
    ensures vec == vec0 + CountLen(length[..alphaSize], n, alphaSize)
    ensures forall i :: 0 <= i < alphaSize && length[i] == n ==> code[i] == vec0 + CountLen(length[..alphaSize], n, i)
    ensures forall i :: 0 <= i < code.Length && (i >= alphaSize || length[i] != n) ==> code[i] == old(code[i])
  {
    ghost var lens: seq<nat> := length[..alphaSize];
    vec := vec0;
    for i := 0 to alphaSize
      invariant vec == vec0 + CountLen(lens, n, i) && length[..alphaSize] == lens
      invariant forall j :: 0 <= j < i && lens[j] == n ==> code[j] == vec0 + CountLen(lens, n, j)
      invariant forall j :: 0 <= j < code.Length && (j >= i || lens[j] != n) ==> code[j] == old(code[j])
    {
      if length[i] == n {
        code[i] := vec;
        vec := vec + 1;
      }
    }
  }

  lemma {:induction false} NoShorter(lens: seq<nat>, b: nat, minLen: nat)
    requires b <= minLen && forall i :: 0 <= i < |lens| ==> lens[i] >= minLen
    ensures NextCode(lens, b) == 0
  {
    if b > 0 {
      NoShorter(lens, b - 1, minLen);
      NoneOf(lens, b - 1, |lens|);
    }
  }

  lemma {:induction false} NoneOf(lens: seq<nat>, b: nat, m: nat)
    requires m <= |lens| && forall i :: 0 <= i < |lens| ==> lens[i] > b
    ensures CountLen(lens, b, m) == 0
  {
    if m > 0 {
      NoneOf(lens, b, m - 1);
    }
  }

  /** `BZ2_hbAssignCodes`: the canonical code of the lengths. */
  method AssignCodes(code: array<nat>, length: array<nat>, minLen: nat, maxLen: nat, alphaSize: nat)
    requires code != length && alphaSize <= code.Length && alphaSize <= length.Length && 0 < minLen
    requires forall i :: 0 <= i < alphaSize ==> minLen <= length[i] <= maxLen
    modifies code
    ensures forall i :: 0 <= i < alphaSize ==> code[i] == Code(length[..alphaSize], i)
    ensures forall i :: alphaSize <= i < code.Length ==> code[i] == old(code[i])
  {
    ghost var lens: seq<nat> := length[..alphaSize];
    NoShorter(lens, minLen, minLen);
    var vec, n := 0, minLen;
    while n <= maxLen
      invariant minLen <= n && (minLen <= maxLen ==> n <= maxLen + 1) && length[..alphaSize] == lens
      invariant vec == NextCode(lens, n)
      invariant forall i :: 0 <= i < alphaSize && lens[i] < n ==> code[i] == Code(lens, i)
      invariant forall i :: alphaSize <= i < code.Length ==> code[i] == old(code[i])
    {
      vec := AssignLength(code, length, alphaSize, n, vec);
      vec := vec * 2;
      n := n + 1;
    }
  }

  /** Lengths within the limit and codes assigned from them decode uniquely, and every code fits 32 bits. */
  lemma AssignedCodesDecode(lens: seq<nat>, top: nat, sym: nat, rest: seq<bool>)
    requires Complete(lens, top) && top <= 31 && sym < |lens| && 1 <= lens[sym]
    ensures Code(lens, sym) < Pow2(lens[sym]) <= 0x8000_0000
    ensures DecodeSym(lens, Encode(lens, sym) + rest) == Some((sym, rest))
  {
    CodeFits(lens, top, sym);
    Pow2Mono(lens[sym], 31);
    Pow2Values();
    DecodeEncode(lens, top, sym, rest);
  }
}
