/** `gen_bitlen`: code lengths from the Huffman tree, cut off at the longest
    length allowed and repaired so that they again form a complete code. */
module GenBitlen {
  import opened Arith
  import opened Powers
  import opened PrefixCode
  import opened TreeWeight
  import opened Huffman
  import opened TreeDepths

  const HEAP_SIZE := 573
  const MAX_BITS := 15
  const TWO32 := 0x1_0000_0000

  /** What does not change about one of the three trees. */
  datatype Desc = Desc(elems: nat, extraBase: nat, extraBits: seq<nat>, maxLength: nat, staticLens: Option<seq<nat>>) {
    ghost predicate Valid() {
      && MAX_BITS < elems <= 286 && 0 < maxLength <= MAX_BITS && elems <= Pow2(maxLength)
      && extraBase + |extraBits| == elems
      && (staticLens.Some? ==> |staticLens.value| >= elems)
      && Extra(0) == Extra(1) == Extra(2) == 0
    }

    function Static(n: nat): int
      requires staticLens.Some? && n < |staticLens.value|
    {
      staticLens.value[n]
    }

    function Extra(n: nat): (r: nat)
      requires n < extraBase + |extraBits|
    {
      if n >= extraBase then extraBits[n - extraBase] else 0
    }
  }

  /** A leaf that has been given its length; before that its entry holds its parent. */
  predicate Assigned(len: nat) {
    0 < len <= MAX_BITS
  }

  /** Bits the first `m` symbols take with these lengths. */
  ghost function Cost(d: Desc, freq: seq<nat>, lens: seq<nat>, m: nat): (r: nat)
    requires m <= d.extraBase + |d.extraBits| && m <= |freq| && m <= |lens|
  {
    if m == 0 then 0
    else Cost(d, freq, lens, m - 1) + if Assigned(lens[m - 1]) then freq[m - 1] * (lens[m - 1] + d.Extra(m - 1)) else 0
  }

  /** The same with the static tree's lengths. */
  ghost function StaticCost(d: Desc, freq: seq<nat>, lens: seq<nat>, m: nat): (r: nat)
    requires m <= d.extraBase + |d.extraBits| && m <= |freq| && m <= |lens|
    requires d.staticLens.Some? && m <= |d.staticLens.value|
  {
    if m == 0 then 0
    else StaticCost(d, freq, lens, m - 1) +
         if Assigned(lens[m - 1]) then freq[m - 1] * (d.staticLens.value[m - 1] + d.Extra(m - 1)) else 0
  }

  function Add32(a: nat, b: int): (r: nat)
    ensures r < TWO32
  {
    (a + b) % TWO32
  }

  lemma Add32Twice(a: nat, b: int, c: int)
    ensures Add32(Add32(a, b), c) == Add32(a, b + c)
  {
  }

  // ----- giving one more leaf its length -----

  lemma {:induction false} CountLenUpdate(lens: seq<nat>, n: nat, v: nat, b: nat, m: nat)
    requires n < |lens| && m <= |lens|
    ensures CountLen(lens[n := v], b, m) ==
            CountLen(lens, b, m) + if n < m then (if v == b then 1 else 0) - (if lens[n] == b then 1 else 0) else 0
    decreases m
  {
    if m > 0 {
      CountLenUpdate(lens, n, v, b, m - 1);
    }
  }

  lemma {:induction false} CostUpdate(d: Desc, freq: seq<nat>, lens: seq<nat>, n: nat, v: nat, m: nat)
    requires m <= d.extraBase + |d.extraBits| && m <= |freq| && m <= |lens| && n < |lens| && Assigned(v)
    ensures Cost(d, freq, lens[n := v], m) == Cost(d, freq, lens, m) +
            if n >= m then 0
            else freq[n] * (v + d.Extra(n)) - if Assigned(lens[n]) then freq[n] * (lens[n] + d.Extra(n)) else 0
    decreases m
  {
    if m > 0 {
      CostUpdate(d, freq, lens, n, v, m - 1);
    }
  }

  lemma {:induction false} StaticCostUpdate(d: Desc, freq: seq<nat>, lens: seq<nat>, n: nat, v: nat, m: nat)
    requires m <= d.extraBase + |d.extraBits| && m <= |freq| && m <= |lens| && n < |lens| && Assigned(v)
    requires d.staticLens.Some? && m <= |d.staticLens.value|
    ensures StaticCost(d, freq, lens[n := v], m) == StaticCost(d, freq, lens, m) +
            if n >= m || Assigned(lens[n]) then 0 else freq[n] * (d.staticLens.value[n] + d.Extra(n))
    decreases m
  {
    if m > 0 {
      StaticCostUpdate(d, freq, lens, n, v, m - 1);
    }
  }

  lemma {:induction false} OverflowFrame(lens: seq<nat>, n: nat, v: nat, elems: nat, k: nat, top: nat, m: nat)
    requires elems + k <= |lens| && m <= 2 * k + 1 && n < |lens|
    requires m > 1 ==> n < Parent(elems, k, m - 1)
    ensures Overflow(lens[n := v], elems, k, top, m) == Overflow(lens, elems, k, top, m)
    decreases m
  {
    if m > 1 {
      OverflowFrame(lens, n, v, elems, k, top, m - 1);
    }
  }

  // ----- the first pass -----

  /** Entries of the nodes still to be done hold their parents; the rest of the tree is done. */
  ghost predicate Half(order: seq<int>, lens: seq<nat>, elems: nat, k: nat, top: nat, i: nat) {
    && IsTree(order, elems, k) && 1 <= i <= |order| && elems + k <= |lens|
    && lens[elems + k - 1] == 0
    && (forall a {:trigger order[a]} :: 1 <= a < i ==> lens[order[a]] == Capped(lens[Parent(elems, k, a)], top))
    && (forall a {:trigger order[a]} :: i <= a < |order| ==> lens[order[a]] == Parent(elems, k, a))
    && (forall n :: 0 <= n < elems && n !in order ==> lens[n] == 0)
  }

  /** Counts and costs agree with the lengths given so far. */
  ghost predicate Tallied(d: Desc, freq: seq<nat>, lens: seq<nat>, cnt: seq<nat>, opt: nat, stat: nat, opt0: nat,
                          stat0: nat) {
    && d.Valid() && d.elems <= |freq| && d.elems <= |lens| && |cnt| == MAX_BITS + 1
    && cnt[0] == 0
    && (forall b :: 1 <= b <= MAX_BITS ==> cnt[b] == CountLen(lens, b, d.elems))
    && opt == Add32(opt0, Cost(d, freq, lens, d.elems))
    && stat == if d.staticLens.Some? then Add32(stat0, StaticCost(d, freq, lens, d.elems)) else stat0
  }

  lemma HalfStep(order: seq<int>, lens: seq<nat>, elems: nat, k: nat, top: nat, i: nat)
    requires Half(order, lens, elems, k, top, i) && i < |order|
    ensures var n := order[i]; var q := lens[n];
            0 <= n < |lens| && q < |lens| && q == Parent(elems, k, i)
            && Half(order, lens[n := Capped(lens[q], top)], elems, k, top, i + 1)
  {
    var n := order[i];
    var p := InnerPlace(order, elems, k, Parent(elems, k, i) - elems);
    var v: nat := Capped(lens[Parent(elems, k, i)], top);
    var lens' := lens[n := v];
    forall a | 1 <= a < i + 1
      ensures lens'[order[a]] == Capped(lens'[Parent(elems, k, a)], top)
    {
      assert order[i] < Parent(elems, k, i) <= Parent(elems, k, a);
      if a < i {
        assert order[a] != order[i];
      }
    }
  }

  /** A leaf's length is counted once and charged once. */
  lemma TallyLeaf(d: Desc, freq: seq<nat>, lens: seq<nat>, cnt: seq<nat>, opt: nat, stat: nat, opt0: nat, stat0: nat,
                  n: nat, bits: nat)
    requires Tallied(d, freq, lens, cnt, opt, stat, opt0, stat0) && n < d.elems
    requires lens[n] > MAX_BITS && Assigned(bits)
    ensures Tallied(d, freq, lens[n := bits], cnt[bits := cnt[bits] + 1],
              Add32(opt, freq[n] * (bits + d.Extra(n))),
              if d.staticLens.Some? then Add32(stat, freq[n] * (d.staticLens.value[n] + d.Extra(n))) else stat,
              opt0, stat0)
  {
    var cnt' := cnt[bits := cnt[bits] + 1];
    forall b | 1 <= b <= MAX_BITS
      ensures cnt'[b] == CountLen(lens[n := bits], b, d.elems)
    {
      CountLenUpdate(lens, n, bits, b, d.elems);
    }
    CostUpdate(d, freq, lens, n, bits, d.elems);
    Add32Twice(opt0, Cost(d, freq, lens, d.elems), freq[n] * (bits + d.Extra(n)));
    if d.staticLens.Some? {
      StaticCostUpdate(d, freq, lens, n, bits, d.elems);
      Add32Twice(stat0, StaticCost(d, freq, lens, d.elems), freq[n] * (d.staticLens.value[n] + d.Extra(n)));
    }
  }

  /** An inner node's length touches no count. */
  lemma TallyInner(d: Desc, freq: seq<nat>, lens: seq<nat>, cnt: seq<nat>, opt: nat, stat: nat, opt0: nat, stat0: nat,
                   n: nat, bits: nat)
    requires Tallied(d, freq, lens, cnt, opt, stat, opt0, stat0) && d.elems <= n < |lens| && Assigned(bits)
    ensures Tallied(d, freq, lens[n := bits], cnt, opt, stat, opt0, stat0)
  {
    forall b | 1 <= b <= MAX_BITS
      ensures cnt[b] == CountLen(lens[n := bits], b, d.elems)
    {
      CountLenUpdate(lens, n, bits, b, d.elems);
    }
    CostUpdate(d, freq, lens, n, bits, d.elems);
    if d.staticLens.Some? {
      StaticCostUpdate(d, freq, lens, n, bits, d.elems);
    }
  }

  /** A vector with nothing given out yet costs nothing. */
  lemma {:induction false} NothingAssigned(d: Desc, freq: seq<nat>, lens: seq<nat>, m: nat)
    requires m <= d.extraBase + |d.extraBits| && m <= |freq| && m <= |lens|
    requires forall n :: 0 <= n < m ==> !Assigned(lens[n])
    ensures Cost(d, freq, lens, m) == 0
    ensures d.staticLens.Some? && m <= |d.staticLens.value| ==> StaticCost(d, freq, lens, m) == 0
    ensures forall b :: 1 <= b <= MAX_BITS ==> CountLen(lens, b, m) == 0
  {
    if m > 0 {
      NothingAssigned(d, freq, lens, m - 1);
    }
  }

  lemma StartPass(d: Desc, order: seq<int>, k: nat, freq: seq<nat>, lens: seq<nat>, cnt: seq<nat>, opt: nat, stat: nat)
    requires d.Valid() && d.elems <= |freq| && Half(order, lens, d.elems, k, d.maxLength, 1)
    requires |cnt| == MAX_BITS + 1 && (forall b :: 0 <= b <= MAX_BITS ==> cnt[b] == 0) && opt < TWO32 && stat < TWO32
    ensures Tallied(d, freq, lens, cnt, opt, stat, opt, stat)
  {
    forall n | 0 <= n < d.elems
      ensures !Assigned(lens[n])
    {
      if n in order {
        var a :| 0 <= a < |order| && order[a] == n;
        assert lens[order[a]] == Parent(d.elems, k, a);
        assert order[a] < Parent(d.elems, k, a);
        InnerAbove(order, d.elems, k, a);
      }
    }
    NothingAssigned(d, freq, lens, d.elems);
  }

  /** No symbol above `maxCode` is in the tree. */
  ghost predicate LeavesUpTo(order: seq<int>, elems: nat, maxCode: int) {
    maxCode < elems && forall a :: 0 <= a < |order| ==> order[a] <= maxCode || order[a] >= elems
  }

  /** Counts a leaf's length and charges for it. */
  method CountLeaf(d: Desc, freq: array<nat>, ghost lens: seq<nat>, blCount: array<nat>, n: nat, bits: nat,
                   opt1: nat, stat1: nat, ghost opt0: nat, ghost stat0: nat)
    returns (opt: nat, stat: nat)
    requires freq != blCount && blCount.Length == MAX_BITS + 1 && n < d.elems && Assigned(bits)
    requires Tallied(d, freq[..], lens, blCount[..], opt1, stat1, opt0, stat0) && lens[n] > MAX_BITS
    modifies blCount
    ensures Tallied(d, freq[..], lens[n := bits], blCount[..], opt, stat, opt0, stat0)
  {
    ghost var cnt := blCount[..];
    TallyLeaf(d, freq[..], lens, cnt, opt1, stat1, opt0, stat0, n, bits);
    blCount[bits] := blCount[bits] + 1;
    assert blCount[..] == cnt[bits := cnt[bits] + 1];
    var f, xbits := freq[n], d.Extra(n);
    opt, stat := Add32(opt1, f * (bits + xbits)), stat1;
    if d.staticLens.Some? {
      stat := Add32(stat, f * (d.staticLens.value[n] + xbits));
    }
  }

  /** After `i` places of the first pass: lengths, counts, costs and how many were cut off. */
  ghost predicate PassingAt(d: Desc, order: seq<int>, k: nat, freq: seq<nat>, lens: seq<nat>, cnt: seq<nat>,
                            overflow: nat, opt: nat, stat: nat, opt0: nat, stat0: nat, i: nat)
  {
    && Half(order, lens, d.elems, k, d.maxLength, i) && Tallied(d, freq, lens, cnt, opt, stat, opt0, stat0)
    && overflow == Overflow(lens, d.elems, k, d.maxLength, i)
  }

  predicate Step(j: nat, i: nat) { j == i }

  /** The same, said of every step that is this one, so that it is taken apart only where `Step` is mentioned. */
  ghost predicate Passing(d: Desc, order: seq<int>, k: nat, freq: seq<nat>, lens: seq<nat>, cnt: seq<nat>,
                          overflow: nat, opt: nat, stat: nat, opt0: nat, stat0: nat, i: nat)
  {
    forall j: nat {:trigger Step(j, i)} :: Step(j, i) ==>
        PassingAt(d, order, k, freq, lens, cnt, overflow, opt, stat, opt0, stat0, i)
  }

  /** One node of the first pass. */
  method PassNode(d: Desc, ghost order: seq<int>, ghost k: nat, ghost i: nat,
                  freq: array<nat>, dl: array<nat>, blCount: array<nat>, n: nat, maxCode: int,
                  overflow0: nat, opt1: nat, stat1: nat, ghost opt0: nat, ghost stat0: nat)
    returns (overflow: nat, opt: nat, stat: nat)
    requires freq != dl && dl != blCount && freq != blCount && blCount.Length == MAX_BITS + 1
    requires Passing(d, order, k, freq[..], dl[..], blCount[..], overflow0, opt1, stat1, opt0, stat0, i)
    requires i < |order| && n == order[i] && LeavesUpTo(order, d.elems, maxCode)
    modifies dl, blCount
    ensures Passing(d, order, k, freq[..], dl[..], blCount[..], overflow, opt, stat, opt0, stat0, i + 1)
  {
    assert Step(i, i);
    ghost var lens: seq<nat>, cnt := dl[..], blCount[..];
    HalfStep(order, lens, d.elems, k, d.maxLength, i);
    InnerAbove(order, d.elems, k, i);
    var q := dl[n];
    var bits: nat := dl[q] + 1;
    overflow, opt, stat := overflow0, opt1, stat1;
    if bits > d.maxLength {
      bits := d.maxLength;
      overflow := overflow + 1;
    }
    OverflowFrame(lens, n, bits, d.elems, k, d.maxLength, i);
    dl[n] := bits;
    assert dl[..] == lens[n := bits];
    if !(n > maxCode) {
      opt, stat := CountLeaf(d, freq, lens, blCount, n, bits, opt1, stat1, opt0, stat0);
    } else {
      TallyInner(d, freq[..], lens, cnt, opt1, stat1, opt0, stat0, n, bits);
    }
  }

  /** What `build_tree` hands over: a tree whose nodes all know their parent. */
  ghost predicate Linked(order: seq<int>, lens: seq<nat>, elems: nat, k: nat) {
    && IsTree(order, elems, k) && elems + k <= |lens|
    && (forall a {:trigger order[a]} :: 1 <= a < |order| ==> lens[order[a]] == Parent(elems, k, a))
    && (forall n :: 0 <= n < elems && n !in order ==> lens[n] == 0)
  }

  lemma LinkedStarts(order: seq<int>, lens: seq<nat>, elems: nat, k: nat, top: nat)
    requires Linked(order, lens, elems, k)
    ensures Half(order, lens[elems + k - 1 := 0], elems, k, top, 1)
  {
    forall a | 1 <= a < |order|
      ensures order[a] != elems + k - 1
    {
      assert order[0] != order[a];
    }
  }

  /** Clears the counts and gives the root length 0. */
  method StartLengths(d: Desc, ghost order: seq<int>, ghost k: nat, freq: array<nat>, dl: array<nat>, root: nat,
                      blCount: array<nat>, ghost opt0: nat, ghost stat0: nat)
    requires freq != dl && dl != blCount && freq != blCount && blCount.Length == MAX_BITS + 1
    requires d.Valid() && d.elems <= freq.Length && opt0 < TWO32 && stat0 < TWO32
    requires Linked(order, dl[..], d.elems, k) && root == order[0]
    modifies dl, blCount
    ensures Half(order, dl[..], d.elems, k, d.maxLength, 1)
    ensures Tallied(d, freq[..], dl[..], blCount[..], opt0, stat0, opt0, stat0)
  {
    for bits := 0 to 16
      invariant forall b :: 0 <= b < bits ==> blCount[b] == 0
      invariant dl[..] == old(dl[..])
    {
      blCount[bits] := 0;
    }
    LinkedStarts(order, dl[..], d.elems, k, d.maxLength);
    ghost var lens := dl[..];
    dl[root] := 0;
    assert dl[..] == lens[d.elems + k - 1 := 0];
    StartPass(d, order, k, freq[..], dl[..], blCount[..], opt0, stat0);
  }

  /** The first pass: parents become lengths, from the root down. */
  method FirstPass(d: Desc, ghost order: seq<int>, ghost k: nat, freq: array<nat>, dl: array<nat>, heap: array<nat>,
                   heapMax: nat,
                   maxCode: int, blCount: array<nat>, opt0: nat, stat0: nat)
    returns (overflow: nat, opt: nat, stat: nat)
    requires freq != dl && dl != blCount && freq != blCount && heap !in {freq, dl, blCount}
    requires blCount.Length == MAX_BITS + 1 && heap.Length == HEAP_SIZE
    requires d.Valid() && d.elems <= freq.Length && opt0 < TWO32 && stat0 < TWO32
    requires Linked(order, dl[..], d.elems, k) && LeavesUpTo(order, d.elems, maxCode)
    requires Tail(heap[..], heapMax, order)
    modifies dl, blCount
    ensures Half(order, dl[..], d.elems, k, d.maxLength, |order|)
    ensures Tallied(d, freq[..], dl[..], blCount[..], opt, stat, opt0, stat0)
    ensures overflow == Overflow(dl[..], d.elems, k, d.maxLength, |order|)
  {
    StartLengths(d, order, k, freq, dl, heap[heapMax], blCount, opt0, stat0);
    overflow, opt, stat := 0, opt0, stat0;
    var h := heapMax + 1;
    while h < HEAP_SIZE
      invariant heapMax + 1 <= h <= HEAP_SIZE
      invariant Passing(d, order, k, freq[..], dl[..], blCount[..], overflow, opt, stat, opt0, stat0, h - heapMax)
    {
      var n := heap[h];
      assert n == order[h - heapMax];
      overflow, opt, stat :=
          PassNode(d, order, k, h - heapMax, freq, dl, blCount, n, maxCode, overflow, opt, stat, opt0, stat0);
      h := h + 1;
    }
    assert Step(|order|, |order|);
  }

  // ----- from places in the tree to symbols -----

  lemma {:induction false} BelowSkips(order: seq<int>, w: seq<int>, cut: int, m: nat)
    requires m <= |order| == |w| && cut !in order
    ensures Below(order, w, cut + 1, m) == Below(order, w, cut, m)
    decreases m
  {
    if m > 0 {
      assert order[m - 1] in order;
      BelowSkips(order, w, cut, m - 1);
    }
  }

  /** Lengths at which every symbol of the tree has its length and no other symbol has any. */
  ghost predicate Settled(order: seq<int>, lens: seq<nat>, elems: nat, k: nat, top: nat) {
    && IsTree(order, elems, k) && elems + k <= |lens| && 0 < top
    && (forall a :: 0 <= a < |order| && order[a] < elems ==> 0 < lens[order[a]] <= top)
    && (forall n :: 0 <= n < elems && n !in order ==> lens[n] == 0)
  }

  /** Raising the cut by one takes in the place of node `c - 1`, if it has one. */
  lemma BelowStep(order: seq<int>, w: seq<int>, c: int, v: int)
    requires Distinct(order) && |w| == |order| && (forall i :: 0 <= i < |order| && order[i] == c - 1 ==> w[i] == v)
    requires c - 1 !in order ==> v == 0
    ensures Below(order, w, c, |order|) == Below(order, w, c - 1, |order|) + v
  {
    if c - 1 in order {
      var p :| 0 <= p < |order| && order[p] == c - 1;
      BelowLower(order, w, c, |order|, p);
    } else {
      BelowSkips(order, w, c - 1, |order|);
    }
  }

  /** Counting lengths over the tree's places or over the symbols is the same. */
  lemma {:induction false} CountByPlace(order: seq<int>, lens: seq<nat>, elems: nat, k: nat, top: nat, b: nat, c: nat)
    requires Settled(order, lens, elems, k, top) && c <= elems && 0 < b
    requires forall i :: 0 <= i < |order| ==> 0 <= order[i] < |lens|
    ensures CountLen(lens, b, c) == Below(order, OfLength(order, lens, b), c, |order|)
  {
    var w := OfLength(order, lens, b);
    if c == 0 {
      BelowNothing(order, w, |order|);
    } else {
      CountByPlace(order, lens, elems, k, top, b, c - 1);
      BelowStep(order, w, c, if lens[c - 1] == b then 1 else 0);
    }
  }

  lemma {:induction false} BelowNothing(order: seq<int>, w: seq<int>, m: nat)
    requires m <= |order| == |w| && forall i :: 0 <= i < |order| ==> 0 <= order[i]
    ensures Below(order, w, 0, m) == 0
  {
    if m > 0 {
      BelowNothing(order, w, m - 1);
    }
  }

  /** The Kraft sum over the tree's leaves is the one over the symbols. */
  lemma {:induction false} KraftByPlace(order: seq<int>, lens: seq<nat>, elems: nat, k: nat, top: nat, c: nat)
    requires Settled(order, lens, elems, k, top) && c <= elems
    requires forall i :: 0 <= i < |order| ==> 0 <= order[i] < |lens|
    ensures Kraft(lens, top, c) == Below(order, Weights(order, lens, top), c, |order|)
  {
    var w := Weights(order, lens, top);
    if c == 0 {
      BelowNothing(order, w, |order|);
    } else {
      KraftByPlace(order, lens, elems, k, top, c - 1);
      BelowStep(order, w, c, if 0 < lens[c - 1] <= top then Pow2(top - lens[c - 1]) else 0);
    }
  }

  lemma PassSettles(order: seq<int>, lens: seq<nat>, elems: nat, k: nat, top: nat)
    requires Half(order, lens, elems, k, top, |order|) && 0 < top
    ensures Settled(order, lens, elems, k, top)
  {
    forall a | 0 <= a < |order| && order[a] < elems
      ensures 0 < lens[order[a]] <= top
    {
      assert a >= 1;
      assert lens[order[a]] == Capped(lens[Parent(elems, k, a)], top);
    }
  }

  lemma PassDepths(order: seq<int>, lens: seq<nat>, elems: nat, k: nat, top: nat)
    requires Half(order, lens, elems, k, top, |order|)
    ensures Depths(order, lens, elems, k, top)
  {
    TreeIndexes(order, elems, k);
  }

  /** After the first pass: how far the lengths are from a complete code. */
  lemma AfterPass(order: seq<int>, lens: seq<nat>, elems: nat, k: nat, top: nat, overflow: nat)
    requires IsTree(order, elems, k) && Depths(order, lens, elems, k, top) && Settled(order, lens, elems, k, top)
    requires overflow == Overflow(lens, elems, k, top, |order|)
    ensures overflow % 2 == 0 && Kraft(lens, top, elems) == Pow2(top) + overflow / 2
    ensures overflow > 0 ==> CountLen(lens, top, elems) > overflow / 2
  {
    TreeIndexes(order, elems, k);
    LeafWeight(order, lens, elems, k, top);
    KraftByPlace(order, lens, elems, k, top, elems);
    CountByPlace(order, lens, elems, k, top, top, elems);
  }

  // ----- the repair -----

  /** Code space taken by counts of lengths 1..b-1. */
  ghost function CountWeight(cnt: seq<nat>, top: nat, b: nat): (r: nat)
    requires b <= top + 1 && b <= |cnt|
  {
    if b <= 1 then 0 else CountWeight(cnt, top, b - 1) + cnt[b - 1] * Pow2(top - (b - 1))
  }

  /** Number of codes of lengths 1..b-1. */
  ghost function CountTotal(cnt: seq<nat>, b: nat): (r: nat)
    requires b <= |cnt|
  {
    if b <= 1 then 0 else CountTotal(cnt, b - 1) + cnt[b - 1]
  }

  lemma {:induction false} WeightUpdate(cnt: seq<nat>, x: nat, delta: int, top: nat, b: nat)
    requires b <= top + 1 && b <= |cnt| && 1 <= x < |cnt| && x <= top && cnt[x] + delta >= 0
    ensures CountWeight(cnt[x := cnt[x] + delta], top, b) ==
            CountWeight(cnt, top, b) + if x < b then delta * Pow2(top - x) else 0
    ensures CountTotal(cnt[x := cnt[x] + delta], b) == CountTotal(cnt, b) + if x < b then delta else 0
    decreases b
  {
    if b > 1 {
      WeightUpdate(cnt, x, delta, top, b - 1);
      if x == b - 1 {
        Distribute(cnt[x], delta, Pow2(top - x));
      }
    }
  }

  /** If only the longest length is used, the codes are as many as they weigh. */
  lemma {:induction false} WeightAtBottom(cnt: seq<nat>, top: nat, b: nat)
    requires b <= top < |cnt| && forall d :: 1 <= d < b ==> cnt[d] == 0
    ensures CountWeight(cnt, top, b) == 0 && CountTotal(cnt, b) == 0
  {
    if b > 1 {
      WeightAtBottom(cnt, top, b - 1);
    }
  }

  /** What the repair loop keeps: `overflow` codes too many at the bottom, in pairs. */
  ghost predicate Excess(cnt: seq<nat>, top: nat, overflow: nat, leaves: nat) {
    && 1 <= top < |cnt| && overflow % 2 == 0
    && CountWeight(cnt, top, top + 1) == Pow2(top) + overflow / 2
    && CountTotal(cnt, top + 1) == leaves <= Pow2(top)
    && (overflow > 0 ==> cnt[top] > overflow / 2)
  }

  /** Too much weight means some code is shorter than the longest. */
  lemma ShorterExists(cnt: seq<nat>, top: nat, overflow: nat, leaves: nat)
    requires Excess(cnt, top, overflow, leaves) && overflow > 0
    ensures exists d :: 1 <= d < top && cnt[d] != 0
  {
    assert Pow2(0) == 1;
    if forall d :: 1 <= d < top ==> cnt[d] == 0 {
      WeightAtBottom(cnt, top, top);
    }
  }

  /** Moving one code of length `bits` down and one bottom code up as its brother. */
  function Moved(cnt: seq<nat>, bits: nat, top: nat): (r: seq<nat>)
    requires 1 <= bits < top < |cnt| && cnt[bits] > 0 && (cnt[top] > 0 || bits + 1 == top)
  {
    var a := cnt[bits := cnt[bits] - 1];
    var b := a[bits + 1 := a[bits + 1] + 2];
    b[top := b[top] - 1]
  }

  lemma MoveRepairs(cnt: seq<nat>, bits: nat, top: nat, overflow: nat, leaves: nat)
    requires Excess(cnt, top, overflow, leaves) && overflow > 0 && 1 <= bits < top && cnt[bits] > 0
    ensures Excess(Moved(cnt, bits, top), top, overflow - 2, leaves)
  {
    MoveWeight(cnt, bits, top);
  }

  /** One unit of code space less, and as many codes. */
  lemma MoveWeight(cnt: seq<nat>, bits: nat, top: nat)
    requires 1 <= bits < top < |cnt| && cnt[bits] > 0 && cnt[top] > 0
    ensures CountWeight(Moved(cnt, bits, top), top, top + 1) == CountWeight(cnt, top, top + 1) - 1
    ensures CountTotal(Moved(cnt, bits, top), top + 1) == CountTotal(cnt, top + 1)
    ensures |Moved(cnt, bits, top)| == |cnt| && Moved(cnt, bits, top)[top] >= cnt[top] - 1
  {
    var a := cnt[bits := cnt[bits] - 1];
    var b := a[bits + 1 := a[bits + 1] + 2];
    WeightUpdate(cnt, bits, -1, top, top + 1);
    WeightUpdate(a, bits + 1, 2, top, top + 1);
    WeightUpdate(b, top, -1, top, top + 1);
    assert Pow2(top - bits) == 2 * Pow2(top - (bits + 1));
    assert Pow2(0) == 1;
  }

  /** The greatest length up to `b` that some code has. */
  ghost function Longest(cnt: seq<nat>, b: nat): (r: nat)
    requires b < |cnt|
    ensures r <= b && (r > 0 ==> cnt[r] > 0) && forall c :: r < c <= b ==> cnt[c] == 0
  {
    if b == 0 || cnt[b] > 0 then b else Longest(cnt, b - 1)
  }

  /** The counts once the overflow is gone: each time it is a longest code below the limit that makes room. */
  ghost function Repaired(cnt: seq<nat>, top: nat, overflow: int): (r: seq<nat>)
    requires 1 <= top < |cnt|
    ensures |r| == |cnt|
    decreases overflow
  {
    var bits := Longest(cnt, top - 1);
    if overflow <= 0 || bits == 0 || cnt[top] == 0 then cnt
    else Repaired(Moved(cnt, bits, top), top, overflow - 2)
  }

  /** One step of it. */
  lemma RepairedStep(cnt: seq<nat>, bits: nat, top: nat, overflow: nat)
    requires 1 <= bits < top < |cnt| && cnt[bits] > 0 && cnt[top] > 0 && overflow > 0
    requires forall c :: bits < c < top ==> cnt[c] == 0
    ensures Repaired(cnt, top, overflow) == Repaired(Moved(cnt, bits, top), top, overflow - 2)
  {
    var longest := Longest(cnt, top - 1);
    assert longest == bits;
  }

  /** The greatest length below the limit that some code has. */
  method FindLongest(blCount: array<nat>, top: nat) returns (bits: nat)
    requires top < blCount.Length && exists d :: 1 <= d < top && blCount[d] != 0
    ensures 1 <= bits < top && blCount[bits] > 0 && forall c :: bits < c < top ==> blCount[c] == 0
  {
    ghost var d :| 1 <= d < top && blCount[d] != 0;
    bits := top - 1;
    while blCount[bits] == 0
      invariant d <= bits < top && forall c :: bits < c < top ==> blCount[c] == 0
      decreases bits
    {
      bits := bits - 1;
    }
  }

  /** One step of the repair. */
  method RepairOnce(blCount: array<nat>, top: nat, ghost overflow: nat, ghost leaves: nat)
    requires blCount.Length == MAX_BITS + 1 && Excess(blCount[..], top, overflow, leaves) && overflow > 0
    modifies blCount
    ensures Excess(blCount[..], top, overflow - 2, leaves)
    ensures Repaired(blCount[..], top, overflow - 2) == Repaired(old(blCount[..]), top, overflow)
    ensures blCount[0] == old(blCount[0]) && forall b :: top < b <= MAX_BITS ==> blCount[b] == old(blCount[b])
  {
    ghost var cnt: seq<nat> := blCount[..];
    ShorterExists(cnt, top, overflow, leaves);
    var bits := FindLongest(blCount, top);
    assert cnt[bits] > 0 && forall c :: bits < c < top ==> cnt[c] == blCount[c];
    MoveRepairs(cnt, bits, top, overflow, leaves);
    RepairedStep(cnt, bits, top, overflow);
    blCount[bits] := blCount[bits] - 1;
    blCount[bits + 1] := blCount[bits + 1] + 2;
    blCount[top] := blCount[top] - 1;
    assert blCount[..] == Moved(cnt, bits, top);
  }

  /** Shortens the overlong codes: each step gives back one unit of code space. */
  method Repair(blCount: array<nat>, top: nat, overflow0: nat, ghost leaves: nat)
    requires blCount.Length == MAX_BITS + 1
    requires Excess(blCount[..], top, overflow0, leaves) && overflow0 > 0
    modifies blCount
    ensures Excess(blCount[..], top, 0, leaves) && blCount[..] == Repaired(old(blCount[..]), top, overflow0)
    ensures blCount[0] == old(blCount[0]) && forall b :: top < b <= MAX_BITS ==> blCount[b] == old(blCount[b])
  {
    var overflow: int := overflow0;
    while overflow > 0
      invariant 0 <= overflow && Excess(blCount[..], top, overflow, leaves)
      invariant Repaired(blCount[..], top, overflow) == Repaired(old(blCount[..]), top, overflow0)
      invariant blCount[0] == old(blCount[0]) && forall b :: top < b <= MAX_BITS ==> blCount[b] == old(blCount[b])
    {
      RepairOnce(blCount, top, overflow, leaves);
      overflow := overflow - 2;
    }
  }

  // ----- handing the repaired lengths out again -----

  /** The weight of places `x` and later that hold a leaf. */
  ghost function After(order: seq<int>, w: seq<int>, elems: nat, x: nat): (r: int)
    requires x <= |order| == |w|
    decreases |order| - x
  {
    if x == |order| then 0 else After(order, w, elems, x + 1) + if order[x] < elems then w[x] else 0
  }

  lemma {:induction false} BeforeAndAfter(order: seq<int>, w: seq<int>, elems: nat, x: nat)
    requires x <= |order| == |w|
    ensures Below(order, w, elems, |order|) == Below(order, w, elems, x) + After(order, w, elems, x)
    decreases |order| - x
  {
    if x < |order| {
      BeforeAndAfter(order, w, elems, x + 1);
    }
  }

  lemma {:induction false} AfterFrame(order: seq<int>, w: seq<int>, w': seq<int>, elems: nat, x: nat)
    requires x <= |order| == |w| == |w'| && forall i :: x <= i < |order| && order[i] < elems ==> w[i] == w'[i]
    ensures After(order, w, elems, x) == After(order, w', elems, x)
    decreases |order| - x
  {
    if x < |order| {
      AfterFrame(order, w, w', elems, x + 1);
    }
  }

  ghost function Ones(order: seq<int>): (w: seq<int>)
    ensures |w| == |order|
  {
    seq(|order|, i => 1)
  }

  /** How many of each length have been handed out once `n` of length `bits` are left. */
  function Given(cnt: seq<nat>, b: nat, bits: nat, n: nat): int
    requires b < |cnt|
  {
    if b > bits then cnt[b] else if b == bits then cnt[b] - n else 0
  }

  /** If place `i` holds a leaf, its code has at least `bits` bits. */
  ghost predicate LongEnough(order: seq<int>, lens: seq<nat>, elems: nat, i: nat, bits: nat) {
    i < |order| && (order[i] < elems ==> 0 <= order[i] < |lens| && bits <= lens[order[i]])
  }

  /** If places `i` and `j` hold leaves, the one at `j` has no shorter code. */
  ghost predicate NoShorter(order: seq<int>, lens: seq<nat>, elems: nat, i: nat, j: nat) {
    && i < |order| && j < |order|
    && (order[i] < elems && order[j] < elems ==>
          0 <= order[i] < |lens| && 0 <= order[j] < |lens| && lens[order[i]] <= lens[order[j]])
  }

  /** Of two leaves from place `x` on, the later has no shorter code, and none is shorter than `bits`. */
  ghost predicate Stepped(order: seq<int>, lens: seq<nat>, elems: nat, x: nat, bits: nat) {
    && (forall i :: x <= i < |order| ==> LongEnough(order, lens, elems, i, bits))
    && (forall i, j :: x <= i < j < |order| ==> NoShorter(order, lens, elems, i, j))
  }

  lemma SteppedGives(order: seq<int>, lens: seq<nat>, elems: nat, x: nat, bits: nat)
    requires Distinct(order) && 0 < x <= |order| && 0 <= order[x - 1] < |lens| && Stepped(order, lens, elems, x, bits)
    ensures Stepped(order, lens[order[x - 1] := bits], elems, x - 1, bits)
  {
    var lens' := lens[order[x - 1] := bits];
    forall i | x - 1 <= i < |order|
      ensures LongEnough(order, lens', elems, i, bits)
    {
      if i >= x {
        assert LongEnough(order, lens, elems, i, bits) && order[i] != order[x - 1];
      }
    }
    forall i, j | x - 1 <= i < j < |order|
      ensures NoShorter(order, lens', elems, i, j)
    {
      assert LongEnough(order, lens', elems, i, bits) && LongEnough(order, lens', elems, j, bits);
      if i >= x {
        assert NoShorter(order, lens, elems, i, j);
        assert order[i] != order[x - 1] && order[j] != order[x - 1];
      }
    }
  }

  lemma SteppedFurther(order: seq<int>, lens: seq<nat>, elems: nat, x: nat, bits: nat)
    requires 0 < x <= |order| && order[x - 1] >= elems && Stepped(order, lens, elems, x, bits)
    ensures Stepped(order, lens, elems, x - 1, bits)
  {
    forall i | x - 1 <= i < |order|
      ensures LongEnough(order, lens, elems, i, bits)
    {
    }
  }

  lemma SteppedDown(order: seq<int>, lens: seq<nat>, elems: nat, x: nat, bits: nat)
    requires 0 < bits && Stepped(order, lens, elems, x, bits)
    ensures Stepped(order, lens, elems, x, bits - 1)
  {
    var fewer := bits - 1;
    forall i | x <= i < |order|
      ensures LongEnough(order, lens, elems, i, fewer)
    {
      assert LongEnough(order, lens, elems, i, bits);
    }
  }

  lemma SteppedAll(order: seq<int>, lens: seq<nat>, elems: nat, x: nat)
    requires Stepped(order, lens, elems, x, 0) && x <= |order| && forall i :: 0 <= i < x ==> order[i] >= elems
    ensures Stepped(order, lens, elems, 0, 0)
  {
    forall i | 0 <= i < |order|
      ensures LongEnough(order, lens, elems, i, 0)
    {
    }
  }

  /** The leaves from place `x` on have their new lengths, longest first. */
  ghost predicate RedoneAt(order: seq<int>, lens: seq<nat>, elems: nat, k: nat, cnt: seq<nat>, top: nat, x: nat,
                           bits: nat, n: nat) {
    && Settled(order, lens, elems, k, top) && top < |cnt| && x <= |order| && bits <= top
    && (forall i :: 0 <= i < |order| ==> 0 <= order[i] < |lens|) && Stepped(order, lens, elems, x, bits)
    && Below(order, Ones(order), elems, x) == n + CountTotal(cnt, bits)
    && (forall b :: 1 <= b <= top ==> After(order, OfLength(order, lens, b), elems, x) == Given(cnt, b, bits, n))
  }

  predicate Stage(j: nat, k: nat) { j == k }

  /** The same, said of every stage that is this one, so that it is taken apart only where `Stage` is mentioned. */
  ghost predicate Redone(order: seq<int>, lens: seq<nat>, elems: nat, k: nat, cnt: seq<nat>, top: nat, x: nat,
                         bits: nat, n: nat) {
    && x <= |order| && bits <= top < |cnt| && elems <= |lens|
    && forall j: nat {:trigger Stage(j, bits)} :: Stage(j, bits) ==>
          RedoneAt(order, lens, elems, k, cnt, top, x, bits, n)
  }

  lemma RedoneSkips(order: seq<int>, lens: seq<nat>, elems: nat, k: nat, cnt: seq<nat>, top: nat, x: nat, bits: nat,
                    n: nat)
    requires Redone(order, lens, elems, k, cnt, top, x, bits, n) && x > 0 && order[x - 1] >= elems
    ensures Redone(order, lens, elems, k, cnt, top, x - 1, bits, n)
  {
    assert Stage(bits, bits);
    SteppedFurther(order, lens, elems, x, bits);
    forall b | 1 <= b <= top
      ensures After(order, OfLength(order, lens, b), elems, x - 1) == Given(cnt, b, bits, n)
    {
    }
  }

  lemma RedoneGives(order: seq<int>, lens: seq<nat>, elems: nat, k: nat, cnt: seq<nat>, top: nat, x: nat, bits: nat,
                    n: nat)
    requires Redone(order, lens, elems, k, cnt, top, x, bits, n) && x > 0 && order[x - 1] < elems && n > 0 && bits > 0
    ensures 0 <= order[x - 1] < |lens| && 0 < lens[order[x - 1]] <= top
    ensures Redone(order, lens[order[x - 1] := bits], elems, k, cnt, top, x - 1, bits, n - 1)
  {
    assert Stage(bits, bits);
    var m := order[x - 1];
    var lens' := lens[m := bits];
    assert Ones(order)[x - 1] == 1;
    SteppedGives(order, lens, elems, x, bits);
    forall a | 0 <= a < |order| && order[a] < elems
      ensures 0 < lens'[order[a]] <= top
    {
    }
    forall b | 1 <= b <= top
      ensures After(order, OfLength(order, lens', b), elems, x - 1) == Given(cnt, b, bits, n - 1)
    {
      var w, w' := OfLength(order, lens, b), OfLength(order, lens', b);
      forall i | x <= i < |order| && order[i] < elems
        ensures w[i] == w'[i]
      {
        assert order[i] != order[x - 1];
      }
      AfterFrame(order, w, w', elems, x);
      assert w'[x - 1] == if bits == b then 1 else 0;
    }
  }

  lemma RedoneNext(order: seq<int>, lens: seq<nat>, elems: nat, k: nat, cnt: seq<nat>, top: nat, x: nat, bits: nat)
    requires Redone(order, lens, elems, k, cnt, top, x, bits, 0) && bits > 0 && cnt[0] == 0
    ensures Redone(order, lens, elems, k, cnt, top, x, bits - 1, cnt[bits - 1])
  {
    assert Stage(bits, bits);
    SteppedDown(order, lens, elems, x, bits);
  }

  /** While lengths are left there is a leaf to give them to. */
  lemma LeafLeft(order: seq<int>, lens: seq<nat>, elems: nat, k: nat, cnt: seq<nat>, top: nat, x: nat, bits: nat,
                 n: nat)
    requires Redone(order, lens, elems, k, cnt, top, x, bits, n) && n > 0
    ensures x > 0 && elems <= |lens| && top < |cnt|
  {
    assert Stage(bits, bits);
    assert Below(order, Ones(order), elems, x) > 0;
  }

  /** Lengths start over: nothing handed out yet. */
  lemma {:induction false} RedoneStarts(order: seq<int>, lens: seq<nat>, elems: nat, k: nat, cnt: seq<nat>, top: nat)
    requires Settled(order, lens, elems, k, top) && top < |cnt|
    requires Below(order, Ones(order), elems, |order|) == CountTotal(cnt, top + 1)
    ensures Redone(order, lens, elems, k, cnt, top, |order|, top, cnt[top])
  {
    TreeIndexes(order, elems, k);
  }

  /** With all lengths handed out the counts are those of the lengths. */
  lemma RedoneCounts(order: seq<int>, lens: seq<nat>, elems: nat, k: nat, cnt: seq<nat>, top: nat, x: nat, b: nat)
    requires Redone(order, lens, elems, k, cnt, top, x, 0, 0) && 1 <= b <= top
    ensures CountLen(lens, b, elems) == cnt[b]
  {
    assert Stage(0, 0);
    var w := OfLength(order, lens, b);
    CountByPlace(order, lens, elems, k, top, b, elems);
    BeforeAndAfter(order, w, elems, x);
    NoneBefore(order, w, elems, x);
  }

  lemma {:induction false} NoneBefore(order: seq<int>, w: seq<int>, elems: nat, x: nat)
    requires x <= |order| == |w| && Below(order, Ones(order), elems, x) == 0
    ensures Below(order, w, elems, x) == 0
  {
    if x > 0 {
      OnesNonNegative(order, elems, x - 1);
      assert Ones(order)[x - 1] == 1;
      NoneBefore(order, w, elems, x - 1);
    }
  }

  lemma {:induction false} NoLeafBefore(order: seq<int>, elems: nat, x: nat)
    requires x <= |order| && Below(order, Ones(order), elems, x) == 0
    ensures forall i :: 0 <= i < x ==> order[i] >= elems
  {
    if x > 0 {
      OnesNonNegative(order, elems, x - 1);
      assert Ones(order)[x - 1] == 1;
      NoLeafBefore(order, elems, x - 1);
    }
  }

  lemma {:induction false} OnesNonNegative(order: seq<int>, elems: nat, x: nat)
    requires x <= |order|
    ensures Below(order, Ones(order), elems, x) >= 0
  {
    if x > 0 {
      OnesNonNegative(order, elems, x - 1);
    }
  }

  /** Charging a leaf for its changed length. */
  lemma CostChanges(d: Desc, freq: seq<nat>, lens: seq<nat>, m: nat, bits: nat, opt: nat, opt0: nat)
    requires d.Valid() && d.elems <= |freq| && d.elems <= |lens| && m < d.elems && Assigned(lens[m]) && Assigned(bits)
    requires opt == Add32(opt0, Cost(d, freq, lens, d.elems))
    ensures Add32(opt, (bits - lens[m]) * freq[m]) == Add32(opt0, Cost(d, freq, lens[m := bits], d.elems))
    ensures lens[m] == bits ==> lens[m := bits] == lens
  {
    CostUpdate(d, freq, lens, m, bits, d.elems);
    var f, e := freq[m], d.Extra(m);
    Distribute(bits - lens[m], lens[m] + e, f);
    Add32Twice(opt0, Cost(d, freq, lens, d.elems), (bits - lens[m]) * f);
  }

  /** The tail of the heap array from `heapMax` on. */
  ghost predicate Tail(heap: seq<nat>, heapMax: nat, order: seq<int>) {
    && |heap| == HEAP_SIZE == heapMax + |order|
    && forall h :: heapMax <= h < HEAP_SIZE ==> heap[h] == order[h - heapMax]
  }

  /** Changes one leaf's length and what the block costs with it. */
  method GiveLeaf(d: Desc, freq: array<nat>, dl: array<nat>, m: nat, bits: nat, opt1: nat, ghost opt0: nat)
    returns (opt: nat)
    requires freq != dl && d.Valid() && d.elems <= freq.Length && d.elems <= dl.Length && m < d.elems
    requires Assigned(dl[m]) && Assigned(bits)
    requires opt1 == Add32(opt0, Cost(d, freq[..], dl[..], d.elems))
    modifies dl
    ensures dl[..] == old(dl[..])[m := bits]
    ensures opt == Add32(opt0, Cost(d, freq[..], dl[..], d.elems))
  {
    ghost var lens := dl[..];
    CostChanges(d, freq[..], lens, m, bits, opt1, opt0);
    opt := opt1;
    if dl[m] != bits {
      opt := Add32(opt, (bits - dl[m]) * freq[m]);
      dl[m] := bits;
    }
    assert dl[..] == lens[m := bits];
  }

  /** Hands out `n0` lengths of `bits` to the next leaves from the end of the heap. */
  method GiveLength(d: Desc, ghost order: seq<int>, ghost k: nat, freq: array<nat>, dl: array<nat>, heap: array<nat>,
                    heapMax: nat,
                    maxCode: int, ghost cnt: seq<nat>, bits: nat, n0: nat, h0: nat, opt1: nat, ghost opt0: nat)
    returns (h: nat, opt: nat)
    requires freq != dl && heap !in {freq, dl} && Tail(heap[..], heapMax, order)
    requires d.Valid() && d.elems <= freq.Length && LeavesUpTo(order, d.elems, maxCode) && 1 <= bits
    requires heapMax <= h0 && Redone(order, dl[..], d.elems, k, cnt, d.maxLength, h0 - heapMax, bits, n0)
    requires opt1 == Add32(opt0, Cost(d, freq[..], dl[..], d.elems))
    modifies dl
    ensures heapMax <= h && Redone(order, dl[..], d.elems, k, cnt, d.maxLength, h - heapMax, bits, 0)
    ensures opt == Add32(opt0, Cost(d, freq[..], dl[..], d.elems))
  {
    h, opt := h0, opt1;
    var n := n0;
    while n != 0
      invariant heapMax <= h <= h0 && 0 <= n
      invariant Redone(order, dl[..], d.elems, k, cnt, d.maxLength, h - heapMax, bits, n)
      invariant opt == Add32(opt0, Cost(d, freq[..], dl[..], d.elems))
      decreases h
    {
      h, n, opt := GiveNext(d, order, k, freq, dl, heap, heapMax, maxCode, cnt, bits, n, h, opt, opt0);
    }
  }

  /** The next node from the end of the heap: a leaf gets its length, an inner node is passed over. */
  method GiveNext(d: Desc, ghost order: seq<int>, ghost k: nat, freq: array<nat>, dl: array<nat>, heap: array<nat>,
                  heapMax: nat,
                  maxCode: int, ghost cnt: seq<nat>, bits: nat, n0: nat, h0: nat, opt1: nat, ghost opt0: nat)
    returns (h: nat, n: nat, opt: nat)
    requires freq != dl && heap !in {freq, dl} && Tail(heap[..], heapMax, order) && 0 < n0
    requires d.Valid() && d.elems <= freq.Length && LeavesUpTo(order, d.elems, maxCode) && 1 <= bits
    requires heapMax <= h0 && Redone(order, dl[..], d.elems, k, cnt, d.maxLength, h0 - heapMax, bits, n0)
    requires opt1 == Add32(opt0, Cost(d, freq[..], dl[..], d.elems))
    modifies dl
    ensures heapMax <= h < h0 && Redone(order, dl[..], d.elems, k, cnt, d.maxLength, h - heapMax, bits, n)
    ensures opt == Add32(opt0, Cost(d, freq[..], dl[..], d.elems))
  {
    ghost var x, lens := h0 - heapMax, dl[..];
    LeafLeft(order, lens, d.elems, k, cnt, d.maxLength, x, bits, n0);
    h, n, opt := h0 - 1, n0, opt1;
    var m := heap[h];
    assert m == order[x - 1];
    if m > maxCode {
      RedoneSkips(order, lens, d.elems, k, cnt, d.maxLength, x, bits, n);
      return;
    }
    RedoneGives(order, lens, d.elems, k, cnt, d.maxLength, x, bits, n);
    opt := GiveLeaf(d, freq, dl, m, bits, opt, opt0);
    n := n - 1;
  }

  lemma RedoneAll(order: seq<int>, lens: seq<nat>, elems: nat, k: nat, cnt: seq<nat>, top: nat, x: nat)
    requires Redone(order, lens, elems, k, cnt, top, x, 0, 0)
    ensures Settled(order, lens, elems, k, top) && Stepped(order, lens, elems, 0, 0)
    ensures forall b :: 1 <= b <= top ==> CountLen(lens, b, elems) == cnt[b]
  {
    assert Stage(0, 0);
    NoLeafBefore(order, elems, x);
    SteppedAll(order, lens, elems, x);
    forall b | 1 <= b <= top
      ensures CountLen(lens, b, elems) == cnt[b]
    {
      RedoneCounts(order, lens, elems, k, cnt, top, x, b);
    }
  }

  /** Hands out one length and turns to the next shorter one. */
  method GiveAndStep(d: Desc, ghost order: seq<int>, ghost k: nat, freq: array<nat>, dl: array<nat>, heap: array<nat>,
                     heapMax: nat,
                     maxCode: int, ghost cnt: seq<nat>, bits: nat, n0: nat, h0: nat, opt1: nat, ghost opt0: nat)
    returns (h: nat, opt: nat)
    requires freq != dl && heap !in {freq, dl} && Tail(heap[..], heapMax, order)
    requires d.Valid() && d.elems <= freq.Length && LeavesUpTo(order, d.elems, maxCode) && 1 <= bits && |cnt| > 0
    requires cnt[0] == 0
    requires heapMax <= h0 && Redone(order, dl[..], d.elems, k, cnt, d.maxLength, h0 - heapMax, bits, n0)
    requires opt1 == Add32(opt0, Cost(d, freq[..], dl[..], d.elems))
    modifies dl
    ensures heapMax <= h && bits <= |cnt|
    ensures Redone(order, dl[..], d.elems, k, cnt, d.maxLength, h - heapMax, bits - 1, cnt[bits - 1])
    ensures opt == Add32(opt0, Cost(d, freq[..], dl[..], d.elems))
  {
    h, opt := GiveLength(d, order, k, freq, dl, heap, heapMax, maxCode, cnt, bits, n0, h0, opt1, opt0);
    RedoneNext(order, dl[..], d.elems, k, cnt, d.maxLength, h - heapMax, bits);
  }

  /** Recomputes all lengths, the longest for those at the end of the heap, which are the least frequent. */
  method Recompute(d: Desc, ghost order: seq<int>, ghost k: nat, freq: array<nat>, dl: array<nat>, heap: array<nat>,
                   heapMax: nat,
                   maxCode: int, blCount: array<nat>, opt1: nat, ghost opt0: nat)
    returns (opt: nat)
    requires freq != dl && dl != blCount && heap !in {freq, dl} && blCount.Length == MAX_BITS + 1 && blCount[0] == 0
    requires d.Valid() && d.elems <= freq.Length && LeavesUpTo(order, d.elems, maxCode)
    requires Tail(heap[..], heapMax, order)
    requires Redone(order, dl[..], d.elems, k, blCount[..], d.maxLength, |order|, d.maxLength, blCount[d.maxLength])
    requires opt1 == Add32(opt0, Cost(d, freq[..], dl[..], d.elems))
    modifies dl
    ensures Settled(order, dl[..], d.elems, k, d.maxLength) && Stepped(order, dl[..], d.elems, 0, 0)
    ensures forall b :: 1 <= b <= d.maxLength ==> CountLen(dl[..], b, d.elems) == blCount[b]
    ensures opt == Add32(opt0, Cost(d, freq[..], dl[..], d.elems))
  {
    ghost var cnt := blCount[..];
    var h, bits := HEAP_SIZE, d.maxLength;
    opt := opt1;
    while bits != 0
      invariant heapMax <= h && 0 <= bits <= d.maxLength
      invariant Redone(order, dl[..], d.elems, k, cnt, d.maxLength, h - heapMax, bits, cnt[bits])
      invariant opt == Add32(opt0, Cost(d, freq[..], dl[..], d.elems))
    {
      h, opt := GiveAndStep(d, order, k, freq, dl, heap, heapMax, maxCode, cnt, bits, blCount[bits], h, opt, opt0);
      bits := bits - 1;
    }
    RedoneAll(order, dl[..], d.elems, k, cnt, d.maxLength, h - heapMax);
  }

  // ----- the whole of it -----

  lemma {:induction false} WeightIsSpace(lens: seq<nat>, cnt: seq<nat>, elems: nat, top: nat, b: nat)
    requires elems <= |lens| && b <= top + 1 && top < |cnt|
    requires forall c :: 1 <= c <= top ==> cnt[c] == CountLen(lens, c, elems)
    ensures CountWeight(cnt, top, b) == SpaceTo(lens, top, b, elems)
  {
    if b > 0 {
      WeightIsSpace(lens, cnt, elems, top, b - 1);
      if b > 1 {
        assert cnt[b - 1] == CodesTo(lens, b - 1, elems);
      } else {
        assert CodesTo(lens, 0, elems) == 0;
      }
    }
  }

  lemma WeightIsKraft(lens: seq<nat>, cnt: seq<nat>, elems: nat, top: nat)
    requires elems <= |lens| && top < |cnt|
    requires forall c :: 1 <= c <= top ==> cnt[c] == CountLen(lens, c, elems)
    ensures CountWeight(cnt, top, top + 1) == Kraft(lens, top, elems)
  {
    WeightIsSpace(lens, cnt, elems, top, top + 1);
    KraftIsSpace(lens, top, elems);
  }

  /** Symbols below `c` whose length lies in 1..b-1. */
  ghost function Used(lens: seq<nat>, b: nat, c: nat): (r: nat)
    requires c <= |lens|
    ensures r <= c
  {
    if c == 0 then 0 else Used(lens, b, c - 1) + if 0 < lens[c - 1] < b then 1 else 0
  }

  lemma {:induction false} UsedNext(lens: seq<nat>, b: nat, c: nat)
    requires c <= |lens| && b > 0
    ensures Used(lens, b + 1, c) == Used(lens, b, c) + CountLen(lens, b, c)
  {
    if c > 0 {
      UsedNext(lens, b, c - 1);
    }
  }

  lemma {:induction false} UsedNone(lens: seq<nat>, b: nat, c: nat)
    requires c <= |lens| && b <= 1
    ensures Used(lens, b, c) == 0
  {
    if c > 0 {
      UsedNone(lens, b, c - 1);
    }
  }

  lemma {:induction false} TotalIsUsed(lens: seq<nat>, cnt: seq<nat>, elems: nat, top: nat, b: nat)
    requires elems <= |lens| && b <= top + 1 && top < |cnt|
    requires forall c :: 1 <= c <= top ==> cnt[c] == CountLen(lens, c, elems)
    ensures CountTotal(cnt, b) == Used(lens, b, elems)
  {
    if b <= 1 {
      UsedNone(lens, b, elems);
    } else {
      TotalIsUsed(lens, cnt, elems, top, b - 1);
      UsedNext(lens, b - 1, elems);
    }
  }

  lemma {:induction false} UsedByPlace(order: seq<int>, lens: seq<nat>, elems: nat, k: nat, top: nat, c: nat)
    requires Settled(order, lens, elems, k, top) && c <= elems
    ensures Used(lens, top + 1, c) == Below(order, Ones(order), c, |order|)
  {
    TreeIndexes(order, elems, k);
    if c == 0 {
      BelowNothing(order, Ones(order), |order|);
    } else {
      UsedByPlace(order, lens, elems, k, top, c - 1);
      BelowStep(order, Ones(order), c, if 0 < lens[c - 1] < top + 1 then 1 else 0);
    }
  }

  /** The counts after the first pass, ready for the repair. */
  lemma ReadyToRepair(order: seq<int>, lens: seq<nat>, cnt: seq<nat>, elems: nat, k: nat, top: nat, overflow: nat)
    requires Settled(order, lens, elems, k, top) && top < |cnt| && elems <= Pow2(top)
    requires forall c :: 1 <= c <= top ==> cnt[c] == CountLen(lens, c, elems)
    requires overflow % 2 == 0 && Kraft(lens, top, elems) == Pow2(top) + overflow / 2
    requires overflow > 0 ==> CountLen(lens, top, elems) > overflow / 2
    ensures Excess(cnt, top, overflow, Used(lens, top + 1, elems))
    ensures Below(order, Ones(order), elems, |order|) == Used(lens, top + 1, elems)
  {
    WeightIsKraft(lens, cnt, elems, top);
    TotalIsUsed(lens, cnt, elems, top, top + 1);
    UsedByPlace(order, lens, elems, k, top, elems);
  }

  lemma {:induction false} StaticSame(d: Desc, freq: seq<nat>, lens: seq<nat>, lens': seq<nat>, m: nat)
    requires m <= d.extraBase + |d.extraBits| && m <= |freq| && m <= |lens| && m <= |lens'|
    requires d.staticLens.Some? && m <= |d.staticLens.value|
    requires forall n :: 0 <= n < m ==> (Assigned(lens[n]) <==> Assigned(lens'[n]))
    ensures StaticCost(d, freq, lens, m) == StaticCost(d, freq, lens', m)
  {
    if m > 0 {
      StaticSame(d, freq, lens, lens', m - 1);
    }
  }

  lemma SettledAssigned(order: seq<int>, lens: seq<nat>, elems: nat, k: nat, top: nat, n: nat)
    requires Settled(order, lens, elems, k, top) && n < elems && top <= MAX_BITS
    ensures Assigned(lens[n]) <==> n in order
  {
    if n in order {
      var p :| 0 <= p < |order| && order[p] == n;
      assert order[p] < elems;
    }
  }

  /** The lengths `gen_bitlen` must deliver, with the counts and the price to match. */
  ghost predicate Delivered(d: Desc, order: seq<int>, k: nat, freq: seq<nat>, lens: seq<nat>, cnt: seq<nat>,
                            opt: nat, stat: nat, opt0: nat, stat0: nat)
  {
    && Settled(order, lens, d.elems, k, d.maxLength)
    && Tallied(d, freq, lens, cnt, opt, stat, opt0, stat0)
    && Kraft(lens, d.maxLength, d.elems) == Pow2(d.maxLength)
  }

  /** Lengths above the longest stay unused. */
  lemma NoLonger(order: seq<int>, lens: seq<nat>, elems: nat, k: nat, top: nat, b: nat, c: nat)
    requires Settled(order, lens, elems, k, top) && top < b && c <= elems
    ensures CountLen(lens, b, c) == 0
    decreases c
  {
    if c > 0 {
      NoLonger(order, lens, elems, k, top, b, c - 1);
      if c - 1 in order {
        var p :| 0 <= p < |order| && order[p] == c - 1;
        assert order[p] < elems;
      }
    }
  }

  lemma RepairDelivers(d: Desc, order: seq<int>, k: nat, freq: seq<nat>, lens0: seq<nat>, lens: seq<nat>, cnt: seq<nat>,
                       opt: nat, stat: nat, opt0: nat, stat0: nat, leaves: nat)
    requires d.Valid() && d.elems <= |freq| && |cnt| == MAX_BITS + 1 && cnt[0] == 0
    requires Settled(order, lens0, d.elems, k, d.maxLength) && Settled(order, lens, d.elems, k, d.maxLength)
    requires forall b :: 1 <= b <= d.maxLength ==> CountLen(lens, b, d.elems) == cnt[b]
    requires forall b :: d.maxLength < b <= MAX_BITS ==> cnt[b] == 0
    requires Excess(cnt, d.maxLength, 0, leaves)
    requires opt == Add32(opt0, Cost(d, freq, lens, d.elems))
    requires stat == if d.staticLens.Some? then Add32(stat0, StaticCost(d, freq, lens0, d.elems)) else stat0
    ensures Delivered(d, order, k, freq, lens, cnt, opt, stat, opt0, stat0)
  {
    WeightIsKraft(lens, cnt, d.elems, d.maxLength);
    forall b | d.maxLength < b <= MAX_BITS
      ensures cnt[b] == CountLen(lens, b, d.elems)
    {
      NoLonger(order, lens, d.elems, k, d.maxLength, b, d.elems);
    }
    if d.staticLens.Some? {
      forall n | 0 <= n < d.elems
        ensures Assigned(lens0[n]) <==> Assigned(lens[n])
      {
        SettledAssigned(order, lens0, d.elems, k, d.maxLength, n);
        SettledAssigned(order, lens, d.elems, k, d.maxLength, n);
      }
      StaticSame(d, freq, lens0, lens, d.elems);
    }
  }

  /** The branch that runs when some codes came out too long. */
  method RepairLengths(d: Desc, ghost order: seq<int>, ghost k: nat, freq: array<nat>, dl: array<nat>, heap: array<nat>,
                       heapMax: nat,
                       maxCode: int, blCount: array<nat>, overflow: nat, opt1: nat, stat: nat, ghost opt0: nat,
                       ghost stat0: nat)
    returns (opt: nat)
    requires freq != dl && dl != blCount && freq != blCount && heap !in {freq, dl, blCount}
    requires blCount.Length == MAX_BITS + 1
    requires d.elems <= freq.Length && LeavesUpTo(order, d.elems, maxCode) && Tail(heap[..], heapMax, order)
    requires Settled(order, dl[..], d.elems, k, d.maxLength)
    requires Tallied(d, freq[..], dl[..], blCount[..], opt1, stat, opt0, stat0)
    requires overflow > 0 && Excess(blCount[..], d.maxLength, overflow, Used(dl[..], d.maxLength + 1, d.elems))
    requires Below(order, Ones(order), d.elems, |order|) == Used(dl[..], d.maxLength + 1, d.elems)
    modifies dl, blCount
    ensures Delivered(d, order, k, freq[..], dl[..], blCount[..], opt, stat, opt0, stat0)
    ensures Stepped(order, dl[..], d.elems, 0, 0)
    ensures blCount[..] == Repaired(old(blCount[..]), d.maxLength, overflow)
  {
    ghost var lens0, leaves := dl[..], Used(dl[..], d.maxLength + 1, d.elems);
    forall b | d.maxLength < b <= MAX_BITS
      ensures blCount[b] == 0
    {
      NoLonger(order, lens0, d.elems, k, d.maxLength, b, d.elems);
    }
    Repair(blCount, d.maxLength, overflow, leaves);
    RedoneStarts(order, dl[..], d.elems, k, blCount[..], d.maxLength);
    opt := Recompute(d, order, k, freq, dl, heap, heapMax, maxCode, blCount, opt1, opt0);
    RepairDelivers(d, order, k, freq[..], lens0, dl[..], blCount[..], opt, stat, opt0, stat0, leaves);
  }

  lemma {:induction false} NoneCapped(lens: seq<nat>, elems: nat, k: nat, top: nat, m: nat)
    requires elems + k <= |lens| && m <= 2 * k + 1 && Overflow(lens, elems, k, top, m) == 0
    ensures forall i :: 1 <= i < m ==> lens[Parent(elems, k, i)] + 1 <= top
    decreases m
  {
    if m > 1 {
      NoneCapped(lens, elems, k, top, m - 1);
    }
  }

  /** Without overflow the lengths are the depths of the tree. */
  lemma PassTrue(order: seq<int>, lens: seq<nat>, elems: nat, k: nat, top: nat)
    requires Half(order, lens, elems, k, top, |order|) && Overflow(lens, elems, k, top, |order|) == 0
    ensures TrueDepths(order, lens, elems, k)
  {
    TreeIndexes(order, elems, k);
    NoneCapped(lens, elems, k, top, |order|);
    forall i | 1 <= i < |order|
      ensures lens[order[i]] == lens[Parent(elems, k, i)] + 1
    {
      assert lens[order[i]] == Capped(lens[Parent(elems, k, i)], top);
    }
  }

  /** The counts are those of the depths in the tree, cut at the limit, and then repaired. */
  ghost predicate CutAndRepaired(order: seq<int>, elems: nat, k: nat, top: nat, overflow: nat, cnt: seq<nat>,
                                 lens0: seq<nat>, cnt0: seq<nat>)
  {
    && Half(order, lens0, elems, k, top, |order|) && 1 <= top < |cnt0| && elems <= |lens0|
    && (forall b :: 1 <= b < |cnt0| ==> cnt0[b] == CountLen(lens0, b, elems))
    && cnt == Repaired(cnt0, top, overflow)
  }

  /** `gen_bitlen`: a complete code of allowed lengths, exactly counted and exactly priced. The lengths are the
      depths of the tree, or if some of those were too large, they rise along the list of its nodes. How many nodes
      were too deep comes out as `overflow`. */
  method Gen(d: Desc, ghost order: seq<int>, ghost k: nat, freq: array<nat>, dl: array<nat>, heap: array<nat>,
             heapMax: nat,
             maxCode: int, blCount: array<nat>, opt0: nat, stat0: nat)
    returns (opt: nat, stat: nat, overflow: nat)
    requires freq != dl && dl != blCount && freq != blCount && heap !in {freq, dl, blCount}
    requires blCount.Length == MAX_BITS + 1 && heap.Length == HEAP_SIZE
    requires d.Valid() && d.elems <= freq.Length && opt0 < TWO32 && stat0 < TWO32
    requires Linked(order, dl[..], d.elems, k) && LeavesUpTo(order, d.elems, maxCode) && Tail(heap[..], heapMax, order)
    modifies dl, blCount
    ensures Delivered(d, order, k, freq[..], dl[..], blCount[..], opt, stat, opt0, stat0)
    ensures if overflow == 0 then TrueDepths(order, dl[..], d.elems, k) else Stepped(order, dl[..], d.elems, 0, 0)
    ensures TooDeep(order, d.elems, k, d.maxLength, overflow)
    ensures overflow > 0 ==> exists lens0: seq<nat>, cnt0: seq<nat> ::
              CutAndRepaired(order, d.elems, k, d.maxLength, overflow, blCount[..], lens0, cnt0)
  {
    overflow, opt, stat := FirstPass(d, order, k, freq, dl, heap, heapMax, maxCode, blCount, opt0, stat0);
    PassDepths(order, dl[..], d.elems, k, d.maxLength);
    OverflowCounts(order, dl[..], d.elems, k, d.maxLength);
    PassSettles(order, dl[..], d.elems, k, d.maxLength);
    AfterPass(order, dl[..], d.elems, k, d.maxLength, overflow);
    if overflow == 0 {
      PassTrue(order, dl[..], d.elems, k, d.maxLength);
      return;
    }
    ReadyToRepair(order, dl[..], blCount[..], d.elems, k, d.maxLength, overflow);
    ghost var lens0: seq<nat>, cnt0: seq<nat> := dl[..], blCount[..];
    opt := RepairLengths(d, order, k, freq, dl, heap, heapMax, maxCode, blCount, overflow, opt, stat, opt0, stat0);
    assert CutAndRepaired(order, d.elems, k, d.maxLength, overflow, blCount[..], lens0, cnt0);
  }
}
