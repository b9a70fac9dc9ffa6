/** `BZ2_hbMakeCodeLengths`. A weight carries the frequency in its upper bits and
    the height of the subtree in its low byte. */
module HbLengths {
  import opened TreeWeight
  import opened Heap
  import opened HbHeap
  import opened NodeWeights
  import opened TreeDepths
  import BT = BuildTree

  const MAX_ALPHA := 258

  // ----- the total weight -----

  function FreqOf(w: seq<int>, v: int): int {
    if 0 <= v < |w| then Freq(w[v]) else 0
  }

  ghost function RootSum(roots: seq<int>, w: seq<int>): (r: int) {
    if roots == [] then 0 else RootSum(roots[1..], w) + FreqOf(w, roots[0])
  }

  lemma {:induction false} RootSumRemove(roots: seq<int>, w: seq<int>, j: nat)
    requires j < |roots|
    ensures RootSum(roots, w) == RootSum(roots[..j] + roots[j + 1..], w) + FreqOf(w, roots[j])
    decreases |roots|
  {
    if j == 0 {
      assert roots[..0] + roots[1..] == roots[1..];
    } else {
      RootSumRemove(roots[1..], w, j - 1);
      var less := roots[..j] + roots[j + 1..];
      assert less[1..] == roots[1..][..j - 1] + roots[1..][j..];
      assert less[0] == roots[0];
    }
  }

  lemma RemoveMembers(b: seq<int>, j: nat)
    requires Distinct(b) && j < |b|
    ensures var b' := b[..j] + b[j + 1..]; Distinct(b') && forall v :: v in b' <==> v in b && v != b[j]
  {
    var b' := b[..j] + b[j + 1..];
    forall v | v in b && v != b[j]
      ensures v in b'
    {
      var i :| 0 <= i < |b| && b[i] == v;
      if i < j {
        assert b'[i] == v;
      } else {
        assert b'[i - 1] == v;
      }
    }
    forall v | v in b'
      ensures v in b && v != b[j]
    {
      var i :| 0 <= i < |b'| && b'[i] == v;
      assert v == if i < j then b[i] else b[i + 1];
    }
  }

  /** The total does not depend on the order of the roots. */
  lemma {:induction false} RootSumSame(a: seq<int>, b: seq<int>, w: seq<int>)
    requires Distinct(a) && Distinct(b) && BT.SameMembers(a, b) && |a| == |b|
    ensures RootSum(a, w) == RootSum(b, w)
    decreases |a|
  {
    if a != [] {
      var x := a[0];
      assert x in a;
      assert x in b;
      var j :| 0 <= j < |b| && b[j] == x;
      RemoveMembers(b, j);
      RemoveMembers(a, 0);
      assert a[..0] + a[1..] == a[1..];
      RootSumSame(a[1..], b[..j] + b[j + 1..], w);
      RootSumRemove(b, w, j);
    }
  }

  lemma {:induction false} RootSumFrame(roots: seq<int>, w: seq<int>, w': seq<int>)
    requires forall v :: v in roots ==> FreqOf(w, v) == FreqOf(w', v)
    ensures RootSum(roots, w) == RootSum(roots, w')
  {
    if roots != [] {
      assert roots[0] in roots && forall v :: v in roots[1..] ==> v in roots;
      RootSumFrame(roots[1..], w, w');
    }
  }

  // ----- taking nodes off -----

  /** Takes a lightest node off the heap. */
  method PopLight(heap: array<int>, weight: array<int>, n: nat) returns (v: int)
    requires heap != weight && 1 <= n && n + 1 < heap.Length && MinHeap(heap[..], weight[..], n)
    requires Distinct(BT.Roots(heap[..], n))
    modifies heap
    ensures v == old(heap[1]) && MinHeap(heap[..], weight[..], n - 1) && heap[0] == old(heap[0])
    ensures var roots, left := BT.Roots(old(heap[..]), n), BT.Roots(heap[..], n - 1);
            && Distinct(left) && v !in left && (forall u :: u in roots <==> u == v || u in left)
            && forall u :: u in left ==> 0 <= u < weight.Length && weight[v] <= weight[u]
  {
    ghost var h, w := heap[..], weight[..];
    v := heap[1];
    PopSinks(h, w, n);
    heap[1] := heap[n];
    ghost var h1 := heap[..];
    assert h1 == h[1 := h[n]];
    DownHeap(heap, weight, n - 1);
    ghost var roots, left0, left := BT.Roots(h, n), BT.Roots(h1, n - 1), BT.Roots(heap[..], n - 1);
    RootsPopped(h, h1, n);
    PopRest(roots, left0);
    BT.RootsShuffle(h1, heap[..], n - 1);
    forall u | u in left
      ensures 0 <= u < weight.Length && weight[v] <= weight[u]
    {
      assert u in roots;
      var j :| 0 <= j < |roots| && roots[j] == u;
      FirstIsLightest(h, w, n, j + 1);
    }
  }

  lemma RootsPopped(h: seq<int>, h1: seq<int>, n: nat)
    requires 1 <= n && n + 1 < |h| && h1 == h[1 := h[n]]
    ensures var roots, left := BT.Roots(h, n), BT.Roots(h1, n - 1);
            |left| > 0 ==> left == [roots[|roots| - 1]] + roots[1..|roots| - 1]
  {
    var roots, left := BT.Roots(h, n), BT.Roots(h1, n - 1);
    if n > 1 {
      var popped := [roots[n - 1]] + roots[1..n - 1];
      forall i | 0 <= i < n - 1
        ensures left[i] == popped[i]
      {
        assert left[i] == h1[i + 1];
        assert i > 0 ==> popped[i] == roots[i] == h[i + 1];
      }
      assert left == popped;
    }
  }

  lemma PopRest(roots: seq<int>, left: seq<int>)
    requires |roots| >= 1 && Distinct(roots) && |left| == |roots| - 1
    requires |left| > 0 ==> left == [roots[|roots| - 1]] + roots[1..|roots| - 1]
    ensures Distinct(left) && roots[0] !in left && forall v :: v in roots <==> v == roots[0] || v in left
  {
    if |roots| >= 2 {
      BT.PopMembers(roots, left);
    } else {
      assert roots == [roots[0]];
    }
  }

  // ----- the growing forest -----

  /** Parents with "none" read as 0. */
  function NatPar(par: seq<int>): (r: seq<nat>)
    ensures |r| == |par|
  {
    seq(|par|, i requires 0 <= i < |par| => if par[i] < 0 then 0 else par[i])
  }

  /** Heap, parents and weights agree on a forest of `k` joined nodes over leaves 1..elems-1. */
  ghost predicate Grown(roots: seq<int>, tail: seq<int>, w: seq<int>, par: seq<int>, elems: nat, k: nat, total: nat) {
    && |w| == |par| && elems + k <= |w| && elems <= MAX_ALPHA + 1
    && BT.Forest(roots, tail, NatPar(par), elems, k)
    && 0 !in roots && 0 !in tail && (forall v :: 1 <= v < elems ==> v in roots || v in tail)
    && (forall v :: v in roots ==> par[v] == -1)
    && RootSum(roots, w) == total < 0x80_0000 && BT.Ranked(roots, tail, w, elems, k)
  }

  /** The weights and parents after joining `n1` and `n2`. */
  ghost predicate JoinedTo(w: seq<int>, par: seq<int>, w': seq<int>, par': seq<int>, node: nat, n1: nat, n2: nat)
    requires n1 < |w| && n2 < |w|
  {
    && |w'| == |w| == |par| == |par'| && node < |w|
    && w' == w[node := Joined(w[n1], w[n2])]
    && par' == par[n1 := node][n2 := node][node := -1]
  }

  lemma ForestFrame(roots: seq<int>, tail: seq<int>, lens: seq<nat>, lens': seq<nat>, elems: nat, k: nat)
    requires BT.Forest(roots, tail, lens, elems, k) && |lens| == |lens'|
    requires forall v :: 0 <= v < |lens| && (v < elems || v in tail) ==> lens[v] == lens'[v]
    ensures BT.Forest(roots, tail, lens', elems, k)
  {
    forall i | 0 <= i < |tail|
      ensures lens'[tail[i]] == BT.TailParent(elems, k, i)
    {
      assert tail[i] in tail;
    }
  }

  lemma JoinForest(roots: seq<int>, rest: seq<int>, tail: seq<int>, par: seq<int>, par': seq<int>, elems: nat, k: nat,
                   n1: nat, n2: nat)
    requires BT.Forest(roots, tail, NatPar(par), elems, k) && BT.Without(roots, n1, n2, rest) && elems + k < |par|
    requires n1 < |par| && n2 < |par| && par' == par[n1 := elems + k][n2 := elems + k][elems + k := -1]
    ensures BT.Forest([elems + k] + rest, [n2, n1] + tail, NatPar(par'), elems, k + 1)
  {
    var node := elems + k;
    var lens := NatPar(par);
    assert n1 in roots && n2 in roots;
    BT.MergeKeepsForest(roots, tail, lens, elems, k, n1, n2, rest);
    var tail' := [n2, n1] + tail;
    forall v | 0 <= v < |par| && (v < elems || v in tail')
      ensures lens[n1 := node][n2 := node][v] == NatPar(par')[v]
    {
      if v in tail {
        var i :| 0 <= i < |tail| && tail[i] == v;
        assert tail[i] < BT.TailParent(elems, k, i);
      }
    }
    ForestFrame([node] + rest, tail', lens[n1 := node][n2 := node], NatPar(par'), elems, k + 1);
  }

  /** Joining leaves no leaf out and does not bring in the sentinel. */
  lemma JoinCovers(roots: seq<int>, rest: seq<int>, tail: seq<int>, elems: nat, node: nat, n1: nat, n2: nat)
    requires BT.Without(roots, n1, n2, rest) && 0 !in roots && 0 !in tail && node > 0
    requires forall v :: 1 <= v < elems ==> v in roots || v in tail
    ensures 0 !in [node] + rest && 0 !in [n2, n1] + tail
    ensures forall v :: 1 <= v < elems ==> v in [node] + rest || v in [n2, n1] + tail
  {
    forall v | v in [node] + rest
      ensures v != 0
    {
      if v in rest { assert v in roots; }
    }
    forall v | 1 <= v < elems
      ensures v in [node] + rest || v in [n2, n1] + tail
    {
      assert v in roots || v in tail;
      assert v in rest ==> v in [node] + rest;
    }
  }

  lemma RootsSplit(roots: seq<int>, rest: seq<int>, n1: int, n2: int, w: seq<int>)
    requires Distinct(roots) && BT.Without(roots, n1, n2, rest) && |roots| == |rest| + 2
    ensures RootSum(roots, w) == FreqOf(w, n1) + FreqOf(w, n2) + RootSum(rest, w)
  {
    BT.DistinctJoin([n1, n2], rest);
    var pair := [n1, n2] + rest;
    assert pair[1..] == [n2] + rest && ([n2] + rest)[1..] == rest;
    RootSumSame(roots, pair, w);
  }

  /** Roots not joined keep their weights and parents. */
  lemma RestSame(roots: seq<int>, rest: seq<int>, w: seq<int>, par: seq<int>, w': seq<int>, par': seq<int>, node: nat,
                 mx: nat, n1: nat, n2: nat)
    requires BT.Without(roots, n1, n2, rest) && node < |w| == |par| && BT.HeavyRoots(roots, w, mx)
    requires forall v :: v in roots ==> v != node && par[v] == -1
    requires n1 < |w| && n2 < |w| && JoinedTo(w, par, w', par', node, n1, n2)
    ensures forall v :: v in rest ==> par'[v] == -1 && FreqOf(w, v) == FreqOf(w', v) >= 0
  {
    forall v | v in rest
      ensures par'[v] == -1 && FreqOf(w, v) == FreqOf(w', v) >= 0
    {
      assert v in roots;
      assert NodeOk(w, v, mx);
    }
  }

  /** The total of the roots left after joining is unchanged. */
  lemma JoinTotal(roots: seq<int>, rest: seq<int>, w: seq<int>, w': seq<int>, node: nat, mx: nat, total: nat, n1: nat,
                  n2: nat)
    requires Distinct(roots) && BT.Without(roots, n1, n2, rest) && |roots| == |rest| + 2 && node < |w|
    requires BT.HeavyRoots(roots, w, mx) && RootSum(roots, w) == total < 0x80_0000
    requires n1 < |w| && n2 < |w| && w[n1] <= w[n2] && w' == w[node := Joined(w[n1], w[n2])]
    requires forall v :: v in rest ==> FreqOf(w, v) == FreqOf(w', v) >= 0
    ensures RootSum([node] + rest, w') == total && Freq(w[n1]) + Freq(w[n2]) <= total && w'[node] >= 0
  {
    assert n1 in roots && n2 in roots;
    RootsSplit(roots, rest, n1, n2, w);
    RestSums(rest, w, w');
    JoinedOk(w, n1, n2, mx);
    RootSumFront(node, rest, w');
  }

  lemma RestSums(rest: seq<int>, w: seq<int>, w': seq<int>)
    requires forall v :: v in rest ==> FreqOf(w, v) == FreqOf(w', v) >= 0
    ensures RootSum(rest, w) == RootSum(rest, w') >= 0
  {
    RestNonNegative(rest, w);
    RootSumFrame(rest, w, w');
  }

  lemma RootSumFront(node: int, rest: seq<int>, w: seq<int>)
    ensures RootSum([node] + rest, w) == FreqOf(w, node) + RootSum(rest, w)
  {
    assert ([node] + rest)[1..] == rest;
  }

  lemma {:induction false} RestNonNegative(rest: seq<int>, w: seq<int>)
    requires forall v :: v in rest ==> FreqOf(w, v) >= 0
    ensures RootSum(rest, w) >= 0
  {
    if rest != [] {
      assert forall v :: v in rest[1..] ==> v in rest;
      RestNonNegative(rest[1..], w);
      assert rest[0] in rest;
    }
  }

  /** Joining the two lightest roots. */
  lemma JoinGrows(roots: seq<int>, rest: seq<int>, tail: seq<int>, w: seq<int>, par: seq<int>, w': seq<int>,
                  par': seq<int>,
                  elems: nat, k: nat, total: nat, n1: nat, n2: nat)
    requires Grown(roots, tail, w, par, elems, k, total) && BT.Without(roots, n1, n2, rest) && elems + k < |w|
    requires n1 < elems + k && n2 < elems + k && JoinedTo(w, par, w', par', elems + k, n1, n2) && |roots| == |rest| + 2
    requires w[n1] <= w[n2] && forall v :: v in rest ==> BT.NotLighter(w, v, n2)
    ensures Grown([elems + k] + rest, [n2, n1] + tail, w', par', elems, k + 1, total) && w'[elems + k] >= 0
  {
    JoinForest(roots, rest, tail, par, par', elems, k, n1, n2);
    JoinCovers(roots, rest, tail, elems, elems + k, n1, n2);
    BT.DistinctApart(roots, tail);
    RestSame(roots, rest, w, par, w', par', elems + k, BT.LastJoined(tail, w), n1, n2);
    JoinTotal(roots, rest, w, w', elems + k, BT.LastJoined(tail, w), total, n1, n2);
    BT.RankedStep(roots, rest, tail, w, w', elems, k, n1, n2);
  }

  // ----- the loops -----

  /** Heap, weights and parents while `n` roots are left. */
  ghost predicate HeapState(h: seq<int>, w: seq<int>, par: seq<int>, tail: seq<int>, elems: nat, k: nat, n: nat,
                            total: nat) {
    && |h| == 260 && |w| == |par| == 516 && h[0] == 0 && w[0] == 0
    && 1 <= n && n + k + 1 == elems <= MAX_ALPHA + 1
    && MinHeap(h, w, n)
    && Growth(BT.Roots(h, n), tail, w, par, elems, k, total)
  }

  predicate Stage(j: nat, k: nat) { j == k }

  /** `Grown`, said of every stage that is this one, so that it is taken apart only where `Stage` is mentioned. */
  ghost predicate Growth(roots: seq<int>, tail: seq<int>, w: seq<int>, par: seq<int>, elems: nat, k: nat,
                         total: nat) {
    forall j: nat {:trigger Stage(j, k)} :: Stage(j, k) ==> Grown(roots, tail, w, par, elems, k, total)
  }

  lemma GrowthReroot(roots: seq<int>, roots': seq<int>, tail: seq<int>, w: seq<int>, par: seq<int>, elems: nat, k: nat,
                     total: nat)
    requires Growth(roots, tail, w, par, elems, k, total)
    requires Distinct(roots') && BT.SameMembers(roots, roots') && |roots| == |roots'|
    ensures Growth(roots', tail, w, par, elems, k, total)
  {
    assert Stage(k, k);
    BT.DistinctApart(roots, tail);
    BT.ForestReroot(roots, roots', tail, NatPar(par), elems, k);
    RootSumSame(roots, roots', w);
    BT.RankedReroot(roots, roots', tail, w, elems, k);
  }

  /** Puts a new node on the heap. */
  method Push(heap: array<int>, weight: array<int>, n: nat, v: int)
    requires heap != weight && n + 1 < heap.Length && weight.Length > 0 && 0 <= v < weight.Length && weight[v] >= 0
    requires heap[0] == 0 && weight[0] == 0 && MinHeap(heap[..], weight[..], n)
    requires Distinct(BT.Roots(heap[..], n)) && v !in BT.Roots(heap[..], n)
    modifies heap
    ensures MinHeap(heap[..], weight[..], n + 1) && heap[0] == 0
    ensures Distinct(BT.Roots(heap[..], n + 1))
    ensures BT.SameMembers([v] + BT.Roots(old(heap[..]), n), BT.Roots(heap[..], n + 1))
  {
    ghost var h, w := heap[..], weight[..];
    ghost var roots := BT.Roots(h, n);
    heap[n + 1] := v;
    ghost var h1 := heap[..];
    assert BT.Roots(h1, n + 1) == roots + [v];
    assert MinHeap(h1, w, n) by {
      forall j | 2 <= j <= n ensures Edge(h1, w, j) { assert Edge(h, w, j); }
    }
    BT.DistinctJoin(roots, [v]);
    UpHeap(heap, weight, n + 1);
    BT.RootsShuffle(h1, heap[..], n + 1);
  }

  /** The two lightest nodes off the heap. */
  method PopTwo(heap: array<int>, weight: array<int>, n: nat) returns (n1: int, n2: int)
    requires heap != weight && 2 <= n && n + 1 < heap.Length && MinHeap(heap[..], weight[..], n)
    requires Distinct(BT.Roots(heap[..], n))
    modifies heap
    ensures 0 <= n1 < weight.Length && 0 <= n2 < weight.Length && weight[n1] <= weight[n2]
    ensures MinHeap(heap[..], weight[..], n - 2) && heap[0] == old(heap[0])
    ensures var rest := BT.Roots(heap[..], n - 2);
            && BT.Without(BT.Roots(old(heap[..]), n), n1, n2, rest)
            && forall u :: u in rest ==> 0 <= u < weight.Length && weight[n2] <= weight[u]
  {
    ghost var roots := BT.Roots(heap[..], n);
    assert roots[0] == heap[1] && heap[1] in roots;
    n1 := PopLight(heap, weight, n);
    ghost var left := BT.Roots(heap[..], n - 1);
    assert left[0] == heap[1] && heap[1] in left;
    n2 := PopLight(heap, weight, n - 1);
  }

  /** Files the joined node's weight and its children's parent. */
  method Record(weight: array<int>, parent: array<int>, n1: nat, n2: nat, node: nat)
    requires weight != parent && weight.Length == parent.Length && n1 < node < weight.Length && n2 < node
    modifies weight, parent
    ensures JoinedTo(old(weight[..]), old(parent[..]), weight[..], parent[..], node, n1, n2)
  {
    parent[n2] := node;
    parent[n1] := node;
    weight[node] := Joined(weight[n1], weight[n2]);
    parent[node] := -1;
    assert weight[..] == old(weight[..])[node := Joined(old(weight[n1]), old(weight[n2]))];
    assert parent[..] == old(parent[..])[n1 := node][n2 := node][node := -1];
  }

  lemma RootsApart(roots: seq<int>, tail: seq<int>, w: seq<int>, par: seq<int>, elems: nat, k: nat, total: nat)
    requires Growth(roots, tail, w, par, elems, k, total)
    ensures Distinct(roots)
  {
    assert Stage(k, k);
    BT.DistinctApart(roots, tail);
  }

  lemma JoinGrowth(roots: seq<int>, rest: seq<int>, tail: seq<int>, w: seq<int>, par: seq<int>, w': seq<int>,
                   par': seq<int>,
                   elems: nat, k: nat, total: nat, n1: nat, n2: nat)
    requires Growth(roots, tail, w, par, elems, k, total) && BT.Without(roots, n1, n2, rest) && elems + k < |w|
    requires n1 < elems + k && n2 < elems + k && JoinedTo(w, par, w', par', elems + k, n1, n2) && |roots| == |rest| + 2
    requires w[n1] <= w[n2] && forall v :: v in rest ==> BT.NotLighter(w, v, n2)
    ensures w'[elems + k] >= 0
    ensures Growth([elems + k] + rest, [n2, n1] + tail, w', par', elems, k + 1, total)
  {
    assert Stage(k, k);
    JoinGrows(roots, rest, tail, w, par, w', par', elems, k, total, n1, n2);
  }

  /** Takes the two lightest nodes off and joins them, leaving the new node off the heap. */
  method TakeAndJoin(heap: array<int>, weight: array<int>, parent: array<int>, ghost tail: seq<int>, ghost elems: nat,
                     ghost k: nat,
                     n: nat, node: nat, ghost ghost total: nat)
    returns (ghost tail': seq<int>)
    requires heap != weight && heap != parent && weight != parent && 2 <= n && node == elems + k
    requires HeapState(heap[..], weight[..], parent[..], tail, elems, k, n, total)
    modifies heap, weight, parent
    ensures heap[0] == 0 && weight[0] == 0 && MinHeap(heap[..], weight[..], n - 2)
    ensures var rest := BT.Roots(heap[..], n - 2);
            && node !in rest && Distinct(rest) && weight[node] >= 0
            && Growth([node] + rest, tail', weight[..], parent[..], elems, k + 1, total)
    ensures forall i :: 0 <= i < elems ==> weight[i] == old(weight[i])
  {
    ghost var w, par, roots := weight[..], parent[..], BT.Roots(heap[..], n);
    RootsApart(roots, tail, w, par, elems, k, total);
    var n1, n2 := PopTwo(heap, weight, n);
    ghost var rest := BT.Roots(heap[..], n - 2);
    NodeIsNew(roots, rest, tail, w, par, elems, k, total, n1, n2);
    Record(weight, parent, n1, n2, node);
    JoinGrowth(roots, rest, tail, w, par, weight[..], parent[..], elems, k, total, n1, n2);
    MinHeapFrame(heap[..], w, weight[..], n - 2, node);
    tail' := [n2, n1] + tail;
  }

  /** One turn of the joining loop. */
  method JoinOnce(heap: array<int>, weight: array<int>, parent: array<int>, ghost tail: seq<int>, ghost elems: nat,
                  ghost k: nat,
                  n: nat, node: nat, ghost ghost total: nat)
    returns (ghost tail': seq<int>)
    requires heap != weight && heap != parent && weight != parent && 2 <= n && node == elems + k
    requires HeapState(heap[..], weight[..], parent[..], tail, elems, k, n, total)
    modifies heap, weight, parent
    ensures HeapState(heap[..], weight[..], parent[..], tail', elems, k + 1, n - 1, total)
    ensures forall i :: 0 <= i < elems ==> weight[i] == old(weight[i])
  {
    tail' := TakeAndJoin(heap, weight, parent, tail, elems, k, n, node, total);
    ghost var rest := BT.Roots(heap[..], n - 2);
    Push(heap, weight, n - 2, node);
    GrowthReroot([node] + rest, BT.Roots(heap[..], n - 1), tail', weight[..], parent[..], elems, k + 1, total);
  }

  lemma NodeIsNew(roots: seq<int>, rest: seq<int>, tail: seq<int>, w: seq<int>, par: seq<int>, elems: nat, k: nat,
                  total: nat,
                  n1: int, n2: int)
    requires Growth(roots, tail, w, par, elems, k, total) && BT.Without(roots, n1, n2, rest)
    ensures 0 < n1 < elems + k && 0 < n2 < elems + k && elems + k !in rest && Distinct(rest)
  {
    assert Stage(k, k);
    assert n1 in roots && n2 in roots;
    assert forall v :: v in rest ==> v in roots;
  }

  lemma MinHeapFrame(h: seq<int>, w: seq<int>, w': seq<int>, n: nat, node: nat)
    requires MinHeap(h, w, n) && node < |w| == |w'| && w' == w[node := w'[node]] && node !in BT.Roots(h, n)
    ensures MinHeap(h, w', n)
  {
    forall j | 2 <= j <= n
      ensures Edge(h, w', j)
    {
      assert Edge(h, w, j);
      assert BT.Roots(h, n)[j - 1] == h[j] && BT.Roots(h, n)[j / 2 - 1] == h[j / 2];
    }
  }

  /** Joins until one root is left. */
  method JoinAll(heap: array<int>, weight: array<int>, parent: array<int>, alphaSize: nat, ghost total: nat)
    returns (ghost tail: seq<int>)
    requires heap != weight && heap != parent && weight != parent && 2 <= alphaSize
    requires HeapState(heap[..], weight[..], parent[..], [], alphaSize + 1, 0, alphaSize, total)
    modifies heap, weight, parent
    ensures HeapState(heap[..], weight[..], parent[..], tail, alphaSize + 1, alphaSize - 1, 1, total)
    ensures forall i :: 0 <= i <= alphaSize ==> weight[i] == old(weight[i])
  {
    var nHeap, nNodes := alphaSize, alphaSize;
    tail := [];
    while nHeap > 1
      invariant 1 <= nHeap <= alphaSize && nNodes == alphaSize + (alphaSize - nHeap)
      invariant HeapState(heap[..], weight[..], parent[..], tail, alphaSize + 1, alphaSize - nHeap, nHeap, total)
      invariant forall i :: 0 <= i <= alphaSize ==> weight[i] == old(weight[i])
    {
      tail := JoinOnce(heap, weight, parent, tail, alphaSize + 1, alphaSize - nHeap, nHeap, nNodes + 1, total);
      nHeap, nNodes := nHeap - 1, nNodes + 1;
    }
  }

  /** The leaves 1..m as roots: nothing joined yet. */
  ghost predicate Planted(h: seq<int>, w: seq<int>, par: seq<int>, m: nat) {
    && |h| == 260 && |w| == |par| == 516 && m <= MAX_ALPHA && h[0] == 0 && w[0] == 0 && par[0] == -2
    && MinHeap(h, w, m) && Distinct(BT.Roots(h, m))
    && (forall v :: v in BT.Roots(h, m) <==> 1 <= v <= m)
    && (forall v :: 1 <= v <= m ==> par[v] == -1)
  }

  /** Leaf weights: a frequency of at least one, no height. */
  ghost predicate LeafWeights(w: seq<int>, m: nat) {
    |w| == 516 && m <= MAX_ALPHA && forall v :: 1 <= v <= m ==> w[v] >= 256 && Height(w[v]) == 0
  }

  ghost function LeafTotal(w: seq<int>, m: nat): int
    requires m < |w|
  {
    if m == 0 then 0 else LeafTotal(w, m - 1) + Freq(w[m])
  }

  /** The first loop: every symbol on the heap. */
  method Plant(heap: array<int>, weight: array<int>, parent: array<int>, alphaSize: nat)
    requires heap != weight && heap != parent && weight != parent && heap.Length == 260
    requires weight.Length == parent.Length == 516
    requires alphaSize <= MAX_ALPHA && LeafWeights(weight[..], alphaSize)
    modifies heap, weight, parent
    ensures Planted(heap[..], weight[..], parent[..], alphaSize)
    ensures forall i :: 1 <= i < 516 ==> weight[i] == old(weight[i])
  {
    heap[0], weight[0], parent[0] := 0, 0, -2;
    var i := 1;
    while i <= alphaSize
      invariant 1 <= i <= alphaSize + 1 && LeafWeights(weight[..], alphaSize)
      invariant Planted(heap[..], weight[..], parent[..], i - 1)
      invariant forall i :: 1 <= i < 516 ==> weight[i] == old(weight[i])
    {
      ghost var roots := BT.Roots(heap[..], i - 1);
      parent[i] := -1;
      Push(heap, weight, i - 1, i);
      forall v
        ensures v in BT.Roots(heap[..], i) <==> 1 <= v <= i
      {
        assert v in [i] + roots <==> v == i || v in roots;
      }
      i := i + 1;
    }
  }

  ghost function UpTo(m: nat): (r: seq<int>)
    ensures |r| == m && Distinct(r) && forall v :: v in r <==> 1 <= v <= m
  {
    if m == 0 then [] else
      BT.DistinctJoin([m], UpTo(m - 1));
      [m] + UpTo(m - 1)
  }

  lemma {:induction false} UpToTotal(w: seq<int>, m: nat)
    requires m < |w|
    ensures RootSum(UpTo(m), w) == LeafTotal(w, m)
  {
    if m > 0 {
      UpToTotal(w, m - 1);
      assert UpTo(m)[1..] == UpTo(m - 1);
    }
  }

  lemma PlantedForest(roots: seq<int>, par: seq<int>, m: nat)
    requires Distinct(roots) && m < |par| && (forall v :: v in roots <==> 1 <= v <= m)
    requires par[0] == -2
    ensures BT.Forest(roots, [], NatPar(par), m + 1, 0)
  {
    assert roots + [] == roots;
  }

  lemma LeafOk(w: seq<int>, m: nat, v: nat)
    requires LeafWeights(w, m) && 1 <= v <= m
    ensures NodeOk(w, v, 0)
  {
  }

  lemma PlantedTotal(roots: seq<int>, w: seq<int>, m: nat)
    requires Distinct(roots) && |roots| == m && (forall v :: v in roots <==> 1 <= v <= m) && LeafWeights(w, m)
    ensures RootSum(roots, w) == LeafTotal(w, m) >= 0
  {
    RootSumSame(roots, UpTo(m), w);
    UpToTotal(w, m);
    RestNonNegative(roots, w);
  }

  lemma PlantedGrows(h: seq<int>, w: seq<int>, par: seq<int>, m: nat)
    requires Planted(h, w, par, m) && LeafWeights(w, m) && 1 <= m && LeafTotal(w, m) < 0x80_0000
    ensures LeafTotal(w, m) >= 0 && HeapState(h, w, par, [], m + 1, 0, m, LeafTotal(w, m))
  {
    var roots := BT.Roots(h, m);
    PlantedForest(roots, par, m);
    PlantedTotal(roots, w, m);
    forall v | v in roots
      ensures NodeOk(w, v, 0) && par[v] == -1
    {
      LeafOk(w, m, v);
    }
  }

  // ----- depths -----

  /** A finished tree: in order, every node but the root with its parent on record, and every symbol a leaf. */
  ghost predicate Finished(order: seq<int>, w: seq<int>, par: seq<int>, elems: nat, k: nat, total: nat) {
    && Weighed(order, w, elems, k, total) && Parented(order, par, elems, k) && |w| == |par|
    && par[elems + k - 1] == -1 && 0 !in order && (forall v :: 1 <= v < elems ==> v in order)
  }

  lemma ForestParented(roots: seq<int>, tail: seq<int>, par: seq<int>, elems: nat, k: nat)
    requires BT.Forest(roots, tail, NatPar(par), elems, k) && |roots| == 1 && k > 0
    requires forall v :: v in roots ==> par[v] == -1
    ensures Parented(roots + tail, par, elems, k) && roots == [elems + k - 1]
  {
    var order := roots + tail;
    BT.ForestIsTree(roots, tail, NatPar(par), elems, k);
    assert order[0] == roots[0] && roots[0] in roots;
    forall a | 1 <= a < |order|
      ensures par[order[a]] == Parent(elems, k, a)
    {
      InnerAbove(order, elems, k, a);
      assert NatPar(par)[order[a]] == Parent(elems, k, a);
    }
    forall n | 0 <= n < elems && n !in order
      ensures par[n] <= 0
    {
      assert NatPar(par)[n] == 0;
    }
  }

  lemma StateFinished(h: seq<int>, w: seq<int>, par: seq<int>, tail: seq<int>, elems: nat, k: nat, total: nat)
    requires HeapState(h, w, par, tail, elems, k, 1, total) && k > 0
    ensures Finished(BT.Roots(h, 1) + tail, w, par, elems, k, total)
  {
    var roots := BT.Roots(h, 1);
    assert Stage(k, k);
    assert roots[0] in roots;
    ForestParented(roots, tail, par, elems, k);
    BT.RankedIsOrdered(roots, tail, w, elems, k);
    RootSumFront(roots[0], [], w);
    assert [roots[0]] + [] == roots && RootSum([], w) == 0;
  }

  /** Follows parents from symbol `i` to the root. */
  method CountSteps(ghost order: seq<int>, ghost w: seq<int>, parent: array<int>, ghost elems: nat, ghost k: nat,
                    ghost total: nat, i: nat)
    returns (j: nat)
    requires Finished(order, w, parent[..], elems, k, total) && i in order
    ensures i < parent.Length && j == Dep(parent[..], i)
  {
    TreeIndexes(order, elems, k);
    ghost var par := parent[..];
    var v: int := i;
    j := 0;
    while parent[v] >= 0
      invariant 0 <= v < elems + k && v in order
      invariant j + Dep(par, v) == Dep(par, i)
      decreases parent.Length - v
    {
      ghost var a :| 0 <= a < |order| && order[a] == v;
      assert a > 0;
      InnerAbove(order, elems, k, a);
      assert order[a] < Parent(elems, k, a);
      v := parent[v];
      j := j + 1;
    }
  }
}
