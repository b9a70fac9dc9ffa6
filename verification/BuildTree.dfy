/** `build_tree`: the Huffman tree, from the heap of used symbols to the linked tree. */
module BuildTree {
  import opened Powers
  import opened PrefixCode
  import opened TreeWeight
  import opened GenBitlen
  import opened Shuffle
  import opened Heap
  import opened Huffman
  import opened HuffmanHeight
  import opened Fibonacci
  import opened NodeWeights
  import opened TreeDepths
  import opened CodeQuality
  import GenCodes

  type Byte = n: nat | n < 256

  // ----- the heap -----

  /** `n` comes before `m`: smaller frequency, or equal and no deeper. */
  predicate Smaller(freq: array<nat>, depth: array<Byte>, n: nat, m: nat)
    requires n < freq.Length && m < freq.Length && n < depth.Length && m < depth.Length
    reads freq, depth
  {
    freq[n] < freq[m] || (freq[n] == freq[m] && depth[n] <= depth[m])
  }

  ghost predicate Nodes(heap: seq<int>, heapLen: nat, bound: nat) {
    heapLen < |heap| && forall p :: 1 <= p <= heapLen ==> 0 <= heap[p] < bound
  }

  /** What the heap is ordered by: frequency, and among equals depth. */
  ghost function Keys(freq: seq<nat>, depth: seq<Byte>): (w: seq<int>)
    ensures |w| == if |freq| <= |depth| then |freq| else |depth|
  {
    seq(if |freq| <= |depth| then |freq| else |depth|,
        i requires 0 <= i < |freq| && i < |depth| => 256 * freq[i] + depth[i])
  }

  lemma SmallerByKey(freq: array<nat>, depth: array<Byte>, n: nat, m: nat)
    requires n < freq.Length && m < freq.Length && n < depth.Length && m < depth.Length
    ensures var w := Keys(freq[..], depth[..]); Smaller(freq, depth, n, m) <==> w[n] <= w[m]
  {
  }

  /** The smaller of the two sons of `k`, the left one at `j0`. */
  method SmallerSon(freq: array<nat>, depth: array<Byte>, heap: array<nat>, heapLen: nat, k: nat, j0: nat,
                    ghost full: seq<int>)
    returns (j: nat)
    requires 1 <= k && j0 == 2 * k <= heapLen && InRange(full, Keys(freq[..], depth[..]), heapLen)
    requires |full| == heap.Length
    requires forall p :: 0 <= p < heap.Length && p != k ==> full[p] == heap[p]
    ensures LightChild(full, Keys(freq[..], depth[..]), heapLen, k, j) && (j == j0 || j == j0 + 1)
  {
    j := j0;
    assert full[j] == heap[j];
    if j < heapLen {
      assert full[j + 1] == heap[j + 1];
      SmallerByKey(freq, depth, heap[j + 1], heap[j]);
      SmallerByKey(freq, depth, heap[j], heap[j + 1]);
      if Smaller(freq, depth, heap[j + 1], heap[j]) {
        j := j + 1;
      }
    }
  }

  /** `pqdownheap`: sifts the node at `k0` down until it is smaller than both its sons. Everything below was
      in heap order, everything from `k0` on is afterwards, and the heap keeps the same nodes. */
  method PqDownHeap(freq: array<nat>, depth: array<Byte>, heap: array<nat>, heapLen: nat, k0: nat)
    requires heap != freq && 1 <= k0 <= heapLen && SubHeap(heap[..], Keys(freq[..], depth[..]), heapLen, k0 + 1)
    modifies heap
    ensures Shuffles(old(heap[..]), heap[..], 1, heapLen)
    ensures SubHeap(heap[..], Keys(freq[..], depth[..]), heapLen, k0)
  {
    ghost var before: seq<int> := heap[..];
    ghost var full, w := before, Keys(freq[..], depth[..]);  // `full` is the heap with `v` back in its hole at k
    ShuffleRefl(before, 1, heapLen);
    var k, v := k0, heap[k0];
    var j := 2 * k;
    while j <= heapLen
      invariant 1 <= k <= heapLen && j == 2 * k && v < |w| && w == Keys(freq[..], depth[..])
      invariant |full| == heap.Length && full[k] == v
      invariant forall p :: 0 <= p < heap.Length && p != k ==> full[p] == heap[p]
      invariant Sinking(full, w, heapLen, k0, k)
      invariant Shuffles(before, full, 1, heapLen)
      decreases heapLen - k
    {
      j := SmallerSon(freq, depth, heap, heapLen, k, j, full);
      assert full[j] == heap[j];
      SmallerByKey(freq, depth, v, heap[j]);
      if Smaller(freq, depth, v, heap[j]) {
        break;
      }
      SinkStep(full, w, heapLen, k0, k, j);
      SwapShuffles(before, full, k, j, 1, heapLen);
      full := Swapped(full, k, j);
      heap[k] := heap[j];
      k := j;
      j := 2 * j;
    }
    SinkEnds(full, w, heapLen, k0, k);
    heap[k] := v;
    assert heap[..] == full;
  }

  // ----- the forest -----

  /** The parent of the node at place `i` of the tail. */
  function TailParent(elems: nat, k: nat, i: nat): int {
    elems + k - 1 - i / 2
  }

  /** Some trees: their roots, and in the tail the children of the `k` inner nodes made so far. */
  ghost predicate Forest(roots: seq<int>, tail: seq<int>, lens: seq<nat>, elems: nat, k: nat) {
    && |tail| == 2 * k && elems + k <= |lens| && Distinct(roots + tail)
    && (forall v :: v in roots ==> 0 <= v < elems + k)
    && (forall i {:trigger tail[i]} :: 0 <= i < |tail| ==>
          0 <= tail[i] < TailParent(elems, k, i) && lens[tail[i]] == TailParent(elems, k, i))
    && (forall y :: elems <= y < elems + k ==> y in roots || y in tail)
    && (forall n :: 0 <= n < elems && n !in roots && n !in tail ==> lens[n] == 0)
  }

  /** `rest` is `roots` without `n` and `m`. */
  ghost predicate Without(roots: seq<int>, n: int, m: int, rest: seq<int>) {
    && Distinct(rest) && n != m && n in roots && m in roots && n !in rest && m !in rest
    && forall v :: v in roots <==> v == n || v == m || v in rest
  }

  lemma DistinctApart(a: seq<int>, b: seq<int>)
    requires Distinct(a + b)
    ensures Distinct(a) && Distinct(b) && forall v :: v in a ==> v !in b
  {
    var c := a + b;
    forall i, j | 0 <= i < j < |a| ensures a[i] != a[j] { assert c[i] != c[j]; }
    forall i, j | 0 <= i < j < |b| ensures b[i] != b[j] { assert c[|a| + i] != c[|a| + j]; }
    forall i, j | 0 <= i < |a| && 0 <= j < |b| ensures a[i] != b[j] { assert c[i] != c[|a| + j]; }
  }

  lemma DistinctJoin(a: seq<int>, b: seq<int>)
    requires Distinct(a) && Distinct(b) && forall v :: v in a ==> v !in b
    ensures Distinct(a + b)
  {
    var c := a + b;
    forall i, j | 0 <= i < j < |c|
      ensures c[i] != c[j]
    {
      if i < |a| <= j {
        assert a[i] in a && b[j - |a|] in b;
      }
    }
  }

  /** Joining two roots under a new node keeps a forest. */
  lemma MergeKeepsForest(roots: seq<int>, tail: seq<int>, lens: seq<nat>, elems: nat, k: nat, n: nat, m: nat,
                         rest: seq<int>)
    requires Forest(roots, tail, lens, elems, k) && Without(roots, n, m, rest) && elems + k < |lens|
    ensures Forest([elems + k] + rest, [m, n] + tail, lens[n := elems + k][m := elems + k], elems, k + 1)
  {
    var node, lens', tail' := elems + k, lens[n := elems + k][m := elems + k], [m, n] + tail;
    var roots' := [node] + rest;
    DistinctApart(roots, tail);
    forall v | v in tail
      ensures v < node && v != n && v != m
    {
      var i :| 0 <= i < |tail| && tail[i] == v;
    }
    assert Distinct(roots') && Distinct(tail') by {
      assert Distinct([m, n]);
      DistinctJoin([m, n], tail);
      DistinctJoin([node], rest);
    }
    forall v | v in roots'
      ensures v !in tail'
    {
      if v in rest { assert v in roots; }
    }
    DistinctJoin(roots', tail');
    forall i | 0 <= i < |tail'|
      ensures 0 <= tail'[i] < TailParent(elems, k + 1, i) && lens'[tail'[i]] == TailParent(elems, k + 1, i)
    {
      if i >= 2 {
        assert tail'[i] == tail[i - 2];
        assert TailParent(elems, k + 1, i) == TailParent(elems, k, i - 2);
        assert tail[i - 2] in tail;
      }
    }
    forall y | elems <= y < elems + k + 1
      ensures y in roots' || y in tail'
    {
      if y == node { assert roots'[0] == y; }
      else if y in rest { assert y in roots'; }
      else if y in tail { assert y in tail'; }
      else { assert tail'[0] == m && tail'[1] == n; }
    }
    forall v | 0 <= v < elems && v !in roots' && v !in tail'
      ensures lens'[v] == 0
    {
      assert tail'[0] == m && tail'[1] == n;
      assert v !in rest && v !in tail;
    }
  }

  /** A single root is the newest node, and the forest is the tree `gen_bitlen` expects. */
  lemma ForestIsTree(roots: seq<int>, tail: seq<int>, lens: seq<nat>, elems: nat, k: nat)
    requires Forest(roots, tail, lens, elems, k) && |roots| == 1 && k > 0
    ensures Linked(roots + tail, lens, elems, k)
  {
    var order := roots + tail;
    DistinctApart(roots, tail);
    assert elems + k - 1 !in tail;
    assert order[0] == elems + k - 1;
    forall i | 1 <= i < |order|
      ensures 0 <= order[i] < Parent(elems, k, i) && lens[order[i]] == Parent(elems, k, i)
    {
      assert order[i] == tail[i - 1];
      assert Parent(elems, k, i) == TailParent(elems, k, i - 1);
    }
  }

  // ----- one merge -----

  ghost predicate SameMembers(a: seq<int>, b: seq<int>) {
    forall v :: v in a <==> v in b
  }

  function Roots(heap: seq<int>, heapLen: nat): (r: seq<int>)
    requires heapLen < |heap|
    ensures |r| == heapLen
  {
    heap[1..heapLen + 1]
  }

  /** Sifting rearranges the roots. */
  lemma RootsShuffle(h: seq<int>, h': seq<int>, heapLen: nat)
    requires Shuffles(h, h', 1, heapLen) && heapLen < |h| && Distinct(Roots(h, heapLen))
    ensures Distinct(Roots(h', heapLen)) && SameMembers(Roots(h, heapLen), Roots(h', heapLen))
  {
    var a, b := Roots(h, heapLen), Roots(h', heapLen);
    forall v | v in a
      ensures v in b
    {
      var i :| 0 <= i < |a| && a[i] == v;
      var j := ShuffleTo(h, h', 1, heapLen, i + 1);
      assert b[j - 1] == v;
    }
    forall v | v in b
      ensures v in a
    {
      var i :| 0 <= i < |b| && b[i] == v;
      var j := ShuffleFrom(h, h', 1, heapLen, i + 1);
      assert a[j - 1] == v;
    }
    var f: seq<int> :| Via(h, h', f, 1, heapLen);
    forall x, y | 0 <= x < y < |b|
      ensures b[x] != b[y]
    {
      assert b[x] == h[f[x + 1]] == a[f[x + 1] - 1] && b[y] == h[f[y + 1]] == a[f[y + 1] - 1];
    }
  }

  lemma ForestReroot(roots: seq<int>, roots': seq<int>, tail: seq<int>, lens: seq<nat>, elems: nat, k: nat)
    requires Forest(roots, tail, lens, elems, k) && Distinct(roots') && SameMembers(roots, roots')
    ensures Forest(roots', tail, lens, elems, k)
  {
    DistinctApart(roots, tail);
    DistinctJoin(roots', tail);
  }

  /** Taking the first root out and moving the last into its place. */
  lemma PopMembers(roots: seq<int>, popped: seq<int>)
    requires |roots| >= 2 && Distinct(roots) && popped == [roots[|roots| - 1]] + roots[1..|roots| - 1]
    ensures Distinct(popped) && roots[0] !in popped
    ensures forall v :: v in roots <==> v == roots[0] || v in popped
  {
    forall v | v in roots
      ensures v == roots[0] || v in popped
    {
      var i :| 0 <= i < |roots| && roots[i] == v;
      if i == |roots| - 1 {
        assert popped[0] == v;
      } else if i > 0 {
        assert popped[i] == v;
      }
    }
  }

  /** `n` is a least root. */
  ghost predicate Least(roots: seq<int>, w: seq<int>, n: int) {
    n in roots && forall v :: v in roots ==> 0 <= v < |w| && 0 <= n < |w| && w[n] <= w[v]
  }

  lemma FirstIsLeast(heap: seq<int>, w: seq<int>, heapLen: nat)
    requires MinHeap(heap, w, heapLen) && 1 <= heapLen
    ensures Least(Roots(heap, heapLen), w, heap[1])
  {
    var roots := Roots(heap, heapLen);
    assert roots[0] == heap[1];
    forall v | v in roots
      ensures 0 <= v < |w| && w[heap[1]] <= w[v]
    {
      var i :| 0 <= i < |roots| && roots[i] == v;
      FirstIsLightest(heap, w, heapLen, i + 1);
    }
  }

  /** Takes a least node off the heap. */
  method PopLeast(freq: array<nat>, depth: array<Byte>, heap: array<nat>, heapLen: nat) returns (n: nat)
    requires heap != freq && 2 <= heapLen < heap.Length && MinHeap(heap[..], Keys(freq[..], depth[..]), heapLen)
    requires Distinct(Roots(heap[..], heapLen))
    modifies heap
    ensures Least(Roots(old(heap[..]), heapLen), Keys(freq[..], depth[..]), n)
    ensures MinHeap(heap[..], Keys(freq[..], depth[..]), heapLen - 1)
    ensures var roots, left := Roots(old(heap[..]), heapLen), Roots(heap[..], heapLen - 1);
            Distinct(left) && n !in left && forall v :: v in roots <==> v == n || v in left
    ensures forall p :: heapLen < p < heap.Length ==> heap[p] == old(heap[p])
  {
    ghost var h: seq<int> := heap[..];
    ghost var w := Keys(freq[..], depth[..]);
    FirstIsLeast(h, w, heapLen);
    PopSinks(h, w, heapLen);
    n := heap[1];
    heap[1] := heap[heapLen];
    ghost var h1: seq<int> := heap[..];
    assert h1 == h[1 := h[heapLen]];
    assert Roots(h1, heapLen - 1) == [Roots(h, heapLen)[heapLen - 1]] + Roots(h, heapLen)[1..heapLen - 1];
    PopMembers(Roots(h, heapLen), Roots(h1, heapLen - 1));
    PqDownHeap(freq, depth, heap, heapLen - 1, 1);
    RootsShuffle(h1, heap[..], heapLen - 1);
  }

  lemma NodesShuffle(h: seq<int>, h': seq<int>, heapLen: nat, bound: nat)
    requires Shuffles(h, h', 1, heapLen) && Nodes(h, heapLen, bound)
    ensures Nodes(h', heapLen, bound)
  {
    forall p | 1 <= p <= heapLen
      ensures 0 <= h'[p] < bound
    {
      var j := ShuffleFrom(h, h', 1, heapLen, p);
    }
  }

  /** The heap array while the tree grows: roots at the front, finished nodes at the back. */
  ghost predicate Growing(heap: seq<int>, lens: seq<nat>, elems: nat, used: set<int>, k: nat, heapLen: nat,
                          leaves: nat) {
    && |heap| == HEAP_SIZE && 1 <= heapLen && heapLen + k == leaves <= elems <= 286
    && Forest(Roots(heap, heapLen), heap[HEAP_SIZE - 2 * k..], lens, elems, k)
    && (forall v :: 0 <= v < elems ==> (v in used <==> v in Roots(heap, heapLen) || v in heap[HEAP_SIZE - 2 * k..]))
  }

  lemma GrowingNodes(heap: seq<int>, lens: seq<nat>, elems: nat, used: set<int>, k: nat, heapLen: nat, leaves: nat)
    requires Growing(heap, lens, elems, used, k, heapLen, leaves)
    ensures Nodes(heap, heapLen, elems + k) && Distinct(Roots(heap, heapLen))
  {
    var roots := Roots(heap, heapLen);
    DistinctApart(roots, heap[HEAP_SIZE - 2 * k..]);
    forall p | 1 <= p <= heapLen
      ensures 0 <= heap[p] < elems + k
    {
      assert roots[p - 1] == heap[p];
      assert heap[p] in roots;
    }
  }

  /** What joining `n` and `m` does to the whole picture. */
  lemma GrowingStep(heap: seq<int>, lens: seq<nat>, elems: nat, used: set<int>, k: nat, heapLen: nat, leaves: nat,
                    n: nat, m: nat, rest: seq<int>, heap': seq<int>)
    requires Growing(heap, lens, elems, used, k, heapLen, leaves) && heapLen >= 2 && elems + k < |lens|
    requires Without(Roots(heap, heapLen), n, m, rest) && |heap'| == HEAP_SIZE
    requires heapLen - 1 < HEAP_SIZE - 2 * (k + 1)
    requires Distinct(Roots(heap', heapLen - 1)) && SameMembers(Roots(heap', heapLen - 1), [elems + k] + rest)
    requires heap'[HEAP_SIZE - 2 * (k + 1)..] == [m, n] + heap[HEAP_SIZE - 2 * k..]
    ensures Growing(heap', lens[n := elems + k][m := elems + k], elems, used, k + 1, heapLen - 1, leaves)
  {
    var tail := heap[HEAP_SIZE - 2 * k..];
    var roots' := Roots(heap', heapLen - 1);
    MergeKeepsForest(Roots(heap, heapLen), tail, lens, elems, k, n, m, rest);
    ForestReroot([elems + k] + rest, roots', [m, n] + tail, lens[n := elems + k][m := elems + k], elems, k + 1);
    forall v | 0 <= v < elems
      ensures v in used <==> v in roots' || v in [m, n] + tail
    {
      assert v in roots' <==> v in [elems + k] + rest;
      assert v in [elems + k] + rest <==> v in rest;
      assert v in [m, n] + tail <==> v == m || v == n || v in tail;
    }
  }

  lemma TailStays(h: seq<int>, h': seq<int>, heapLen: nat, from: nat)
    requires Shuffles(h, h', 1, heapLen) && heapLen < from <= |h|
    ensures h'[from..] == h[from..]
  {
    forall k | from <= k < |h|
      ensures h'[k] == h[k]
    {
    }
  }

  /** Another first entry leaves the heap in order below it. */
  lemma FirstReplaced(h: seq<int>, h': seq<int>, w: seq<int>, n: nat)
    requires MinHeap(h, w, n) && 1 <= n && |h| == |h'| && 0 <= h'[1] < |w| && forall p :: 2 <= p <= n ==> h'[p] == h[p]
    ensures SubHeap(h', w, n, 2)
  {
    forall j | 2 <= j <= n && 2 <= j / 2
      ensures Edge(h', w, j)
    {
      assert Edge(h, w, j);
    }
  }

  /** The store into the back of the heap and the new node at its front. */
  method FileChildren(freq: array<nat>, depth: array<Byte>, heap: array<nat>, heapLen: nat, heapMax: nat, node: nat,
                      n: nat, m: nat)
    requires heap != freq && heap.Length == HEAP_SIZE
    requires 1 <= heapLen && heapLen < heapMax - 2 && heapMax <= HEAP_SIZE && m == heap[1]
    requires node < freq.Length && node < depth.Length && Distinct(Roots(heap[..], heapLen))
    requires node !in Roots(heap[..], heapLen)
    requires Nodes(heap[..], heapLen, node) && MinHeap(heap[..], Keys(freq[..], depth[..]), heapLen)
    modifies heap
    ensures MinHeap(heap[..], Keys(freq[..], depth[..]), heapLen)
    ensures heap[heapMax - 2..] == [m, n] + old(heap[heapMax..])
    ensures var rest := Roots(old(heap[..]), heapLen)[1..];
            Distinct(Roots(heap[..], heapLen)) && SameMembers(Roots(heap[..], heapLen), [node] + rest)
    ensures Nodes(heap[..], heapLen, node + 1)
  {
    ghost var h: seq<int> := heap[..];
    heap[heapMax - 1] := n;
    heap[heapMax - 2] := m;
    heap[1] := node;
    ghost var h1: seq<int> := heap[..];
    ghost var rest := Roots(h, heapLen)[1..];
    assert Roots(h1, heapLen) == [node] + rest;
    assert Distinct(rest);
    DistinctJoin([node], rest);
    assert h1[heapMax - 2..] == [m, n] + h[heapMax..];
    FirstReplaced(h, h1, Keys(freq[..], depth[..]), heapLen);
    PqDownHeap(freq, depth, heap, heapLen, 1);
    RootsShuffle(h1, heap[..], heapLen);
    NodesShuffle(h1, heap[..], heapLen, node + 1);
    TailStays(h1, heap[..], heapLen, heapMax - 2);
  }

  /** `n` is a least root and `m` a least one of the others. */
  ghost predicate LeastTwo(roots: seq<int>, w: seq<int>, n: int, m: int, rest: seq<int>) {
    Without(roots, n, m, rest) && Least(roots, w, n) && Least([m] + rest, w, m)
  }

  /** The two least nodes: `n` off the heap, `m` still at its front. */
  method TakeTwo(elems: nat, ghost used: set<int>, ghost k: nat, ghost leaves: nat, freq: array<nat>,
                 ghost lens: seq<nat>,
                 heap: array<nat>, depth: array<Byte>, heapLen: nat)
    returns (n: nat, m: nat)
    requires heap != freq && 2 <= heapLen && Growing(heap[..], lens, elems, used, k, heapLen, leaves)
    requires MinHeap(heap[..], Keys(freq[..], depth[..]), heapLen)
    modifies heap
    ensures m == heap[1] && n < elems + k && m < elems + k
    ensures Nodes(heap[..], heapLen - 1, elems + k) && Distinct(Roots(heap[..], heapLen - 1))
    ensures elems + k !in Roots(heap[..], heapLen - 1) && MinHeap(heap[..], Keys(freq[..], depth[..]), heapLen - 1)
    ensures LeastTwo(Roots(old(heap[..]), heapLen), Keys(freq[..], depth[..]), n, m, Roots(heap[..], heapLen - 1)[1..])
    ensures heap[HEAP_SIZE - 2 * k..] == old(heap[HEAP_SIZE - 2 * k..])
  {
    ghost var roots := Roots(heap[..], heapLen);
    GrowingNodes(heap[..], lens, elems, used, k, heapLen, leaves);
    n := PopLeast(freq, depth, heap, heapLen);
    m := heap[1];
    ghost var left := Roots(heap[..], heapLen - 1);
    assert m == left[0];
    LeftWithout(roots, n, left);
    FirstIsLeast(heap[..], Keys(freq[..], depth[..]), heapLen - 1);
    assert [m] + left[1..] == left;
    NodesFromMembers(heap[..], heapLen - 1, roots, elems + k);
  }

  /** A new node's key does not disturb the others. */
  lemma HeapFrame(h: seq<int>, w: seq<int>, w': seq<int>, n: nat, node: nat)
    requires MinHeap(h, w, n) && |w| == |w'| && Nodes(h, n, node)
    requires forall v :: 0 <= v < node && v < |w| ==> w[v] == w'[v]
    ensures MinHeap(h, w', n)
  {
    forall j | 2 <= j <= n
      ensures Edge(h, w', j)
    {
      assert Edge(h, w, j);
    }
  }

  /** The depth of a node over `a` and `b`, as a byte. */
  function Deeper(a: Byte, b: Byte): (r: Byte) {
    (1 + Taller(a, b)) % 256
  }

  /** Puts the joined node's frequency, depth and children on record. */
  method Record(freq: array<nat>, dl: array<nat>, depth: array<Byte>, node: nat, n: nat, m: nat)
    requires freq != dl && n < node < freq.Length && m < node < dl.Length && node < depth.Length
    modifies freq, dl, depth
    ensures freq[..] == old(freq[..])[node := (old(freq[n]) + old(freq[m])) % 65536]
    ensures dl[..] == old(dl[..])[n := node][m := node]
    ensures depth[..] == old(depth[..])[node := Deeper(old(depth[n]), old(depth[m]))]
  {
    freq[node] := (freq[n] + freq[m]) % 65536;
    var deeper: nat := if depth[n] > depth[m] then depth[n] else depth[m];
    depth[node] := (deeper + 1) % 256;
    dl[n] := node;
    dl[m] := node;
  }

  /** Files the two least nodes under a new one. */
  method FileUnder(freq: array<nat>, dl: array<nat>, heap: array<nat>, depth: array<Byte>, heapLen: nat, heapMax: nat,
                   node: nat, n: nat, m: nat)
    requires heap !in {freq, dl} && freq != dl && heap.Length == HEAP_SIZE
    requires 1 <= heapLen && heapLen < heapMax - 2 && heapMax <= HEAP_SIZE && m == heap[1] && n < node && m < node
    requires node < freq.Length && node < dl.Length && node < depth.Length
    requires Distinct(Roots(heap[..], heapLen)) && node !in Roots(heap[..], heapLen)
    requires Nodes(heap[..], heapLen, node) && MinHeap(heap[..], Keys(freq[..], depth[..]), heapLen)
    modifies freq, dl, heap, depth
    ensures MinHeap(heap[..], Keys(freq[..], depth[..]), heapLen) && Distinct(Roots(heap[..], heapLen))
    ensures SameMembers(Roots(heap[..], heapLen), [node] + Roots(old(heap[..]), heapLen)[1..])
    ensures heap[heapMax - 2..] == [m, n] + old(heap[heapMax..])
    ensures freq[..] == old(freq[..])[node := (old(freq[n]) + old(freq[m])) % 65536]
    ensures depth[..] == old(depth[..])[node := Deeper(old(depth[n]), old(depth[m]))]
    ensures dl[..] == old(dl[..])[n := node][m := node]
  {
    ghost var w := Keys(freq[..], depth[..]);
    Record(freq, dl, depth, node, n, m);
    HeapFrame(heap[..], w, Keys(freq[..], depth[..]), heapLen, node);
    FileChildren(freq, depth, heap, heapLen, heapMax, node, n, m);
  }

  /** Combines the two least nodes under a new one. */
  method MergeOnce(elems: nat, ghost used: set<int>, ghost k: nat, ghost leaves: nat, freq: array<nat>, dl: array<nat>,
                   heap: array<nat>, depth: array<Byte>, heapLen: nat, heapMax: nat, node: nat)
    returns (n: nat, m: nat, ghost rest: seq<int>)
    requires heap !in {freq, dl} && freq != dl && node == elems + k && heapMax == HEAP_SIZE - 2 * k
    requires 2 * elems <= freq.Length && 2 * elems <= dl.Length && depth.Length == HEAP_SIZE
    requires 2 <= heapLen && Growing(heap[..], dl[..], elems, used, k, heapLen, leaves)
    requires MinHeap(heap[..], Keys(freq[..], depth[..]), heapLen)
    modifies freq, dl, heap, depth
    ensures Growing(heap[..], dl[..], elems, used, k + 1, heapLen - 1, leaves)
    ensures MinHeap(heap[..], Keys(freq[..], depth[..]), heapLen - 1)
    ensures LeastTwo(Roots(old(heap[..]), heapLen), Keys(old(freq[..]), old(depth[..])), n, m, rest)
    ensures SameMembers(Roots(heap[..], heapLen - 1), [node] + rest)
    ensures heap[heapMax - 2..] == [m, n] + old(heap[heapMax..]) && n < node && m < node
    ensures freq[..] == old(freq[..])[node := (old(freq[n]) + old(freq[m])) % 65536]
    ensures depth[..] == old(depth[..])[node := Deeper(old(depth[n]), old(depth[m]))]
  {
    ghost var h: seq<int> := heap[..];
    ghost var lens: seq<nat> := dl[..];
    n, m := TakeTwo(elems, used, k, leaves, freq, lens, heap, depth, heapLen);
    rest := Roots(heap[..], heapLen - 1)[1..];
    FileUnder(freq, dl, heap, depth, heapLen - 1, heapMax, node, n, m);
    GrowingStep(h, lens, elems, used, k, heapLen, leaves, n, m, rest, heap[..]);
  }

  lemma LeftWithout(roots: seq<int>, n: int, left: seq<int>)
    requires |left| > 0 && Distinct(left) && n in roots && n !in left && forall v :: v in roots <==> v == n || v in left
    ensures Without(roots, n, left[0], left[1..])
  {
    assert left == [left[0]] + left[1..];
    DistinctApart([left[0]], left[1..]);
  }

  lemma NodesFromMembers(h: seq<int>, heapLen: nat, roots: seq<int>, bound: nat)
    requires heapLen < |h| && (forall v :: v in roots ==> 0 <= v < bound)
    requires forall v :: v in Roots(h, heapLen) ==> v in roots
    ensures Nodes(h, heapLen, bound)
  {
    forall p | 1 <= p <= heapLen
      ensures 0 <= h[p] < bound
    {
      assert Roots(h, heapLen)[p - 1] == h[p];
      assert h[p] in Roots(h, heapLen);
    }
  }

  // ----- the leaves -----

  /** The heap holds exactly the symbols of non-zero frequency. */
  ghost predicate Collected(heap: seq<int>, freq: seq<nat>, lens: seq<nat>, m: nat, maxCode: int, heapLen: nat) {
    && |heap| == HEAP_SIZE && heapLen <= m && heapLen < |heap| && m <= |freq| && m <= |lens|
    && -1 <= maxCode < m && (heapLen > 0 <==> maxCode >= 0) && (heapLen > 0 ==> maxCode in Roots(heap, heapLen))
    && Distinct(Roots(heap, heapLen))
    && (forall v :: v in Roots(heap, heapLen) <==> 0 <= v < m && freq[v] != 0)
    && (forall v :: v in Roots(heap, heapLen) ==> v <= maxCode)
    && (forall n :: 0 <= n < m && freq[n] == 0 ==> lens[n] == 0)
  }

  lemma RootsPush(heap: seq<int>, heapLen: nat, v: int)
    requires heapLen + 1 < |heap|
    ensures Roots(heap[heapLen + 1 := v], heapLen + 1) == Roots(heap, heapLen) + [v]
  {
  }

  /** Used symbols are leaves: nothing below them. */
  ghost predicate Level(freq: seq<nat>, depth: seq<Byte>, m: nat) {
    m <= |freq| && m <= |depth| && forall v :: 0 <= v < m && freq[v] != 0 ==> depth[v] == 0
  }

  /** The first loop: used symbols go on the heap, unused ones get length 0. */
  method Collect(elems: nat, freq: array<nat>, dl: array<nat>, heap: array<nat>, depth: array<Byte>)
    returns (heapLen: nat, maxCode: int)
    requires heap !in {freq, dl} && freq != dl
    requires elems <= 286 && elems <= freq.Length && elems <= dl.Length && heap.Length == depth.Length == HEAP_SIZE
    modifies dl, heap, depth
    ensures Collected(heap[..], freq[..], dl[..], elems, maxCode, heapLen) && Level(freq[..], depth[..], elems)
  {
    heapLen, maxCode := 0, -1;
    for n := 0 to elems
      invariant Collected(heap[..], freq[..], dl[..], n, maxCode, heapLen) && Level(freq[..], depth[..], n)
    {
      ghost var h: seq<int> := heap[..];
      if freq[n] != 0 {
        maxCode := n;
        RootsPush(h, heapLen, n);
        heapLen := heapLen + 1;
        heap[heapLen] := n;
        assert heap[..] == h[heapLen := n];
        assert n !in Roots(h, heapLen - 1);
        DistinctJoin(Roots(h, heapLen - 1), [n]);
        depth[n] := 0;
      } else {
        dl[n] := 0;
      }
    }
  }

  /** The symbols made up so that there are at least two, and what they were charged in advance. */
  ghost predicate Forced(d: Desc, freq0: seq<nat>, freq: seq<nat>, forced: seq<int>, opt: nat, stat: nat, opt0: nat,
                         stat0: nat) {
    && d.Valid() && d.elems <= |freq| && |forced| <= 2 && MadeUp(freq0, freq, forced)
    && opt == Add32(opt0, -|forced|)
    && stat == if d.staticLens.Some? then Add32(stat0, -StaticOf(d, forced)) else stat0
  }

  ghost function StaticOf(d: Desc, forced: seq<int>): int
    requires d.staticLens.Some? && forall i :: 0 <= i < |forced| ==> 0 <= forced[i] < |d.staticLens.value|
  {
    if forced == [] then 0
    else StaticOf(d, forced[..|forced| - 1]) + d.staticLens.value[forced[|forced| - 1]]
  }

  lemma ForcedMore(d: Desc, freq0: seq<nat>, freq: seq<nat>, forced: seq<int>, opt: nat, stat: nat, opt0: nat,
                   stat0: nat, new_: nat)
    requires Forced(d, freq0, freq, forced, opt, stat, opt0, stat0) && new_ < 3 && freq[new_] == 0 && |forced| < 2
    ensures Forced(d, freq0, freq[new_ := 1], forced + [new_], Add32(opt, -1),
              if d.staticLens.Some? then Add32(stat, -d.Static(new_)) else stat, opt0, stat0)
  {
    assert (forced + [new_])[..|forced|] == forced;
    Add32Twice(opt0, -|forced|, -1);
    if d.staticLens.Some? {
      Add32Twice(stat0, -StaticOf(d, forced), -d.Static(new_));
    }
  }

  /** The next symbol to make up: one past the largest used one while that is small, else 0. */
  function Fresh(maxCode: int): (r: int) {
    if maxCode < 2 then maxCode + 1 else 0
  }

  lemma CollectedMore(heap: seq<int>, freq: seq<nat>, lens: seq<nat>, m: nat, maxCode: int, heapLen: nat)
    requires Collected(heap, freq, lens, m, maxCode, heapLen) && heapLen < 2 && 3 <= m
    ensures var v := Fresh(maxCode);
            0 <= v < 3 && freq[v] == 0 &&
            Collected(heap[heapLen + 1 := v], freq[v := 1], lens, m, if maxCode < 2 then v else maxCode, heapLen + 1)
  {
    var v, roots := Fresh(maxCode), Roots(heap, heapLen);
    RootsPush(heap, heapLen, v);
    if heapLen == 1 {
      assert roots == [maxCode];
    }
    DistinctJoin(roots, [v]);
    assert v in roots + [v];
  }

  /** One more made-up symbol. */
  method ForceOne(d: Desc, freq: array<nat>, ghost lens: seq<nat>, heap: array<nat>, depth: array<Byte>, heapLen0: nat,
                  maxCode0: int,
                  opt1: nat, stat1: nat, ghost freq0: seq<nat>, ghost forced0: seq<int>, ghost opt0: nat,
                  ghost stat0: nat)
    returns (heapLen: nat, maxCode: int, opt: nat, stat: nat, ghost forced: seq<int>)
    requires heap != freq && depth.Length == HEAP_SIZE && d.Valid() && heapLen0 < 2
    requires Collected(heap[..], freq[..], lens, d.elems, maxCode0, heapLen0) && |forced0| <= heapLen0
    requires Forced(d, freq0, freq[..], forced0, opt1, stat1, opt0, stat0) && Level(freq[..], depth[..], d.elems)
    modifies freq, heap, depth
    ensures heapLen == heapLen0 + 1 && Collected(heap[..], freq[..], lens, d.elems, maxCode, heapLen)
    ensures forced == forced0 + [Fresh(maxCode0)] && maxCode == (if maxCode0 < 2 then maxCode0 + 1 else maxCode0)
    ensures Level(freq[..], depth[..], d.elems)
    ensures Forced(d, freq0, freq[..], forced, opt, stat, opt0, stat0)
  {
    ghost var h: seq<int> := heap[..];
    ghost var f: seq<nat> := freq[..];
    CollectedMore(h, f, lens, d.elems, maxCode0, heapLen0);
    heapLen, maxCode := heapLen0 + 1, maxCode0;
    var v: nat;
    if maxCode < 2 {
      maxCode := maxCode + 1;
      v := maxCode;
    } else {
      v := 0;
    }
    ForcedMore(d, freq0, f, forced0, opt1, stat1, opt0, stat0, v);
    heap[heapLen] := v;
    freq[v] := 1;
    depth[v] := 0;
    assert heap[..] == h[heapLen := v] && freq[..] == f[v := 1];
    forced := forced0 + [v];
    opt := Add32(opt1, -1);
    stat := stat1;
    if d.staticLens.Some? {
      stat := Add32(stat, -d.Static(v));
    }
  }

  /** `v` is the only symbol that occurs. */
  ghost predicate OnlyOne(freq: seq<nat>, elems: nat, v: int) {
    0 <= v < elems <= |freq| && freq[v] != 0 && forall u :: 0 <= u < elems && u != v ==> freq[u] == 0
  }

  /** Which symbols are made up: 0 and 1 if none occurs, one next to or away from the only one, else none. */
  ghost predicate IsMadeUp(freq: seq<nat>, elems: nat, n: int) {
    && elems <= |freq|
    && (((forall u :: 0 <= u < elems ==> freq[u] == 0) && 0 <= n < 2) ||
        exists v :: OnlyOne(freq, elems, v) && n == Fresh(v))
  }

  ghost predicate MadeExactly(freq: seq<nat>, elems: nat, forced: seq<int>) {
    forall v :: v in forced <==> IsMadeUp(freq, elems, v)
  }

  /** The symbols made up, in order, when the heap starts with `heapLen` symbols. */
  function Made(heapLen: nat, maxCode: int): (r: seq<int>) {
    if heapLen == 0 then [0, 1] else if heapLen == 1 then [Fresh(maxCode)] else []
  }

  /** As many of them as there are on the heap so far. */
  ghost predicate MadeSoFar(forced: seq<int>, heapLen0: nat, maxCode0: int, heapLen: nat, maxCode: int) {
    && heapLen == heapLen0 + |forced| && (heapLen0 == 0 ==> maxCode0 == -1)
    && (|| (forced == [] && maxCode == maxCode0)
        || (forced == [Fresh(maxCode0)] && heapLen0 <= 1 && (heapLen0 == 0 ==> maxCode == 0))
        || (forced == [0, 1] && heapLen0 == 0))
  }

  lemma MadeMore(forced: seq<int>, heapLen0: nat, maxCode0: int, heapLen: nat, maxCode: int)
    requires MadeSoFar(forced, heapLen0, maxCode0, heapLen, maxCode) && heapLen < 2
    ensures MadeSoFar(forced + [Fresh(maxCode)], heapLen0, maxCode0, heapLen + 1,
              if maxCode < 2 then maxCode + 1 else maxCode)
  {
  }

  lemma MadeIsMadeUp(heap: seq<int>, freq: seq<nat>, lens: seq<nat>, elems: nat, maxCode: int, heapLen: nat, n: int)
    requires Collected(heap, freq, lens, elems, maxCode, heapLen)
    ensures n in Made(heapLen, maxCode) <==> IsMadeUp(freq, elems, n)
  {
    var roots := Roots(heap, heapLen);
    if heapLen == 0 {
      assert forall u :: 0 <= u < elems && freq[u] != 0 ==> u in roots;
    } else if heapLen == 1 {
      assert roots == [maxCode];
      assert OnlyOne(freq, elems, maxCode);
    } else {
      assert roots[0] in roots && roots[1] in roots && roots[0] != roots[1];
    }
  }

  /** At least two symbols on the heap, those made up already paid back. */
  method Force(d: Desc, freq: array<nat>, ghost lens: seq<nat>, heap: array<nat>, depth: array<Byte>, heapLen0: nat,
               maxCode0: int,
               opt0: nat, stat0: nat)
    returns (heapLen: nat, maxCode: int, opt: nat, stat: nat, ghost forced: seq<int>)
    requires heap != freq && depth.Length == HEAP_SIZE && d.Valid() && opt0 < TWO32 && stat0 < TWO32
    requires Collected(heap[..], freq[..], lens, d.elems, maxCode0, heapLen0) && Level(freq[..], depth[..], d.elems)
    modifies freq, heap, depth
    ensures heapLen >= 2 && (forced != [] ==> heapLen == 2) && Level(freq[..], depth[..], d.elems)
    ensures Collected(heap[..], freq[..], lens, d.elems, maxCode, heapLen) && forced == Made(heapLen0, maxCode0)
    ensures Forced(d, old(freq[..]), freq[..], forced, opt, stat, opt0, stat0)
  {
    heapLen, maxCode, opt, stat, forced := heapLen0, maxCode0, opt0, stat0, [];
    while heapLen < 2
      invariant MadeSoFar(forced, heapLen0, maxCode0, heapLen, maxCode) && Level(freq[..], depth[..], d.elems)
      invariant Collected(heap[..], freq[..], lens, d.elems, maxCode, heapLen)
      invariant Forced(d, old(freq[..]), freq[..], forced, opt, stat, opt0, stat0)
    {
      MadeMore(forced, heapLen0, maxCode0, heapLen, maxCode);
      heapLen, maxCode, opt, stat, forced :=
        ForceOne(d, freq, lens, heap, depth, heapLen, maxCode, opt, stat, old(freq[..]), forced, opt0, stat0);
    }
  }

  // ----- the tree -----

  lemma CollectedGrows(heap: seq<int>, freq: seq<nat>, lens: seq<nat>, elems: nat, maxCode: int, heapLen: nat,
                       used: set<int>)
    requires Collected(heap, freq, lens, elems, maxCode, heapLen) && 1 <= heapLen && elems <= 286
    requires forall v :: v in used <==> 0 <= v < elems && freq[v] != 0
    ensures Growing(heap, lens, elems, used, 0, heapLen, heapLen)
  {
    assert heap[HEAP_SIZE..] == [];
    assert Roots(heap, heapLen) + [] == Roots(heap, heapLen);
  }

  /** The leaves the tree is over: the used symbols and those made up, which are paid back. */
  ghost predicate ChosenAt(d: Desc, freq0: seq<nat>, freq: seq<nat>, used: set<int>, forced: seq<int>, maxCode: int,
                         opt: nat, stat: nat, opt0: nat, stat0: nat)
  {
    && Forced(d, freq0, freq, forced, opt, stat, opt0, stat0) && MadeExactly(freq0, d.elems, forced)
    && opt < TWO32 && stat < TWO32
    && maxCode in used && 0 <= maxCode < d.elems && (forall v :: v in used ==> v <= maxCode)
    && (forall v :: 0 <= v < d.elems ==> (v in used <==> freq[v] != 0))
  }

  predicate Turn(j: nat, k: nat) { j == k }

  /** The same, said of every turn that is this one, so that it is taken apart only where `Turn` is mentioned. */
  ghost predicate Chosen(d: Desc, freq0: seq<nat>, freq: seq<nat>, used: set<int>, forced: seq<int>, maxCode: int,
                         opt: nat, stat: nat, opt0: nat, stat0: nat)
  {
    forall j: nat {:trigger Turn(j, |forced|)} :: Turn(j, |forced|) ==>
        ChosenAt(d, freq0, freq, used, forced, maxCode, opt, stat, opt0, stat0)
  }

  lemma CollectedChosen(d: Desc, heap: seq<int>, freq0: seq<nat>, freq: seq<nat>, lens: seq<nat>, maxCode: int,
                        heapLen: nat, used: set<int>, forced: seq<int>, opt: nat, stat: nat, opt0: nat, stat0: nat)
    requires Collected(heap, freq, lens, d.elems, maxCode, heapLen) && 1 <= heapLen && stat0 < TWO32
    requires Forced(d, freq0, freq, forced, opt, stat, opt0, stat0) && MadeExactly(freq0, d.elems, forced)
    requires forall v :: v in used <==> 0 <= v < d.elems && freq[v] != 0
    ensures Chosen(d, freq0, freq, used, forced, maxCode, opt, stat, opt0, stat0)
  {
  }

  lemma GrowingShuffle(heap: seq<int>, heap': seq<int>, lens: seq<nat>, elems: nat, used: set<int>, k: nat,
                       heapLen: nat, leaves: nat)
    requires Growing(heap, lens, elems, used, k, heapLen, leaves) && Shuffles(heap, heap', 1, heapLen)
    ensures Growing(heap', lens, elems, used, k, heapLen, leaves)
  {
    DistinctApart(Roots(heap, heapLen), heap[HEAP_SIZE - 2 * k..]);
    RootsShuffle(heap, heap', heapLen);
    assert heap'[HEAP_SIZE - 2 * k..] == heap[HEAP_SIZE - 2 * k..];
    ForestReroot(Roots(heap, heapLen), Roots(heap', heapLen), heap[HEAP_SIZE - 2 * k..], lens, elems, k);
  }

  /** Establishes the heap, smallest sub-heaps first. */
  method Heapify(elems: nat, ghost used: set<int>, freq: array<nat>, ghost lens: seq<nat>, heap: array<nat>,
                 depth: array<Byte>, heapLen: nat)
    requires heap != freq && elems <= freq.Length && elems <= depth.Length
    requires Growing(heap[..], lens, elems, used, 0, heapLen, heapLen)
    modifies heap
    ensures Growing(heap[..], lens, elems, used, 0, heapLen, heapLen)
    ensures MinHeap(heap[..], Keys(freq[..], depth[..]), heapLen)
    ensures SameMembers(Roots(heap[..], heapLen), Roots(old(heap[..]), heapLen))
  {
    GrowingNodes(heap[..], lens, elems, used, 0, heapLen, heapLen);
    var n := heapLen / 2;
    while n >= 1
      invariant 0 <= n <= heapLen / 2
      invariant Growing(heap[..], lens, elems, used, 0, heapLen, heapLen)
      invariant SubHeap(heap[..], Keys(freq[..], depth[..]), heapLen, n + 1)
      invariant SameMembers(Roots(heap[..], heapLen), Roots(old(heap[..]), heapLen))
    {
      ghost var h: seq<int> := heap[..];
      GrowingNodes(h, lens, elems, used, 0, heapLen, heapLen);
      PqDownHeap(freq, depth, heap, heapLen, n);
      RootsShuffle(h, heap[..], heapLen);
      GrowingShuffle(h, heap[..], lens, elems, used, 0, heapLen, heapLen);
      n := n - 1;
    }
  }

  // ----- frequencies along the tail -----

  /** What the roots below `c` count together. */
  ghost function LiveSum(roots: seq<int>, freq: seq<nat>, c: nat): (r: nat)
    requires c <= |freq|
  {
    if c == 0 then 0 else LiveSum(roots, freq, c - 1) + if c - 1 in roots then freq[c - 1] else 0
  }

  lemma {:induction false} LiveAll(roots: seq<int>, freq: seq<nat>, m: nat)
    requires m <= |freq| && forall v :: 0 <= v < m && freq[v] != 0 ==> v in roots
    ensures LiveSum(roots, freq, m) == FreqSum(freq, m)
  {
    if m > 0 {
      LiveAll(roots, freq, m - 1);
    }
  }

  /** A single root, the newest node, counts for all. */
  lemma LiveOne(roots: seq<int>, freq: seq<nat>, c: nat)
    requires 0 < c <= |freq| && roots == [c - 1]
    ensures LiveSum(roots, freq, c) == freq[c - 1]
  {
    LiveNone(roots, freq, c - 1);
    assert c - 1 in roots;
  }

  lemma {:induction false} LiveNone(roots: seq<int>, freq: seq<nat>, c: nat)
    requires c <= |freq| && forall v :: 0 <= v < c ==> v !in roots
    ensures LiveSum(roots, freq, c) == 0
  {
    if c > 0 {
      LiveNone(roots, freq, c - 1);
    }
  }

  /** Taking two roots away takes their frequencies away. */
  lemma {:induction false} LiveWithout(roots: seq<int>, roots': seq<int>, freq: seq<nat>, freq': seq<nat>, n: nat,
                                       m: nat, c: nat)
    requires c <= |freq| == |freq'| && (forall v :: 0 <= v < c ==> freq[v] == freq'[v]) && n != m && n < |freq|
    requires m < |freq|
    requires forall v :: 0 <= v < c ==> (v in roots <==> v == n || v == m || v in roots')
    requires n !in roots' && m !in roots'
    ensures LiveSum(roots, freq, c) == LiveSum(roots', freq', c) + (if n < c then freq[n] else 0) + if m < c
            then freq[m] else 0
    decreases c
  {
    if c > 0 {
      LiveWithout(roots, roots', freq, freq', n, m, c - 1);
    }
  }

  /** The children of inner node `elems + k - j` stand side by side and weigh together what it weighs. */
  ghost predicate Adds(tail: seq<int>, w: seq<int>, elems: nat, k: nat, j: nat) {
    && 0 < j <= k && |tail| == 2 * k && elems + k <= |w|
    && Joins(w, elems + k - j, tail[2 * j - 2], tail[2 * j - 1])
  }

  ghost predicate NotLighter(w: seq<int>, v: int, u: int) {
    0 <= v < |w| && 0 <= u < |w| && w[v] >= w[u]
  }

  /** The heavier of the last two nodes joined. */
  ghost function LastJoined(tail: seq<int>, w: seq<int>): (r: nat) {
    if |tail| > 0 && 0 <= tail[0] < |w| then NatFreq(w[tail[0]]) else 0
  }

  /** Roots are heavy enough for their height. */
  ghost predicate HeavyRoots(roots: seq<int>, w: seq<int>, mx: nat) {
    forall v :: v in roots ==> NodeOk(w, v, mx)
  }

  /** Leaves have no height. */
  ghost predicate FlatLeaves(roots: seq<int>, tail: seq<int>, w: seq<int>, elems: nat) {
    forall v :: 0 <= v < elems && v < |w| && (v in roots || v in tail) ==> Height(w[v]) == 0
  }

  /** The tail is sorted by falling weight, no root weighs less, and every inner node weighs what its children weigh
      together. */
  ghost predicate Ranked(roots: seq<int>, tail: seq<int>, w: seq<int>, elems: nat, k: nat) {
    && |tail| == 2 * k && elems + k <= |w|
    && (forall v :: v in roots ==> 0 <= v < elems + k) && (forall i :: 0 <= i < |tail| ==> 0 <= tail[i] < elems + k)
    && (forall i, j :: 0 <= i < j < |tail| ==> NotLighter(w, tail[i], tail[j]))
    && (forall v, i :: v in roots && 0 <= i < |tail| ==> NotLighter(w, v, tail[i]))
    && (forall j :: 0 < j <= k ==> Adds(tail, w, elems, k, j))
    && HeavyRoots(roots, w, LastJoined(tail, w)) && FlatLeaves(roots, tail, w, elems)
  }

  /** Joining two roots keeps the sum of the roots, so nothing is lost to 16 bits while that sum fits. */
  lemma JoinedSum(roots: seq<int>, roots': seq<int>, rest: seq<int>, freq: seq<nat>, freq': seq<nat>, node: nat, n: nat,
                  m: nat)
    requires Without(roots, n, m, rest) && n < node < |freq| && m < node && LiveSum(roots, freq, node) < 65536
    requires SameMembers(roots', [node] + rest) && freq' == freq[node := (freq[n] + freq[m]) % 65536]
    ensures freq'[node] == freq[n] + freq[m] && LiveSum(roots', freq', node + 1) == LiveSum(roots, freq, node)
  {
    forall v | 0 <= v < node
      ensures v in roots <==> v == n || v == m || v in roots'
    {
      assert v in roots' <==> v in [node] + rest;
      assert v in [node] + rest <==> v in rest;
    }
    assert n !in [node] + rest && m !in [node] + rest;
    LiveWithout(roots, roots', freq, freq', n, m, node);
    assert node in [node] + rest;
  }

  lemma AddsLater(tail: seq<int>, tail': seq<int>, w: seq<int>, w': seq<int>, elems: nat, k: nat, n: nat, m: nat,
                  j: nat)
    requires tail' == [m, n] + tail && |tail| == 2 * k && elems + k < |w| && Joins(w', elems + k, m, n)
    requires w' == w[elems + k := w'[elems + k]] && (forall i :: 0 <= i < |tail| ==> 0 <= tail[i] < elems + k)
    requires 0 < j <= k + 1 && (j > 1 ==> Adds(tail, w, elems, k, j - 1))
    ensures Adds(tail', w', elems, k + 1, j)
  {
    if j > 1 {
      assert tail'[2 * j - 2] == tail[2 * (j - 1) - 2] && tail'[2 * j - 1] == tail[2 * (j - 1) - 1];
    }
  }

  /** A node that was no lighter than the last two joined still is, once `m` was joined and is no heavier. */
  lemma HeavyStays(w: seq<int>, w': seq<int>, v: int, mx: nat, m: nat)
    requires NodeOk(w, v, mx) && |w| == |w'| && w'[v] == w[v] && NodeOk(w, m, mx) && w[m] <= w[v]
    ensures NodeOk(w', v, NatFreq(w[m]))
  {
  }

  lemma NewHeavy(w: seq<int>, w': seq<int>, node: nat, mx: nat, n: nat, m: nat)
    requires NodeOk(w, n, mx) && NodeOk(w, m, mx) && node < |w| && w[n] <= w[m]
    requires Freq(w[n]) + Freq(w[m]) < 0x80_0000 && w' == w[node := Joined(w[n], w[m])]
    ensures NodeOk(w', node, NatFreq(w[m]))
  {
    JoinedOk(w, n, m, mx);
  }

  /** The roots left after joining the two lightest are heavy enough. */
  lemma HeavyStep(roots: seq<int>, rest: seq<int>, w: seq<int>, w': seq<int>, node: nat, mx: nat, n: nat, m: nat)
    requires HeavyRoots(roots, w, mx) && Without(roots, n, m, rest) && node < |w| && n < |w| && m < |w|
    requires w[n] <= w[m] && (forall v :: v in rest ==> v != node && NotLighter(w, v, m))
    requires Freq(w[n]) + Freq(w[m]) < 0x80_0000 && w' == w[node := Joined(w[n], w[m])]
    ensures HeavyRoots([node] + rest, w', NatFreq(w[m]))
  {
    assert n in roots && m in roots;
    NewHeavy(w, w', node, mx, n, m);
    forall v | v in [node] + rest
      ensures NodeOk(w', v, NatFreq(w[m]))
    {
      if v != node {
        assert v in rest && v in roots;
        HeavyStays(w, w', v, mx, m);
      }
    }
  }

  lemma JoinsNew(w: seq<int>, w': seq<int>, node: nat, mx: nat, n: nat, m: nat)
    requires NodeOk(w, n, mx) && NodeOk(w, m, mx) && n < node < |w| && m < node && w[n] <= w[m]
    requires Freq(w[n]) + Freq(w[m]) < 0x80_0000 && w' == w[node := Joined(w[n], w[m])]
    ensures Joins(w', node, m, n) && w'[node] >= w'[m]
  {
    JoinedOk(w, n, m, mx);
  }

  /** The tail with the two nodes just joined is still sorted, below the roots. */
  lemma SortedStep(roots: seq<int>, rest: seq<int>, tail: seq<int>, w: seq<int>, w': seq<int>, elems: nat, k: nat,
                   n: nat, m: nat)
    requires Ranked(roots, tail, w, elems, k) && Without(roots, n, m, rest) && elems + k < |w|
    requires n < elems + k && m < elems + k && w[n] <= w[m] && forall v :: v in rest ==> NotLighter(w, v, m)
    requires |w'| == |w| && w' == w[elems + k := w'[elems + k]] && w'[elems + k] >= w[m]
    ensures var tail' := [m, n] + tail;
            && (forall i, j :: 0 <= i < j < |tail'| ==> NotLighter(w', tail'[i], tail'[j]))
            && (forall v, i :: v in [elems + k] + rest && 0 <= i < |tail'| ==> NotLighter(w', v, tail'[i]))
  {
    var node, tail', roots' := elems + k, [m, n] + tail, [elems + k] + rest;
    assert n in roots && m in roots;
    forall i | 0 <= i < |tail'|
      ensures 0 <= tail'[i] < node && w'[tail'[i]] <= w[m] && (i > 0 ==> w'[tail'[i]] <= w[n])
    {
      if i >= 2 {
        assert tail'[i] == tail[i - 2];
        assert NotLighter(w, n, tail[i - 2]);
      }
    }
    forall v, i | v in roots' && 0 <= i < |tail'|
      ensures NotLighter(w', v, tail'[i])
    {
      assert v != node ==> v in rest && v in roots && NotLighter(w, v, m);
    }
    forall i, j | 0 <= i < j < |tail'|
      ensures NotLighter(w', tail'[i], tail'[j])
    {
      if i >= 2 {
        assert tail'[i] == tail[i - 2] && tail'[j] == tail[j - 2];
        assert NotLighter(w, tail[i - 2], tail[j - 2]);
      }
    }
  }

  lemma FlatStep(roots: seq<int>, rest: seq<int>, tail: seq<int>, w: seq<int>, w': seq<int>, elems: nat, node: nat,
                 n: nat,
                 m: nat)
    requires FlatLeaves(roots, tail, w, elems) && Without(roots, n, m, rest) && elems <= node < |w|
    requires |w'| == |w| && w' == w[node := w'[node]]
    ensures FlatLeaves([node] + rest, [m, n] + tail, w', elems)
  {
    forall v | 0 <= v < elems && (v in [node] + rest || v in [m, n] + tail)
      ensures Height(w'[v]) == 0
    {
      assert v in roots || v in tail;
    }
  }

  /** Joining two least roots keeps the tail sorted. */
  lemma RankedStep(roots: seq<int>, rest: seq<int>, tail: seq<int>, w: seq<int>, w': seq<int>, elems: nat, k: nat,
                   n: nat, m: nat)
    requires Ranked(roots, tail, w, elems, k) && Without(roots, n, m, rest) && elems + k < |w|
    requires n < elems + k && m < elems + k && w[n] <= w[m] && forall v :: v in rest ==> NotLighter(w, v, m)
    requires Freq(w[n]) + Freq(w[m]) < 0x80_0000 && w' == w[elems + k := Joined(w[n], w[m])]
    ensures Ranked([elems + k] + rest, [m, n] + tail, w', elems, k + 1)
  {
    var node, tail', k' := elems + k, [m, n] + tail, k + 1;
    assert n in roots && m in roots && forall v :: v in rest ==> v in roots;
    JoinsNew(w, w', node, LastJoined(tail, w), n, m);
    SortedStep(roots, rest, tail, w, w', elems, k, n, m);
    HeavyStep(roots, rest, w, w', node, LastJoined(tail, w), n, m);
    FlatStep(roots, rest, tail, w, w', elems, node, n, m);
    forall j | 0 < j <= k'
      ensures Adds(tail', w', elems, k', j)
    {
      assert j > 1 ==> Adds(tail, w, elems, k, j - 1);
      AddsLater(tail, tail', w, w', elems, k, n, m, j);
    }
    forall i | 0 <= i < |tail'|
      ensures 0 <= tail'[i] < elems + k'
    {
      assert i >= 2 ==> tail'[i] == tail[i - 2];
    }
  }

  lemma RankedReroot(roots: seq<int>, roots': seq<int>, tail: seq<int>, w: seq<int>, elems: nat, k: nat)
    requires Ranked(roots, tail, w, elems, k) && SameMembers(roots, roots')
    ensures Ranked(roots', tail, w, elems, k)
  {
    forall v | v in roots'
      ensures v in roots
    {
    }
  }

  lemma NotAboveByWeight(w: seq<int>, v: int, u: int)
    requires NotLighter(w, v, u) && w[u] >= 0
    ensures NotAbove(Freqs(w), Heights(w), u, v) && Freqs(w)[v] >= Freqs(w)[u]
  {
  }

  /** Side by side in the tail, the nodes add up and rise. */
  lemma AddsWeighs(roots: seq<int>, tail: seq<int>, w: seq<int>, elems: nat, k: nat, j: nat)
    requires |roots| == 1 && Adds(tail, w, elems, k, j)
    ensures Weighs(roots + tail, Freqs(w), elems, k, j) && Rises(roots + tail, Heights(w), elems, k, j)
  {
    var order := roots + tail;
    assert order[2 * j - 1] == tail[2 * j - 2] && order[2 * j] == tail[2 * j - 1];
  }

  lemma TailWeights(tail: seq<int>, w: seq<int>, elems: nat, k: nat, i: nat)
    requires i < |tail| == 2 * k && forall j :: 0 < j <= k ==> Adds(tail, w, elems, k, j)
    ensures 0 <= tail[i] < |w| && w[tail[i]] >= 0
  {
    var j := i / 2 + 1;
    assert Adds(tail, w, elems, k, j);
    assert i == 2 * j - 2 || i == 2 * j - 1;
  }

  /** A ranked forest grown to one tree is in the order Huffman's argument needs. */
  lemma RankedIsOrdered(roots: seq<int>, tail: seq<int>, w: seq<int>, elems: nat, k: nat)
    requires Ranked(roots, tail, w, elems, k) && |roots| == 1 && IsTree(roots + tail, elems, k)
    ensures Ordered(roots + tail, Freqs(w), Heights(w), elems, k)
    ensures w[elems + k - 1] >= 0 && Freq(w[elems + k - 1]) >= Fib(Height(w[elems + k - 1]))
  {
    var order := roots + tail;
    assert roots[0] in roots && order[0] == roots[0];
    TreeIndexes(order, elems, k);
    forall i, j | 0 <= i < j < |order|
      ensures NotAbove(Freqs(w), Heights(w), order[j], order[i]) && Freqs(w)[order[i]] >= Freqs(w)[order[j]]
    {
      assert order[j] == tail[j - 1] && (i > 0 ==> order[i] == tail[i - 1]);
      TailWeights(tail, w, elems, k, j - 1);
      assert NotLighter(w, order[i], order[j]);
      NotAboveByWeight(w, order[i], order[j]);
    }
    forall j | 0 < j <= k
      ensures Weighs(order, Freqs(w), elems, k, j) && Rises(order, Heights(w), elems, k, j)
    {
      AddsWeighs(roots, tail, w, elems, k, j);
    }
    forall i | 0 <= i < |order| && order[i] < elems
      ensures Heights(w)[order[i]] == 0
    {
      assert i > 0 && order[i] == tail[i - 1] && tail[i - 1] in tail;
    }
  }

  /** Sorted, and the roots still add up to the total. */
  ghost predicate AllThere(roots: seq<int>, tail: seq<int>, freq: seq<nat>, depth: seq<Byte>, elems: nat, k: nat,
                           total: nat) {
    && Ranked(roots, tail, Keys(freq, depth), elems, k)
    && elems + k <= |freq| && LiveSum(roots, freq, elems + k) == total
  }

  /** Heavy enough nodes are not so high that a byte could not hold one level more. */
  lemma DepthsLow(freq: seq<nat>, depth: seq<Byte>, mx: nat, n: nat, m: nat)
    requires NodeOk(Keys(freq, depth), n, mx) && NodeOk(Keys(freq, depth), m, mx) && freq[n] + freq[m] < 65536
    requires Keys(freq, depth)[n] <= Keys(freq, depth)[m]
    ensures Taller(depth[n], depth[m]) < 255
  {
    KeyParts(freq[n], depth[n]);
    KeyParts(freq[m], depth[m]);
    JoinedOk(Keys(freq, depth), n, m, mx);
  }

  /** What the node's new frequency and depth make of its key, if neither wraps. */
  lemma KeyJoined(freq: seq<nat>, depth: seq<Byte>, freq': seq<nat>, depth': seq<Byte>, node: nat, n: nat, m: nat)
    requires n < node < |freq| && m < node < |depth| && freq' == freq[node := freq[n] + freq[m]]
    requires depth' == depth[node := Deeper(depth[n], depth[m])] && Taller(depth[n], depth[m]) < 255
    ensures var w := Keys(freq, depth); Keys(freq', depth') == w[node := Joined(w[n], w[m])]
  {
    KeysSet(freq, depth, node, freq[n] + freq[m], Deeper(depth[n], depth[m]));
    KeyOfNode(freq[n], depth[n], freq[m], depth[m]);
  }

  lemma KeyParts(f: nat, d: Byte)
    ensures Freq(256 * f + d) == f && Height(256 * f + d) == d
  {
  }

  lemma KeysSet(freq: seq<nat>, depth: seq<Byte>, node: nat, f: nat, d: Byte)
    requires node < |freq| && node < |depth|
    ensures Keys(freq[node := f], depth[node := d]) == Keys(freq, depth)[node := 256 * f + d]
  {
  }

  lemma KeyOfNode(f1: nat, d1: Byte, f2: nat, d2: Byte)
    requires Taller(d1, d2) < 255
    ensures 256 * (f1 + f2) + Deeper(d1, d2) == Joined(256 * f1 + d1, 256 * f2 + d2)
  {
    KeyParts(f1, d1);
    KeyParts(f2, d2);
  }

  lemma LeastParts(roots: seq<int>, w: seq<int>, n: int, m: int, rest: seq<int>)
    requires LeastTwo(roots, w, n, m, rest)
    ensures 0 <= n < |w| && 0 <= m < |w| && w[n] <= w[m] && forall v :: v in rest ==> NotLighter(w, v, m)
  {
    assert m in [m] + rest && forall v :: v in rest ==> v in [m] + rest;
  }

  /** The new node's key, and that joining is within bounds. */
  lemma NodeJoined(roots: seq<int>, freq: seq<nat>, depth: seq<Byte>, freq': seq<nat>, depth': seq<Byte>, node: nat,
                   mx: nat, n: nat, m: nat)
    requires HeavyRoots(roots, Keys(freq, depth), mx) && n in roots && m in roots
    requires n < node < |freq| && m < node < |depth| && freq' == freq[node := freq[n] + freq[m]]
    requires depth' == depth[node := Deeper(depth[n], depth[m])] && freq[n] + freq[m] < 65536
    requires Keys(freq, depth)[n] <= Keys(freq, depth)[m]
    ensures var w := Keys(freq, depth);
            Keys(freq', depth') == w[node := Joined(w[n], w[m])] && Freq(w[n]) + Freq(w[m]) < 0x80_0000
  {
    DepthsLow(freq, depth, mx, n, m);
    KeyJoined(freq, depth, freq', depth', node, n, m);
    KeyParts(freq[n], depth[n]);
    KeyParts(freq[m], depth[m]);
  }

  lemma RankedMerge(roots: seq<int>, rest: seq<int>, tail: seq<int>, freq: seq<nat>,
                    depth: seq<Byte>, freq': seq<nat>, depth': seq<Byte>, elems: nat, k: nat, n: nat, m: nat)
    requires Ranked(roots, tail, Keys(freq, depth), elems, k) && LeastTwo(roots, Keys(freq, depth), n, m, rest)
    requires n < elems + k < |freq| && m < elems + k < |depth|
    requires freq' == freq[elems + k := freq[n] + freq[m]] && freq[n] + freq[m] < 65536
    requires depth' == depth[elems + k := Deeper(depth[n], depth[m])]
    ensures Ranked([elems + k] + rest, [m, n] + tail, Keys(freq', depth'), elems, k + 1)
  {
    var w, w' := Keys(freq, depth), Keys(freq', depth');
    LeastParts(roots, w, n, m, rest);
    NodeJoined(roots, freq, depth, freq', depth', elems + k, LastJoined(tail, w), n, m);
    RankedStep(roots, rest, tail, w, w', elems, k, n, m);
  }

  lemma AllThereStep(roots: seq<int>, roots': seq<int>, rest: seq<int>, tail: seq<int>, freq: seq<nat>,
                     depth: seq<Byte>, freq': seq<nat>, depth': seq<Byte>, elems: nat, k: nat, total: nat, n: nat,
                     m: nat)
    requires AllThere(roots, tail, freq, depth, elems, k, total) && total < 65536
    requires LeastTwo(roots, Keys(freq, depth), n, m, rest)
    requires n < elems + k < |freq| && m < elems + k < |depth| && SameMembers(roots', [elems + k] + rest)
    requires freq' == freq[elems + k := (freq[n] + freq[m]) % 65536]
    requires depth' == depth[elems + k := Deeper(depth[n], depth[m])]
    ensures AllThere(roots', [m, n] + tail, freq', depth', elems, k + 1, total)
  {
    JoinedSum(roots, roots', rest, freq, freq', elems + k, n, m);
    RankedMerge(roots, rest, tail, freq, depth, freq', depth', elems, k, n, m);
    RankedReroot([elems + k] + rest, roots', [m, n] + tail, Keys(freq', depth'), elems, k + 1);
  }

  /** The state of the merging loop. */
  ghost predicate MergingAt(heap: seq<int>, lens: seq<nat>, freq: seq<nat>, depth: seq<Byte>, elems: nat,
                            used: set<int>, k: nat,
                            heapLen: nat, leaves: nat, total: nat)
  {
    && Growing(heap, lens, elems, used, k, heapLen, leaves) && MinHeap(heap, Keys(freq, depth), heapLen)
    && elems + k <= |freq|
    && (total < 65536 ==> AllThere(Roots(heap, heapLen), heap[HEAP_SIZE - 2 * k..], freq, depth, elems, k, total))
  }

  /** The same, taken apart only where `Turn` is mentioned. */
  ghost predicate Merging(heap: seq<int>, lens: seq<nat>, freq: seq<nat>, depth: seq<Byte>, elems: nat, used: set<int>,
                          k: nat,
                          heapLen: nat, leaves: nat, total: nat)
  {
    && |heap| == HEAP_SIZE && 1 <= heapLen && heapLen + k == leaves <= elems <= 286
    && forall j: nat {:trigger Turn(j, k)} :: Turn(j, k) ==>
          MergingAt(heap, lens, freq, depth, elems, used, k, heapLen, leaves, total)
  }

  lemma MergingParts(heap: seq<int>, lens: seq<nat>, freq: seq<nat>, depth: seq<Byte>, elems: nat, used: set<int>,
                     k: nat,
                     heapLen: nat, leaves: nat, total: nat)
    requires Merging(heap, lens, freq, depth, elems, used, k, heapLen, leaves, total)
    ensures Growing(heap, lens, elems, used, k, heapLen, leaves) && MinHeap(heap, Keys(freq, depth), heapLen)
  {
    assert Turn(k, k);
  }

  lemma MergingStep(heap: seq<int>, heap': seq<int>, lens: seq<nat>, lens': seq<nat>, freq: seq<nat>, freq': seq<nat>,
                    depth: seq<Byte>, depth': seq<Byte>, elems: nat, used: set<int>, k: nat, heapLen: nat,
                    leaves: nat, total: nat,
                    n: nat, m: nat, rest: seq<int>)
    requires Merging(heap, lens, freq, depth, elems, used, k, heapLen, leaves, total) && 2 <= heapLen
    requires n < elems + k < |freq| && m < elems + k < |depth|
    requires Growing(heap', lens', elems, used, k + 1, heapLen - 1, leaves)
    requires MinHeap(heap', Keys(freq', depth'), heapLen - 1)
    requires LeastTwo(Roots(heap, heapLen), Keys(freq, depth), n, m, rest)
    requires SameMembers(Roots(heap', heapLen - 1), [elems + k] + rest)
    requires heap'[HEAP_SIZE - 2 * (k + 1)..] == [m, n] + heap[HEAP_SIZE - 2 * k..]
    requires freq' == freq[elems + k := (freq[n] + freq[m]) % 65536]
    requires depth' == depth[elems + k := Deeper(depth[n], depth[m])]
    ensures Merging(heap', lens', freq', depth', elems, used, k + 1, heapLen - 1, leaves, total)
  {
    assert Turn(k, k);
    if total < 65536 {
      AllThereStep(Roots(heap, heapLen), Roots(heap', heapLen - 1), rest, heap[HEAP_SIZE - 2 * k..], freq, depth,
          freq', depth', elems, k, total, n, m);
    }
  }

  /** One turn of the merging loop. */
  method MergeNext(elems: nat, ghost used: set<int>, ghost k: nat, ghost leaves: nat, freq: array<nat>, dl: array<nat>,
                   heap: array<nat>, depth: array<Byte>, heapLen: nat, heapMax: nat, node: nat, ghost total: nat)
    requires heap !in {freq, dl} && freq != dl && node == elems + k && heapMax == HEAP_SIZE - 2 * k
    requires 2 * elems <= freq.Length && 2 * elems <= dl.Length && depth.Length == HEAP_SIZE && 2 <= heapLen
    requires Merging(heap[..], dl[..], freq[..], depth[..], elems, used, k, heapLen, leaves, total)
    modifies freq, dl, heap, depth
    ensures Merging(heap[..], dl[..], freq[..], depth[..], elems, used, k + 1, heapLen - 1, leaves, total)
    ensures forall i :: 0 <= i < elems ==> freq[i] == old(freq[i])
  {
    ghost var h: seq<int> := heap[..];
    ghost var lens: seq<nat>, f: seq<nat>, dep := dl[..], freq[..], depth[..];
    MergingParts(h, lens, f, dep, elems, used, k, heapLen, leaves, total);
    var n, m;
    ghost var rest;
    n, m, rest := MergeOnce(elems, used, k, leaves, freq, dl, heap, depth, heapLen, heapMax, node);
    assert heap[..][HEAP_SIZE - 2 * (k + 1)..] == heap[heapMax - 2..];
    MergingStep(h, heap[..], lens, dl[..], f, freq[..], dep, depth[..], elems, used, k, heapLen, leaves, total, n, m,
        rest);
  }

  method MergeAll(elems: nat, ghost used: set<int>, freq: array<nat>, dl: array<nat>, heap: array<nat>,
                  depth: array<Byte>, heapLen0: nat,
                  ghost total: nat)
    returns (heapMax: nat)
    requires heap !in {freq, dl} && freq != dl
    requires 2 * elems <= freq.Length && 2 * elems <= dl.Length && depth.Length == HEAP_SIZE
    requires 2 <= heapLen0 && Merging(heap[..], dl[..], freq[..], depth[..], elems, used, 0, heapLen0, heapLen0, total)
    modifies freq, dl, heap, depth
    ensures heapMax == HEAP_SIZE - 2 * (heapLen0 - 1)
    ensures Merging(heap[..], dl[..], freq[..], depth[..], elems, used, heapLen0 - 1, 1, heapLen0, total)
    ensures forall i :: 0 <= i < elems ==> freq[i] == old(freq[i])
  {
    var heapLen, node := heapLen0, elems;
    heapMax := HEAP_SIZE;
    while heapLen >= 2
      invariant 1 <= heapLen <= heapLen0 && node == elems + heapLen0 - heapLen
      invariant heapMax == HEAP_SIZE - 2 * (heapLen0 - heapLen)
      invariant Merging(heap[..], dl[..], freq[..], depth[..], elems, used, heapLen0 - heapLen, heapLen, heapLen0,
                total)
      invariant forall i :: 0 <= i < elems ==> freq[i] == old(freq[i])
    {
      MergeNext(elems, used, heapLen0 - heapLen, heapLen0, freq, dl, heap, depth, heapLen, heapMax, node, total);
      node, heapMax, heapLen := node + 1, heapMax - 2, heapLen - 1;
    }
  }

  /** A grown heap with its last root filed in front of the tail. */
  lemma GrownIsTree(h: seq<int>, h': seq<int>, lens: seq<nat>, freq: seq<nat>, depth: seq<Byte>, elems: nat,
                    used: set<int>, k: nat, total: nat)
    requires Merging(h, lens, freq, depth, elems, used, k, 1, k + 1, total) && k > 0
    requires h' == h[HEAP_SIZE - 2 * k - 1 := h[1]]
    ensures Linked(h'[HEAP_SIZE - 2 * k - 1..], lens, elems, k)
    ensures forall v :: 0 <= v < elems ==> (v in used <==> v in h'[HEAP_SIZE - 2 * k - 1..])
    ensures total < 65536 ==> Weighed(h'[HEAP_SIZE - 2 * k - 1..], Keys(freq, depth), elems, k, total)
  {
    var tail := h[HEAP_SIZE - 2 * k..];
    assert Turn(k, k);
    ForestIsTree(Roots(h, 1), tail, lens, elems, k);
    assert h'[HEAP_SIZE - 2 * k - 1..] == Roots(h, 1) + tail;
    if total < 65536 {
      RankedIsOrdered(Roots(h, 1), tail, Keys(freq, depth), elems, k);
      LiveOne(Roots(h, 1), freq, elems + k);
    }
  }

  /** Combines nodes until one is left, and files it as the root. */
  method Grow(elems: nat, ghost used: set<int>, freq: array<nat>, dl: array<nat>, heap: array<nat>, depth: array<Byte>,
              heapLen0: nat,
              ghost total: nat)
    returns (heapMax: nat)
    requires heap !in {freq, dl} && freq != dl
    requires 2 * elems <= freq.Length && 2 * elems <= dl.Length && depth.Length == HEAP_SIZE
    requires 2 <= heapLen0 && Merging(heap[..], dl[..], freq[..], depth[..], elems, used, 0, heapLen0, heapLen0, total)
    modifies freq, dl, heap, depth
    ensures heapMax == HEAP_SIZE - (2 * (heapLen0 - 1) + 1) && heap.Length == HEAP_SIZE
    ensures Linked(heap[heapMax..], dl[..], elems, heapLen0 - 1)
    ensures forall v :: 0 <= v < elems ==> (v in used <==> v in heap[heapMax..])
    ensures forall i :: 0 <= i < elems ==> freq[i] == old(freq[i])
    ensures total < 65536 ==> Weighed(heap[heapMax..], Keys(freq[..], depth[..]), elems, heapLen0 - 1, total)
  {
    heapMax := MergeAll(elems, used, freq, dl, heap, depth, heapLen0, total);
    ghost var h: seq<int> := heap[..];
    heapMax := heapMax - 1;
    heap[heapMax] := heap[1];
    assert heap[..] == h[heapMax := h[1]];
    GrownIsTree(h, heap[..], dl[..], freq[..], depth[..], elems, used, heapLen0 - 1, total);
  }

  /** The leaves in heap order are where merging starts. */
  lemma MergingStarts(heap: seq<int>, lens: seq<nat>, freq: seq<nat>, depth: seq<Byte>, elems: nat, used: set<int>,
                      heapLen: nat)
    requires Growing(heap, lens, elems, used, 0, heapLen, heapLen) && MinHeap(heap, Keys(freq, depth), heapLen)
    requires elems <= |freq|
    requires (forall v :: 0 <= v < elems ==> (v in used <==> freq[v] != 0)) && Level(freq, depth, elems)
    ensures Merging(heap, lens, freq, depth, elems, used, 0, heapLen, heapLen, FreqSum(freq, elems))
  {
    var roots := Roots(heap, heapLen);
    assert heap[HEAP_SIZE..] == [];
    LiveAll(roots, freq, elems);
    var w := Keys(freq, depth);
    forall v | v in roots
      ensures NodeOk(w, v, 0) && Height(w[v]) == 0
    {
      assert freq[v] != 0 && depth[v] == 0;
    }
  }

  // ----- what the made-up symbols cost -----

  lemma {:induction false} CostForce(d: Desc, freq: seq<nat>, lens: seq<nat>, f: nat, m: nat)
    requires m <= d.extraBase + |d.extraBits| && m <= |freq| && m <= |lens| && f < m && freq[f] == 0
    requires Assigned(lens[f])
    ensures Cost(d, freq[f := 1], lens, m) == Cost(d, freq, lens, m) + lens[f] + d.Extra(f)
    decreases m
  {
    if f < m - 1 {
      CostForce(d, freq, lens, f, m - 1);
    } else {
      CostFrame(d, freq, freq[f := 1], lens, m - 1);
    }
  }

  lemma {:induction false} CostFrame(d: Desc, freq: seq<nat>, freq': seq<nat>, lens: seq<nat>, m: nat)
    requires m <= d.extraBase + |d.extraBits| && m <= |freq| && m <= |freq'| && m <= |lens|
    requires forall n :: 0 <= n < m ==> freq[n] == freq'[n]
    ensures Cost(d, freq, lens, m) == Cost(d, freq', lens, m)
    ensures d.staticLens.Some? && m <= |d.staticLens.value| ==>
            StaticCost(d, freq, lens, m) == StaticCost(d, freq', lens, m)
    decreases m
  {
    if m > 0 {
      CostFrame(d, freq, freq', lens, m - 1);
    }
  }

  lemma {:induction false} StaticForce(d: Desc, freq: seq<nat>, lens: seq<nat>, f: nat, m: nat)
    requires m <= d.extraBase + |d.extraBits| && m <= |freq| && m <= |lens| && f < m && freq[f] == 0
    requires Assigned(lens[f])
    requires d.staticLens.Some? && m <= |d.staticLens.value|
    ensures StaticCost(d, freq[f := 1], lens, m) == StaticCost(d, freq, lens, m) + d.Static(f) + d.Extra(f)
    decreases m
  {
    if f < m - 1 {
      StaticForce(d, freq, lens, f, m - 1);
    } else {
      CostFrame(d, freq, freq[f := 1], lens, m - 1);
    }
  }

  /** `freq` is `freq0` with each made-up symbol raised from zero to one. */
  ghost predicate MadeUp(freq0: seq<nat>, freq: seq<nat>, forced: seq<int>) {
    && |freq0| == |freq| && 3 <= |freq| && Distinct(forced)
    && (forall i :: 0 <= i < |forced| ==> 0 <= forced[i] < 3 && freq0[forced[i]] == 0 && freq[forced[i]] == 1)
    && (forall n :: 0 <= n < |freq| && n !in forced ==> freq[n] == freq0[n])
  }

  lemma MadeUpLess(freq0: seq<nat>, freq: seq<nat>, forced: seq<int>)
    requires MadeUp(freq0, freq, forced) && forced != []
    ensures MadeUp(freq0, freq[forced[|forced| - 1] := 0], forced[..|forced| - 1])
  {
    var f, less := forced[|forced| - 1], forced[..|forced| - 1];
    assert forced == less + [f];
    assert f !in less;
  }

  /** With the made-up symbols paid back, the block costs what its own symbols cost. */
  lemma {:induction false} ForcedIsPaid(d: Desc, freq0: seq<nat>, freq: seq<nat>, forced: seq<int>, lens: seq<nat>)
    requires d.Valid() && d.elems <= |freq| && d.elems <= |lens| && MadeUp(freq0, freq, forced)
    requires forall i :: 0 <= i < |forced| ==> lens[forced[i]] == 1
    ensures Cost(d, freq, lens, d.elems) == Cost(d, freq0, lens, d.elems) + |forced|
    ensures d.staticLens.Some? ==>
              StaticCost(d, freq, lens, d.elems) == StaticCost(d, freq0, lens, d.elems) + StaticOf(d, forced)
    decreases |forced|
  {
    if forced == [] {
      CostFrame(d, freq0, freq, lens, d.elems);
    } else {
      var f, less := forced[|forced| - 1], forced[..|forced| - 1];
      var before := freq[f := 0];
      MadeUpLess(freq0, freq, forced);
      ForcedIsPaid(d, freq0, before, less, lens);
      CostForce(d, before, lens, f, d.elems);
      assert before[f := 1] == freq;
      if d.staticLens.Some? {
        StaticForce(d, before, lens, f, d.elems);
      }
    }
  }

  // ----- the result -----

  lemma {:induction false} PrefixSums(d: Desc, freq: seq<nat>, lens: seq<nat>, m: nat, top: nat, c: nat)
    requires c <= m <= |lens| && m <= |freq| && m <= d.extraBase + |d.extraBits|
    ensures Kraft(lens[..m], top, c) == Kraft(lens, top, c)
    ensures Cost(d, freq, lens[..m], c) == Cost(d, freq, lens, c)
    ensures d.staticLens.Some? && m <= |d.staticLens.value| ==>
            StaticCost(d, freq, lens[..m], c) == StaticCost(d, freq, lens, c)
    decreases c
  {
    if c > 0 {
      PrefixSums(d, freq, lens, m, top, c - 1);
    }
  }

  lemma {:induction false} PrefixCount(lens: seq<nat>, m: nat, b: nat, c: nat)
    requires c <= m <= |lens|
    ensures CountLen(lens[..m], b, c) == CountLen(lens, b, c)
    decreases c
  {
    if c > 0 {
      PrefixCount(lens, m, b, c - 1);
    }
  }

  /** A tree built for frequencies `freq0`: a complete code for the used symbols and those made up because there were
      too few, and the exact number of bits the symbols take in it. */
  ghost predicate Built(d: Desc, freq0: seq<nat>, lens: seq<nat>, fc: seq<nat>, maxCode: int,
                        opt: nat, stat: nat, opt0: nat, stat0: nat)
  {
    && d.Valid() && |lens| == d.elems <= |freq0| && d.elems <= |fc|
    && Complete(lens, d.maxLength)
    && (forall n :: 0 <= n < d.elems ==> (lens[n] > 0 <==> freq0[n] > 0 || IsMadeUp(freq0, d.elems, n)))
    && 1 <= maxCode < d.elems && lens[maxCode] > 0 && (forall n :: maxCode < n < d.elems ==> lens[n] == 0)
    && (forall n :: 0 <= n < d.elems ==> GenCodes.Coded(lens, fc[n], n))
    && opt == Add32(opt0, Cost(d, freq0, lens, d.elems))
    && stat == if d.staticLens.Some? then Add32(stat0, StaticCost(d, freq0, lens, d.elems)) else stat0
  }

  /** Symbols made up get one bit. */
  lemma ForcedShort(order: seq<int>, lens: seq<nat>, forced: seq<int>, elems: nat, top: nat)
    requires Settled(order, lens, elems, 1, top) && Kraft(lens, top, elems) == Pow2(top)
    requires forall i :: 0 <= i < |forced| ==> 0 <= forced[i] < elems && forced[i] in order
    ensures forall i :: 0 <= i < |forced| ==> lens[forced[i]] == 1
  {
    TwoLeaves(order, lens, elems, top);
    forall i | 0 <= i < |forced|
      ensures lens[forced[i]] == 1
    {
      var p :| 0 <= p < |order| && order[p] == forced[i];
      assert p != 0;
    }
  }

  /** Lengths come out right for the frequencies before any were made up. */
  lemma DeliveredIsPaid(d: Desc, order: seq<int>, k: nat, freq0: seq<nat>, freq: seq<nat>, forced: seq<int>,
                        lens: seq<nat>, cnt: seq<nat>,
                        opt: nat, stat: nat, opt1: nat, stat1: nat, opt0: nat, stat0: nat)
    requires Delivered(d, order, k, freq, lens, cnt, opt, stat, opt1, stat1)
    requires Forced(d, freq0, freq, forced, opt1, stat1, opt0, stat0) && (forced != [] ==> k == 1)
    requires forall i :: 0 <= i < |forced| ==> forced[i] in order
    ensures opt == Add32(opt0, Cost(d, freq0, lens, d.elems))
    ensures stat == if d.staticLens.Some? then Add32(stat0, StaticCost(d, freq0, lens, d.elems)) else stat0
  {
    if forced != [] {
      ForcedShort(order, lens, forced, d.elems, d.maxLength);
    }
    ForcedIsPaid(d, freq0, freq, forced, lens);
    Add32Twice(opt0, -|forced|, Cost(d, freq, lens, d.elems));
    if d.staticLens.Some? {
      Add32Twice(stat0, -StaticOf(d, forced), StaticCost(d, freq, lens, d.elems));
    }
  }

  /** The lengths seen as a code on the symbols alone. */
  lemma DeliveredIsComplete(d: Desc, order: seq<int>, k: nat, freq: seq<nat>, lens: seq<nat>, cnt: seq<nat>,
                            opt: nat, stat: nat, opt1: nat, stat1: nat, used: set<int>, maxCode: int)
    requires Delivered(d, order, k, freq, lens, cnt, opt, stat, opt1, stat1)
    requires forall v :: 0 <= v < d.elems ==> (v in used <==> v in order)
    requires maxCode in used && 0 <= maxCode < d.elems && forall v :: v in used ==> v <= maxCode
    ensures Complete(lens[..d.elems], d.maxLength)
    ensures forall n :: 0 <= n < d.elems ==> (lens[n] > 0 <==> n in used)
    ensures 1 <= maxCode && (forall n :: maxCode < n < d.elems ==> lens[n] == 0)
    ensures forall b :: 1 <= b <= MAX_BITS ==> cnt[b] == CountLen(lens[..d.elems], b, d.elems)
  {
    PrefixSums(d, freq, lens, d.elems, d.maxLength, d.elems);
    forall n | 0 <= n < d.elems
      ensures lens[n] <= d.maxLength && (lens[n] > 0 <==> n in used)
    {
      if n in order {
        var p :| 0 <= p < |order| && order[p] == n;
        assert order[p] < d.elems;
      }
    }
    forall b | 1 <= b <= MAX_BITS
      ensures cnt[b] == CountLen(lens[..d.elems], b, d.elems)
    {
      PrefixCount(lens, d.elems, b, d.elems);
    }
    var k2 := |order| - 1;
    assert order[k2] < Parent(d.elems, k, k2) && order[k2 - 1] < Parent(d.elems, k, k2 - 1);
    assert order[k2] in order && order[k2 - 1] in order;
    assert order[k2] < d.elems && order[k2 - 1] < d.elems;
  }

  /** Unless the frequencies outgrow their 16 bits, a tree over them in the right order. */
  ghost predicate TreeOver(order: seq<int>, w: seq<int>, freq: seq<nat>, elems: nat, k: nat) {
    && elems <= |w| && elems <= |freq| && (forall v :: 0 <= v < elems ==> Freqs(w)[v] == freq[v])
    && (FreqSum(freq, elems) < 65536 ==> Weighed(order, w, elems, k, FreqSum(freq, elems)))
  }

  /** The linked tree over the used symbols. */
  ghost predicate GrownAt(order: seq<int>, lens: seq<nat>, w: seq<int>, freq: seq<nat>, elems: nat, used: set<int>,
                          k: nat)
  {
    && Linked(order, lens, elems, k) && TreeOver(order, w, freq, elems, k)
    && (forall v :: 0 <= v < elems ==> (v in used <==> v in order))
  }

  /** The same, taken apart only where `Turn` is mentioned. */
  ghost predicate Grown(order: seq<int>, lens: seq<nat>, w: seq<int>, freq: seq<nat>, elems: nat, used: set<int>,
                        k: nat)
  {
    forall j: nat {:trigger Turn(j, k)} :: Turn(j, k) ==> GrownAt(order, lens, w, freq, elems, used, k)
  }

  lemma KeysOf(freq: seq<nat>, depth: seq<Byte>, freq0: seq<nat>, elems: nat)
    requires elems <= |freq| && elems <= |depth| && elems <= |freq0|
    requires forall v :: 0 <= v < elems ==> freq[v] == freq0[v]
    ensures forall v :: 0 <= v < elems ==> Freqs(Keys(freq, depth))[v] == freq0[v]
  {
    forall v | 0 <= v < elems
      ensures Freqs(Keys(freq, depth))[v] == freq0[v]
    {
      assert Keys(freq, depth)[v] == 256 * freq[v] + depth[v];
    }
  }

  lemma LinkedParented(order: seq<int>, lens: seq<nat>, elems: nat, k: nat)
    requires Linked(order, lens, elems, k)
    ensures Parented(order, lens[elems + k - 1 := 0], elems, k)
  {
    forall a | 1 <= a < |order|
      ensures order[a] != elems + k - 1
    {
      assert order[0] != order[a];
    }
  }

  /** The lengths `gen_bitlen` delivers are the best for the frequencies before any were made up. */
  lemma DeliveredIsBest(d: Desc, order: seq<int>, k: nat, freq0: seq<nat>, freq: seq<nat>, forced: seq<int>,
                        w: seq<int>, lens0: seq<nat>, lens: seq<nat>, overflow: nat)
    requires d.Valid() && d.elems <= |freq0| && d.elems <= |freq| && (forced != [] ==> k == 1)
    requires forall v :: 0 <= v < d.elems ==> if forced == [] then freq[v] == freq0[v] else freq0[v] > 0 ==> freq[v] > 0
    requires Linked(order, lens0, d.elems, k) && TreeOver(order, w, freq, d.elems, k)
    requires LengthsOf(order, lens, d.elems, k, d.maxLength, overflow)
    requires forall v :: 0 <= v < d.elems ==> (v in order <==> freq[v] != 0)
    ensures Best(freq0, lens[..d.elems], d.elems, d.maxLength, overflow)
  {
    var par := lens0[d.elems + k - 1 := 0];
    LinkedParented(order, lens0, d.elems, k);
    if forced != [] {
      PairIsBest(order, freq0, par, lens, d.elems, d.maxLength, overflow);
      BestFrame(freq0, freq0, lens, lens[..d.elems], d.elems, d.maxLength, overflow);
    } else {
      SumFrame(Freqs(w), freq, d.elems);
      if FreqSum(freq, d.elems) < 65536 {
        TreeIsBest(order, w, par, lens, d.elems, k, d.maxLength, FreqSum(freq, d.elems), overflow);
      }
      BestFrame(Freqs(w), freq0, lens, lens[..d.elems], d.elems, d.maxLength, overflow);
    }
  }

  /** From the leaves to the linked tree. */
  method HeapAndGrow(elems: nat, ghost used: set<int>, freq: array<nat>, dl: array<nat>, heap: array<nat>,
                     depth: array<Byte>, heapLen: nat)
    returns (heapMax: nat)
    requires heap !in {freq, dl} && freq != dl && 2 <= heapLen
    requires 2 * elems <= freq.Length && 2 * elems <= dl.Length && depth.Length == HEAP_SIZE
    requires Growing(heap[..], dl[..], elems, used, 0, heapLen, heapLen)
    requires (forall v :: 0 <= v < elems ==> (v in used <==> freq[v] != 0)) && Level(freq[..], depth[..], elems)
    modifies freq, dl, heap, depth
    ensures heapMax == HEAP_SIZE - (2 * (heapLen - 1) + 1) && heap.Length == HEAP_SIZE
    ensures Grown(heap[heapMax..], dl[..], Keys(freq[..], depth[..]), old(freq[..]), elems, used, heapLen - 1)
    ensures forall i :: 0 <= i < elems ==> freq[i] == old(freq[i])
  {
    Heapify(elems, used, freq, dl[..], heap, depth, heapLen);
    MergingStarts(heap[..], dl[..], freq[..], depth[..], elems, used, heapLen);
    heapMax := Grow(elems, used, freq, dl, heap, depth, heapLen, FreqSum(freq[..], elems));
    KeysOf(freq[..], depth[..], old(freq[..]), elems);
  }

  /** The used symbols and those made up, all on the heap. */
  method CollectLeaves(d: Desc, freq: array<nat>, dl: array<nat>, heap: array<nat>, depth: array<Byte>, opt0: nat,
                       stat0: nat)
    returns (heapLen: nat, maxCode: int, opt: nat, stat: nat, ghost forced: seq<int>)
    requires heap !in {freq, dl} && freq != dl
    requires d.Valid() && d.elems <= freq.Length && d.elems <= dl.Length
    requires heap.Length == depth.Length == HEAP_SIZE && opt0 < TWO32 && stat0 < TWO32
    modifies freq, dl, heap, depth
    ensures heapLen >= 2 && (forced != [] ==> heapLen == 2) && Level(freq[..], depth[..], d.elems)
    ensures Collected(heap[..], freq[..], dl[..], d.elems, maxCode, heapLen)
    ensures Forced(d, old(freq[..]), freq[..], forced, opt, stat, opt0, stat0)
    ensures MadeExactly(old(freq[..]), d.elems, forced)
  {
    ghost var freq0: seq<nat> := freq[..];
    heapLen, maxCode := Collect(d.elems, freq, dl, heap, depth);
    forall v
      ensures v in Made(heapLen, maxCode) <==> IsMadeUp(freq0, d.elems, v)
    {
      MadeIsMadeUp(heap[..], freq0, dl[..], d.elems, maxCode, heapLen, v);
    }
    heapLen, maxCode, opt, stat, forced := Force(d, freq, dl[..], heap, depth, heapLen, maxCode, opt0, stat0);
  }

  /** Up to the linked tree: leaves collected, enough of them made up, everything joined. */
  method MakeTree(d: Desc, freq: array<nat>, dl: array<nat>, heap: array<nat>, depth: array<Byte>, opt0: nat,
                  stat0: nat)
    returns (maxCode: int, heapMax: nat, opt: nat, stat: nat, ghost k: nat, ghost used: set<int>,
            ghost forced: seq<int>, ghost f: seq<nat>)
    requires heap !in {freq, dl} && freq != dl
    requires d.Valid() && 2 * d.elems <= freq.Length && 2 * d.elems <= dl.Length
    requires heap.Length == depth.Length == HEAP_SIZE
    requires opt0 < TWO32 && stat0 < TWO32
    modifies freq, dl, heap, depth
    ensures heapMax + 2 * k + 1 == HEAP_SIZE && (forced != [] ==> k == 1)
    ensures Grown(heap[heapMax..], dl[..], Keys(freq[..], depth[..]), f, d.elems, used, k)
    ensures |f| == freq.Length && Chosen(d, old(freq[..]), f, used, forced, maxCode, opt, stat, opt0, stat0)
    ensures forall i :: 0 <= i < d.elems ==> f[i] == freq[i]
  {
    ghost var freq0: seq<nat> := freq[..];
    var heapLen;
    heapLen, maxCode, opt, stat, forced := CollectLeaves(d, freq, dl, heap, depth, opt0, stat0);
    f := freq[..];
    used := set v | 0 <= v < d.elems && f[v] != 0;
    CollectedGrows(heap[..], f, dl[..], d.elems, maxCode, heapLen, used);
    CollectedChosen(d, heap[..], freq0, f, dl[..], maxCode, heapLen, used, forced, opt, stat, opt0, stat0);
    heapMax := HeapAndGrow(d.elems, used, freq, dl, heap, depth, heapLen);
    k := heapLen - 1;
  }

  lemma DeliveredFrame(d: Desc, order: seq<int>, k: nat, freq: seq<nat>, f: seq<nat>, lens: seq<nat>, cnt: seq<nat>,
                       opt: nat, stat: nat, opt1: nat, stat1: nat)
    requires Delivered(d, order, k, freq, lens, cnt, opt, stat, opt1, stat1)
    requires d.elems <= |f| && forall i :: 0 <= i < d.elems ==> f[i] == freq[i]
    ensures Delivered(d, order, k, f, lens, cnt, opt, stat, opt1, stat1)
  {
    CostFrame(d, freq, f, lens, d.elems);
  }

  /** From the linked tree to its lengths. */
  method MakeLengths(d: Desc, ghost k: nat, ghost used: set<int>, freq: array<nat>, dl: array<nat>, heap: array<nat>,
                     heapMax: nat,
                     maxCode: int, blCount: array<nat>, opt1: nat, stat1: nat, ghost freq0: seq<nat>, ghost f: seq<nat>,
                     ghost forced: seq<int>, ghost w: seq<int>, ghost opt0: nat, ghost stat0: nat)
    returns (opt: nat, stat: nat, overflow: nat)
    requires freq != dl && dl != blCount && freq != blCount && heap !in {freq, dl, blCount}
    requires blCount.Length == MAX_BITS + 1 && heap.Length == HEAP_SIZE
    requires heapMax + 2 * k + 1 == HEAP_SIZE && (forced != [] ==> k == 1)
    requires Grown(heap[heapMax..], dl[..], w, f, d.elems, used, k)
    requires |f| == freq.Length == |freq0| && d.elems <= freq.Length && d.elems <= dl.Length
    requires Chosen(d, freq0, f, used, forced, maxCode, opt1, stat1, opt0, stat0)
    requires forall i :: 0 <= i < d.elems ==> f[i] == freq[i]
    requires d.Valid()
    modifies dl, blCount
    ensures Best(freq0, dl[..d.elems], d.elems, d.maxLength, overflow)
    ensures Complete(dl[..d.elems], d.maxLength)
    ensures forall n :: 0 <= n < d.elems ==> (dl[n] > 0 <==> freq0[n] > 0 || IsMadeUp(freq0, d.elems, n))
    ensures 1 <= maxCode < d.elems && dl[maxCode] > 0 && (forall n :: maxCode < n < d.elems ==> dl[n] == 0)
    ensures blCount[0] == 0 && forall b :: 1 <= b <= MAX_BITS ==> blCount[b] == CountLen(dl[..d.elems], b, d.elems)
    ensures opt == Add32(opt0, Cost(d, freq0, dl[..d.elems], d.elems))
    ensures stat == if d.staticLens.Some? then Add32(stat0, StaticCost(d, freq0, dl[..d.elems], d.elems)) else stat0
  {
    ghost var order: seq<int>, lens0: seq<nat> := heap[heapMax..], dl[..];
    ReadyForLengths(d, order, lens0, w, f, used, k, freq0, forced, maxCode, opt1, stat1, opt0, stat0);
    assert Tail(heap[..], heapMax, order);
    opt, stat, overflow := GenBitlen.Gen(d, order, k, freq, dl, heap, heapMax, maxCode, blCount, opt1, stat1);
    DeliveredFrame(d, order, k, freq[..], f, dl[..], blCount[..], opt, stat, opt1, stat1);
    LengthsRight(d, order, lens0, dl[..], w, f, used, k, freq0, forced, maxCode, blCount[..], overflow, opt, stat, opt1,
        stat1, opt0, stat0);
    assert dl[..][..d.elems] == dl[..d.elems];
  }

  lemma ReadyForLengths(d: Desc, order: seq<int>, lens: seq<nat>, w: seq<int>, f: seq<nat>, used: set<int>, k: nat,
                        freq0: seq<nat>, forced: seq<int>, maxCode: int, opt: nat, stat: nat, opt0: nat, stat0: nat)
    requires Grown(order, lens, w, f, d.elems, used, k)
    requires Chosen(d, freq0, f, used, forced, maxCode, opt, stat, opt0, stat0)
    ensures d.Valid() && Linked(order, lens, d.elems, k) && LeavesUpTo(order, d.elems, maxCode)
    ensures opt < TWO32 && stat < TWO32 && d.elems <= |f|
  {
    assert Turn(k, k) && Turn(|forced|, |forced|);
    LeavesAreUsed(order, d.elems, k, used, maxCode);
  }

  /** What the lengths are good for, and what they cost. */
  lemma LengthsRight(d: Desc, order: seq<int>, lens0: seq<nat>, lens: seq<nat>, w: seq<int>, f: seq<nat>,
                     used: set<int>, k: nat, freq0: seq<nat>, forced: seq<int>, maxCode: int, cnt: seq<nat>,
                     overflow: nat, opt: nat, stat: nat, opt1: nat, stat1: nat, opt0: nat, stat0: nat)
    requires Grown(order, lens0, w, f, d.elems, used, k) && (forced != [] ==> k == 1)
    requires Chosen(d, freq0, f, used, forced, maxCode, opt1, stat1, opt0, stat0)
    requires Delivered(d, order, k, f, lens, cnt, opt, stat, opt1, stat1)
    requires if overflow == 0 then TrueDepths(order, lens, d.elems, k) else Stepped(order, lens, d.elems, 0, 0)
    requires TooDeep(order, d.elems, k, d.maxLength, overflow)
    ensures d.elems <= |lens| && d.elems <= |freq0| && Best(freq0, lens[..d.elems], d.elems, d.maxLength, overflow)
    ensures Complete(lens[..d.elems], d.maxLength)
    ensures forall n :: 0 <= n < d.elems ==> (lens[n] > 0 <==> freq0[n] > 0 || IsMadeUp(freq0, d.elems, n))
    ensures 1 <= maxCode < d.elems && lens[maxCode] > 0 && (forall n :: maxCode < n < d.elems ==> lens[n] == 0)
    ensures cnt[0] == 0 && forall b :: 1 <= b <= MAX_BITS ==> cnt[b] == CountLen(lens[..d.elems], b, d.elems)
    ensures opt == Add32(opt0, Cost(d, freq0, lens[..d.elems], d.elems))
    ensures stat == if d.staticLens.Some? then Add32(stat0, StaticCost(d, freq0, lens[..d.elems], d.elems)) else stat0
  {
    assert Turn(k, k) && Turn(|forced|, |forced|);
    DeliveredIsBest(d, order, k, freq0, f, forced, w, lens0, lens, overflow);
    DeliveredIsPaid(d, order, k, freq0, f, forced, lens, cnt, opt, stat, opt1, stat1, opt0, stat0);
    DeliveredIsComplete(d, order, k, f, lens, cnt, opt, stat, opt1, stat1, used, maxCode);
    PrefixSums(d, freq0, lens, d.elems, d.maxLength, d.elems);
    UsedAre(freq0, f, d.elems, used, forced);
  }

  /** The leaves are the symbols that occur and those made up. */
  lemma UsedAre(freq0: seq<nat>, freq: seq<nat>, elems: nat, used: set<int>, forced: seq<int>)
    requires MadeUp(freq0, freq, forced) && MadeExactly(freq0, elems, forced) && elems <= |freq|
    requires forall v :: 0 <= v < elems ==> (v in used <==> freq[v] != 0)
    ensures forall n :: 0 <= n < elems ==> (n in used <==> freq0[n] > 0 || IsMadeUp(freq0, elems, n))
  {
    forall n | 0 <= n < elems
      ensures n in used <==> freq0[n] > 0 || IsMadeUp(freq0, elems, n)
    {
      if n in forced {
        var i :| 0 <= i < |forced| && forced[i] == n;
      }
    }
  }

  lemma LeavesAreUsed(order: seq<int>, elems: nat, k: nat, used: set<int>, maxCode: int)
    requires IsTree(order, elems, k) && maxCode < elems
    requires forall v :: 0 <= v < elems ==> (v in used <==> v in order)
    requires forall v :: v in used ==> v <= maxCode
    ensures LeavesUpTo(order, elems, maxCode)
  {
    TreeIndexes(order, elems, k);
    forall a | 0 <= a < |order|
      ensures order[a] <= maxCode || order[a] >= elems
    {
      assert order[a] in order;
    }
  }

  /** `build_tree`: lengths, codes and exact prices for one of the three alphabets, and how good the lengths are. */
  method Build(d: Desc, freq: array<nat>, dl: array<nat>, heap: array<nat>, depth: array<Byte>, blCount: array<nat>,
               opt0: nat, stat0: nat)
    returns (maxCode: int, opt: nat, stat: nat, overflow: nat)
    requires heap !in {freq, dl, blCount} && freq != dl && blCount !in {freq, dl}
    requires d.Valid() && 2 * d.elems <= freq.Length && 2 * d.elems <= dl.Length
    requires heap.Length == depth.Length == HEAP_SIZE
    requires blCount.Length == MAX_BITS + 1 && opt0 < TWO32 && stat0 < TWO32
    modifies freq, dl, heap, depth, blCount
    ensures Built(d, old(freq[..]), dl[..d.elems], freq[..], maxCode, opt, stat, opt0, stat0)
    ensures Best(old(freq[..]), dl[..d.elems], d.elems, d.maxLength, overflow)
  {
    var heapMax;
    ghost var k, used, forced, f;
    ghost var freq0: seq<nat> := freq[..];
    maxCode, heapMax, opt, stat, k, used, forced, f := MakeTree(d, freq, dl, heap, depth, opt0, stat0);
    opt, stat, overflow :=
        MakeLengths(d, k, used, freq, dl, heap, heapMax, maxCode, blCount, opt, stat, freq0, f, forced,
            Keys(freq[..], depth[..]), opt0, stat0);
    assert forall n :: 0 <= n < d.elems ==> dl[n] == dl[..d.elems][n];
    GenCodes.Gen(freq, dl, d.elems, maxCode, blCount);
  }
}
