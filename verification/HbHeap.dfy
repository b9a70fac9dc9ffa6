/** The binary heap of `BZ2_hbMakeCodeLengths`: entries 1..n of `heap`, ordered by
    `weight`, with entry 0 as a sentinel of weight 0. */
module HbHeap {
  import opened Shuffle
  import opened Heap

  /** A heap but for the entry at `z`, which may be too light for its place. */
  ghost predicate Rising(h: seq<int>, w: seq<int>, n: int, z: int) {
    && InRange(h, w, n) && 1 <= z <= n
    && (forall j :: 2 <= j <= n && j != z ==> Edge(h, w, j))
    && (forall j :: 2 <= j <= n && j / 2 == z && z >= 2 ==> Skips(h, w, j))
  }

  lemma RiseStep(h: seq<int>, w: seq<int>, n: nat, z: nat)
    requires Rising(h, w, n, z) && z >= 2 && w[h[z]] < w[h[z / 2]]
    ensures Rising(Swapped(h, z, z / 2), w, n, z / 2)
  {
    var h' := Swapped(h, z, z / 2);
    forall j | 2 <= j <= n && j != z / 2
      ensures Edge(h', w, j)
    {
      if j == z {
      } else if j / 2 == z {
        assert Skips(h, w, j);
      } else {
        assert Edge(h, w, j);
      }
    }
    forall j | 2 <= j <= n && j / 2 == z / 2 && z / 2 >= 2
      ensures Skips(h', w, j)
    {
      assert Edge(h, w, z / 2);
      if j != z {
        assert Edge(h, w, j);
      }
    }
  }

  lemma RiseEnds(h: seq<int>, w: seq<int>, n: nat, z: nat)
    requires Rising(h, w, n, z) && (z >= 2 ==> w[h[z]] >= w[h[z / 2]])
    ensures MinHeap(h, w, n)
  {
    forall j | 2 <= j <= n
      ensures Edge(h, w, j)
    {
    }
  }

  /** Moves the last entry up to its place. */
  method UpHeap(heap: array<int>, weight: array<int>, n: nat)
    requires heap != weight && 1 <= n < heap.Length && weight.Length > 0
    requires heap[0] == 0 && weight[0] == 0 && InRange(heap[..], weight[..], n)
    requires MinHeap(heap[..], weight[..], n - 1) && weight[heap[n]] >= 0
    modifies heap
    ensures MinHeap(heap[..], weight[..], n) && heap[0] == 0
    ensures Shuffles(old(heap[..]), heap[..], 1, n)
  {
    ghost var before, w := heap[..], weight[..];
    ghost var full := before;
    ShuffleRefl(before, 1, n);
    assert Rising(full, w, n, n) by { assert forall j :: 2 <= j <= n && j != n ==> Edge(before, w, j); }
    var zz, tmp := n, heap[n];
    while weight[tmp] < weight[heap[zz / 2]]
      invariant 1 <= zz <= n && weight[..] == w
      invariant |full| == heap.Length && full[zz] == tmp
      invariant (forall p :: 0 <= p < heap.Length && p != zz ==> full[p] == heap[p])
      invariant full[0] == 0 && Rising(full, w, n, zz)
      invariant Shuffles(before, full, 1, n)
      decreases zz
    {
      assert zz / 2 >= 1;
      RiseStep(full, w, n, zz);
      SwapShuffles(before, full, zz, zz / 2, 1, n);
      full := Swapped(full, zz, zz / 2);
      heap[zz] := heap[zz / 2];
      zz := zz / 2;
    }
    RiseEnds(full, w, n, zz);
    heap[zz] := tmp;
    assert heap[..] == full;
  }

  /** Moves the first entry down to its place. */
  method DownHeap(heap: array<int>, weight: array<int>, n: nat)
    requires heap != weight && n + 1 < heap.Length && heap.Length > 1
    requires Sinking(heap[..], weight[..], n, 1, 1) && 0 <= heap[1] < weight.Length
    modifies heap
    ensures MinHeap(heap[..], weight[..], n) && heap[0] == old(heap[0])
    ensures Shuffles(old(heap[..]), heap[..], 1, n)
    ensures forall p :: n < p < heap.Length ==> heap[p] == old(heap[p])
  {
    ghost var before, w := heap[..], weight[..];
    ghost var full := before;
    ShuffleRefl(before, 1, n);
    var zz, tmp := 1, heap[1];
    var yy := 2;
    while yy <= n
      invariant 1 <= zz && yy == 2 * zz && (zz <= n || n == 0) && zz < heap.Length && weight[..] == w
      invariant 0 <= tmp < weight.Length
      invariant |full| == heap.Length && full[zz] == tmp
      invariant (forall p :: 0 <= p < heap.Length && p != zz ==> full[p] == heap[p])
      invariant Sinking(full, w, n, 1, zz)
      invariant Shuffles(before, full, 1, n)
      decreases n - zz
    {
      if yy < n && weight[heap[yy + 1]] < weight[heap[yy]] {
        yy := yy + 1;
      }
      assert LightChild(full, w, n, zz, yy);
      if weight[tmp] < weight[heap[yy]] {
        break;
      }
      SinkStep(full, w, n, 1, zz, yy);
      SwapShuffles(before, full, zz, yy, 1, n);
      full := Swapped(full, zz, yy);
      heap[zz] := heap[yy];
      zz := yy;
      yy := 2 * zz;
    }
    SinkEnds(full, w, n, 1, zz);
    heap[zz] := tmp;
    assert heap[..] == full;
  }
}
