/** Binary heaps: entries 1..n of `h`, each not lighter than its parent. */
module Heap {
  import opened Shuffle

  /** Entry `j` is not lighter than its parent. */
  ghost predicate Edge(h: seq<int>, w: seq<int>, j: nat) {
    && 0 < j < |h| && 0 <= h[j] < |w| && 0 <= h[j / 2] < |w|
    && w[h[j / 2]] <= w[h[j]]
  }

  ghost predicate InRange(h: seq<int>, w: seq<int>, n: int) {
    0 <= n < |h| && forall p :: 1 <= p <= n ==> 0 <= h[p] < |w|
  }

  /** The entries `from` and below are in heap order. */
  ghost predicate SubHeap(h: seq<int>, w: seq<int>, n: int, from: int) {
    InRange(h, w, n) && forall j :: 2 <= j <= n && from <= j / 2 ==> Edge(h, w, j)
  }

  ghost predicate MinHeap(h: seq<int>, w: seq<int>, n: int) {
    InRange(h, w, n) && forall j :: 2 <= j <= n ==> Edge(h, w, j)
  }

  /** The first entry of a heap is a lightest one. */
  lemma {:induction false} FirstIsLightest(h: seq<int>, w: seq<int>, n: nat, j: nat)
    requires MinHeap(h, w, n) && 1 <= j <= n
    ensures w[h[1]] <= w[h[j]]
    decreases j
  {
    if j > 1 {
      assert Edge(h, w, j);
      FirstIsLightest(h, w, n, j / 2);
    }
  }

  /** Entry `j` is not lighter than its grandparent. */
  ghost predicate Skips(h: seq<int>, w: seq<int>, j: nat) {
    && 0 < j < |h| && 0 <= h[j] < |w| && 0 <= h[j / 2 / 2] < |w|
    && w[h[j / 2 / 2]] <= w[h[j]]
  }

  /** In heap order from `from` down but for the entry at `z`, which may be too heavy for its place. */
  ghost predicate Sinking(h: seq<int>, w: seq<int>, n: int, from: nat, z: int) {
    && InRange(h, w, n) && 1 <= from <= z
    && (forall j :: 2 <= j <= n && from <= j / 2 && j / 2 != z ==> Edge(h, w, j))
    && (forall j :: 2 <= j <= n && j / 2 == z && from <= z / 2 ==> Skips(h, w, j))
  }

  lemma SinkStep(h: seq<int>, w: seq<int>, n: nat, from: nat, z: nat, y: nat)
    requires Sinking(h, w, n, from, z) && 2 <= y <= n && y / 2 == z && w[h[z]] >= w[h[y]]
    requires forall j :: 2 <= j <= n && j / 2 == z ==> w[h[y]] <= w[h[j]]
    ensures Sinking(Swapped(h, z, y), w, n, from, y)
  {
    var h' := Swapped(h, z, y);
    forall j | 2 <= j <= n && from <= j / 2 && j / 2 != y
      ensures Edge(h', w, j)
    {
      if j / 2 == z {
        assert w[h[y]] <= w[h[j]];
      } else if j == z {
        assert Skips(h, w, y);
      } else {
        assert Edge(h, w, j);
      }
    }
    forall j | 2 <= j <= n && j / 2 == y && from <= y / 2
      ensures Skips(h', w, j)
    {
      assert Edge(h, w, j);
    }
  }

  lemma SinkEnds(h: seq<int>, w: seq<int>, n: nat, from: nat, z: nat)
    requires Sinking(h, w, n, from, z)
    requires forall j :: 2 <= j <= n && j / 2 == z ==> w[h[z]] <= w[h[j]]
    ensures SubHeap(h, w, n, from)
  {
    forall j | 2 <= j <= n && from <= j / 2
      ensures Edge(h, w, j)
    {
      if j / 2 == z {
        assert w[h[z]] <= w[h[j]];
      }
    }
  }

  /** The lighter child of `z`. */
  ghost predicate LightChild(h: seq<int>, w: seq<int>, n: int, z: int, y: int) {
    && InRange(h, w, n) && 2 <= y <= n && y / 2 == z
    && forall j :: 2 <= j <= n && j / 2 == z ==> w[h[y]] <= w[h[j]]
  }

  /** With its first entry gone and the last in its place, a heap is one whose first entry must sink. */
  lemma PopSinks(h: seq<int>, w: seq<int>, n: nat)
    requires MinHeap(h, w, n) && 1 <= n
    ensures Sinking(h[1 := h[n]], w, n - 1, 1, 1)
  {
    forall j | 2 <= j <= n - 1 && j / 2 != 1
      ensures Edge(h[1 := h[n]], w, j)
    {
      assert Edge(h, w, j);
    }
  }
}
