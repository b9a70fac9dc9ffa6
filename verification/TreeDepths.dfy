/** Depths in the tree: counted from the parents, and what cutting them off at a limit does. */
module TreeDepths {
  import opened TreeWeight
  import opened Huffman

  // ----- from parents -----

  /** Steps from `v` up to the root. */
  ghost function Dep(par: seq<int>, v: nat): (r: nat)
    requires v < |par|
    decreases |par| - v
  {
    if v < par[v] < |par| then 1 + Dep(par, par[v]) else 0
  }

  /** All depths as one vector. */
  ghost function DepthVector(par: seq<int>, n: nat): (r: seq<nat>)
    requires n <= |par|
    ensures |r| == n
  {
    seq(n, v requires 0 <= v < n => Dep(par, v))
  }

  /** Every node but the root has its parent on record, and symbols outside the tree have none. */
  ghost predicate Parented(order: seq<int>, par: seq<int>, elems: nat, k: nat) {
    && IsTree(order, elems, k) && elems + k <= |par| && par[elems + k - 1] <= 0
    && (forall a {:trigger order[a]} :: 1 <= a < |order| ==> par[order[a]] == Parent(elems, k, a))
    && (forall n :: 0 <= n < elems && n !in order ==> par[n] <= 0)
  }

  /** Counting steps gives the depths of the tree. */
  lemma DepthsTrue(order: seq<int>, par: seq<int>, elems: nat, k: nat)
    requires Parented(order, par, elems, k)
    ensures TrueDepths(order, DepthVector(par, elems + k), elems, k)
    ensures forall n :: 0 <= n < elems && n !in order ==> DepthVector(par, elems + k)[n] == 0
  {
    TreeIndexes(order, elems, k);
    forall a | 1 <= a < |order|
      ensures DepthVector(par, elems + k)[order[a]] == DepthVector(par, elems + k)[Parent(elems, k, a)] + 1
    {
      InnerAbove(order, elems, k, a);
      assert order[a] < Parent(elems, k, a);
    }
  }

  // ----- cut off at a limit -----

  function Shorter(a: nat, b: nat): (r: nat) { if a < b then a else b }

  /** How many of the first `m` places hold a node deeper than `top`. */
  ghost function Deep(order: seq<int>, lens: seq<nat>, top: nat, m: nat): (r: nat)
    requires m <= |order| && forall i :: 0 <= i < |order| ==> 0 <= order[i] < |lens|
  {
    if m == 0 then 0 else Deep(order, lens, top, m - 1) + if lens[order[m - 1]] > top then 1 else 0
  }

  /** Capped depths are the true ones up to the cap. */
  lemma {:induction false} CappedDepth(order: seq<int>, lens: seq<nat>, deep: seq<nat>, elems: nat, k: nat, top: nat,
                                       a: nat)
    requires IsTree(order, elems, k) && Depths(order, lens, elems, k, top) && TrueDepths(order, deep, elems, k)
    requires a < |order|
    ensures lens[order[a]] == Shorter(deep[order[a]], top)
    decreases a
  {
    if a > 0 {
      InnerAbove(order, elems, k, a);
      var p := InnerPlace(order, elems, k, Parent(elems, k, a) - elems);
      CappedDepth(order, lens, deep, elems, k, top, p);
    }
  }

  /** The nodes that were cut off are those deeper than the limit. */
  lemma {:induction false} OverflowIsDeep(order: seq<int>, lens: seq<nat>, deep: seq<nat>, elems: nat, k: nat, top: nat,
                                          m: nat)
    requires IsTree(order, elems, k) && Depths(order, lens, elems, k, top) && TrueDepths(order, deep, elems, k)
    requires m <= |order|
    ensures Overflow(lens, elems, k, top, m) == Deep(order, deep, top, m)
    decreases m
  {
    if m > 0 {
      OverflowIsDeep(order, lens, deep, elems, k, top, m - 1);
    }
    if m > 1 {
      var a := m - 1;
      InnerAbove(order, elems, k, a);
      var p := InnerPlace(order, elems, k, Parent(elems, k, a) - elems);
      CappedDepth(order, lens, deep, elems, k, top, p);
      assert deep[order[a]] == deep[order[p]] + 1;
    }
  }

  /** `overflow` nodes of the tree are deeper than `top`. */
  ghost predicate TooDeep(order: seq<int>, elems: nat, k: nat, top: nat, overflow: nat) {
    forall deep: seq<nat> :: TrueDepths(order, deep, elems, k) ==> overflow == Deep(order, deep, top, |order|)
  }

  lemma OverflowCounts(order: seq<int>, lens: seq<nat>, elems: nat, k: nat, top: nat)
    requires IsTree(order, elems, k) && Depths(order, lens, elems, k, top)
    ensures TooDeep(order, elems, k, top, Overflow(lens, elems, k, top, |order|))
  {
    forall deep: seq<nat> | TrueDepths(order, deep, elems, k)
      ensures Overflow(lens, elems, k, top, |order|) == Deep(order, deep, top, |order|)
    {
      OverflowIsDeep(order, lens, deep, elems, k, top, |order|);
    }
  }

  lemma {:induction false} NoneDeep(order: seq<int>, lens: seq<nat>, top: nat, m: nat)
    requires m <= |order| && forall i :: 0 <= i < |order| ==> 0 <= order[i] < |lens|
    ensures Deep(order, lens, top, m) == 0 <==> forall i :: 0 <= i < m ==> lens[order[i]] <= top
  {
    if m > 0 {
      NoneDeep(order, lens, top, m - 1);
    }
  }

  /** No node is deeper than its place in the list. */
  lemma {:induction false} DepthByPlace(order: seq<int>, lens: seq<nat>, elems: nat, k: nat, a: nat)
    requires TrueDepths(order, lens, elems, k) && a < |order|
    ensures lens[order[a]] <= a
    decreases a
  {
    if a > 0 {
      InnerAbove(order, elems, k, a);
      var p := InnerPlace(order, elems, k, Parent(elems, k, a) - elems);
      DepthByPlace(order, lens, elems, k, p);
    }
  }

  /** If some node is too deep, some leaf is. */
  lemma {:induction false} LeafBelow(order: seq<int>, lens: seq<nat>, elems: nat, k: nat, a: nat) returns (b: nat)
    requires TrueDepths(order, lens, elems, k) && a < |order|
    ensures b < |order| && order[b] < elems && lens[order[b]] >= lens[order[a]]
    decreases order[a]
  {
    b := a;
    if order[a] >= elems {
      var y := order[a] - elems;
      TreeIndexes(order, elems, k);
      var c := 2 * (k - 1 - y) + 1;
      assert Parent(elems, k, c) == elems + y;
      assert order[c] < elems + y;
      b := LeafBelow(order, lens, elems, k, c);
    }
  }

  /** No node is too deep exactly if no leaf is. */
  lemma LeavesDecide(order: seq<int>, lens: seq<nat>, elems: nat, k: nat, top: nat)
    requires TrueDepths(order, lens, elems, k)
    ensures Deep(order, lens, top, |order|) == 0 <==>
            forall a :: 0 <= a < |order| && order[a] < elems ==> lens[order[a]] <= top
  {
    NoneDeep(order, lens, top, |order|);
    if forall a :: 0 <= a < |order| && order[a] < elems ==> lens[order[a]] <= top {
      forall a | 0 <= a < |order|
        ensures lens[order[a]] <= top
      {
        var b := LeafBelow(order, lens, elems, k, a);
      }
    }
  }

  /** Depths that all stay within `top` were not cut off there. */
  lemma {:induction false} NoOverflow(order: seq<int>, lens: seq<nat>, elems: nat, k: nat, top: nat)
    requires TrueDepths(order, lens, elems, k) && forall i :: 0 <= i < |order| ==> lens[order[i]] <= top
    ensures Depths(order, lens, elems, k, top) && Overflow(lens, elems, k, top, |order|) == 0
  {
    forall i | 1 <= i < |order|
      ensures lens[order[i]] == Capped(lens[Parent(elems, k, i)], top)
    {
      assert lens[order[i]] == lens[Parent(elems, k, i)] + 1;
    }
    NoneDeep(order, lens, top, |order|);
    OverflowIsDeep(order, lens, lens, elems, k, top, |order|);
  }
}
