/** The Huffman tree as `build_tree` leaves it in the tail of its heap array: the
    root, then the two children of each inner node, newest node first. */
module TreeWeight {
  import opened Powers

  /** The inner node whose children stand at place `i`; there are `k` of them from `elems` on. */
  function Parent(elems: nat, k: nat, i: nat): (r: int) {
    elems + k - 1 - (i - 1) / 2
  }

  ghost predicate Distinct(order: seq<int>) {
    forall i, j :: 0 <= i < j < |order| ==> order[i] != order[j]
  }

  /** A full binary tree with `k` inner nodes, listed parents before children. */
  ghost predicate IsTree(order: seq<int>, elems: nat, k: nat) {
    && k > 0 && |order| == 2 * k + 1 && Distinct(order)
    && order[0] == elems + k - 1
    && (forall i {:trigger order[i]} :: 1 <= i < |order| ==> 0 <= order[i] < Parent(elems, k, i))
    && (forall y :: elems <= y < elems + k ==> y in order)
  }

  /** Parents are inner nodes. */
  lemma InnerAbove(order: seq<int>, elems: nat, k: nat, a: nat)
    requires IsTree(order, elems, k) && 1 <= a < |order|
    ensures elems <= Parent(elems, k, a) < elems + k
  {
  }

  lemma TreeIndexes(order: seq<int>, elems: nat, k: nat)
    requires IsTree(order, elems, k)
    ensures forall i :: 0 <= i < |order| ==> 0 <= order[i] < elems + k
  {
    forall i | 0 <= i < |order|
      ensures 0 <= order[i] < elems + k
    {
      if i > 0 {
        assert order[i] < Parent(elems, k, i);
      }
    }
  }

  /** Depths cut off at `top`: the root has 0, every child one more than its parent. */
  ghost predicate Depths(order: seq<int>, lens: seq<int>, elems: nat, k: nat, top: nat)
    requires IsTree(order, elems, k)
  {
    && elems + k <= |lens|
    && (forall i :: 0 <= i < |order| ==> order[i] < |lens|)
    && lens[elems + k - 1] == 0
    && (forall i {:trigger order[i]} :: 1 <= i < |order| ==>
          lens[order[i]] == Capped(lens[Parent(elems, k, i)], top))
  }

  function Capped(len: int, top: nat): int {
    if len + 1 > top then top else len + 1
  }

  /** Nodes whose depth was cut off, among the first `m` places. */
  ghost function Overflow(lens: seq<int>, elems: nat, k: nat, top: nat, m: nat): (r: nat)
    requires elems + k <= |lens| && m <= 2 * k + 1
    decreases m
  {
    if m <= 1 then 0
    else Overflow(lens, elems, k, top, m - 1) + if lens[Parent(elems, k, m - 1)] + 1 > top then 1 else 0
  }

  /** The weight of the first `m` places that hold a node below `cut`. */
  ghost function Below(order: seq<int>, w: seq<int>, cut: int, m: nat): (r: int)
    requires m <= |order| == |w|
  {
    if m == 0 then 0 else Below(order, w, cut, m - 1) + if order[m - 1] < cut then w[m - 1] else 0
  }

  /** Lowering the cut by one leaves out exactly the one node there. */
  lemma {:induction false} BelowLower(order: seq<int>, w: seq<int>, cut: int, m: nat, p: nat)
    requires m <= |order| == |w| && Distinct(order) && p < |order| && order[p] == cut - 1
    ensures Below(order, w, cut, m) == Below(order, w, cut - 1, m) + if p < m then w[p] else 0
    decreases m
  {
    if m > 0 {
      BelowLower(order, w, cut, m - 1, p);
    }
  }

  /** Where inner node number `y` stands: before its own children. */
  lemma InnerPlace(order: seq<int>, elems: nat, k: nat, y: nat) returns (p: nat)
    requires IsTree(order, elems, k) && y < k
    ensures p < |order| && order[p] == elems + y && p <= 2 * (k - 1 - y)
  {
    assert elems + y in order;
    p :| 0 <= p < |order| && order[p] == elems + y;
    if p > 0 {
      assert order[p] < Parent(elems, k, p);
    }
  }

  /** What a node at depth `len` weighs, in units of the deepest level. */
  ghost function Weights(order: seq<int>, lens: seq<int>, top: nat): (w: seq<int>)
    requires forall i :: 0 <= i < |order| ==> 0 <= order[i] < |lens|
    ensures |w| == |order|
  {
    seq(|order|, i requires 0 <= i < |order| =>
      var len := lens[order[i]];
      if 0 <= len <= top then Pow2(top - len) else 0)
  }

  /** Which places hold a node of length `b`. */
  ghost function OfLength(order: seq<int>, lens: seq<int>, b: nat): (w: seq<int>)
    requires forall i :: 0 <= i < |order| ==> 0 <= order[i] < |lens|
    ensures |w| == |order|
  {
    seq(|order|, i requires 0 <= i < |order| => if lens[order[i]] == b then 1 else 0)
  }

  ghost predicate Ranged(order: seq<int>, lens: seq<int>, top: nat)
    requires forall i :: 0 <= i < |order| ==> 0 <= order[i] < |lens|
  {
    forall i :: 0 <= i < |order| ==> 0 <= lens[order[i]] <= top
  }

  lemma {:induction false} DepthsRanged(order: seq<int>, lens: seq<int>, elems: nat, k: nat, top: nat, m: nat)
    requires IsTree(order, elems, k) && Depths(order, lens, elems, k, top) && m <= k
    ensures forall i :: 0 <= i < 2 * m + 1 ==> 0 <= lens[order[i]] <= top
    decreases m
  {
    if m > 0 {
      DepthsRanged(order, lens, elems, k, top, m - 1);
      var p := InnerPlace(order, elems, k, k - m);
      assert Parent(elems, k, 2 * m - 1) == elems + k - m == Parent(elems, k, 2 * m);
      assert order[p] == elems + k - m && p < 2 * m - 1;
      assert lens[order[2 * m - 1]] == Capped(lens[elems + k - m], top);
      assert lens[order[2 * m]] == Capped(lens[elems + k - m], top);
    }
  }

  /** Two children weigh as much as their parent, or one unit more at the cut-off. */
  lemma SplitWeight(len: nat, top: nat)
    requires len <= top
    ensures 0 <= Capped(len, top) <= top
    ensures 2 * Pow2(top - Capped(len, top)) == Pow2(top - len) + if len + 1 > top then 1 else 0
  {
    assert Pow2(0) == 1;
  }

  /** With the newest `j` inner nodes expanded into their children, the frontier
      weighs a full level plus half the overflow so far. */
  lemma {:induction false} FrontierWeight(order: seq<int>, lens: seq<int>, elems: nat, k: nat, top: nat, j: nat)
    requires IsTree(order, elems, k) && Depths(order, lens, elems, k, top)
    requires Ranged(order, lens, top) && j <= k
    ensures Overflow(lens, elems, k, top, 2 * j + 1) % 2 == 0
    ensures Below(order, Weights(order, lens, top), elems + k - j, 2 * j + 1) ==
            Pow2(top) + Overflow(lens, elems, k, top, 2 * j + 1) / 2
    decreases j
  {
    var w := Weights(order, lens, top);
    if j == 0 {
      assert Below(order, w, elems + k, 1) == Below(order, w, elems + k, 0) + w[0];
    } else {
      FrontierWeight(order, lens, elems, k, top, j - 1);
      var p := ExpandNode(order, lens, w, elems, k, top, j);
      SplitWeight(lens[order[p]], top);
      assert w[p] == Pow2(top - lens[order[p]]);
    }
  }

  /** One expansion step, for any weights. */
  lemma ExpandNode(order: seq<int>, lens: seq<int>, w: seq<int>, elems: nat, k: nat, top: nat, j: nat)
    returns (p: nat)
    requires IsTree(order, elems, k) && Depths(order, lens, elems, k, top) && |w| == |order| && 0 < j <= k
    ensures p < |order| && order[p] == elems + k - j
    ensures Below(order, w, elems + k - j, 2 * j + 1) ==
            Below(order, w, elems + k - (j - 1), 2 * j - 1) - w[p] + w[2 * j - 1] + w[2 * j]
    ensures lens[order[2 * j - 1]] == lens[order[2 * j]] == Capped(lens[elems + k - j], top)
    ensures Overflow(lens, elems, k, top, 2 * j + 1) ==
            Overflow(lens, elems, k, top, 2 * j - 1) + if lens[elems + k - j] + 1 > top then 2 else 0
  {
    var cut := elems + k - j;
    p := InnerPlace(order, elems, k, k - j);
    assert Parent(elems, k, 2 * j - 1) == cut == Parent(elems, k, 2 * j);
    BelowLower(order, w, cut + 1, 2 * j - 1, p);
    assert order[2 * j - 1] < cut && order[2 * j] < cut;
    assert Below(order, w, cut, 2 * j + 1) == Below(order, w, cut, 2 * j) + w[2 * j];
    assert Below(order, w, cut, 2 * j) == Below(order, w, cut, 2 * j - 1) + w[2 * j - 1];
    assert Overflow(lens, elems, k, top, 2 * j + 1) ==
      Overflow(lens, elems, k, top, 2 * j) + if lens[cut] + 1 > top then 1 else 0;
  }

  /** If anything overflowed, more nodes than half the overflow stand at the deepest level. */
  lemma {:induction false} FrontierDeepest(order: seq<int>, lens: seq<int>, elems: nat, k: nat, top: nat, j: nat)
    requires IsTree(order, elems, k) && Depths(order, lens, elems, k, top)
    requires Ranged(order, lens, top) && j <= k
    ensures Overflow(lens, elems, k, top, 2 * j + 1) % 2 == 0
    ensures Below(order, OfLength(order, lens, top), elems + k - j, 2 * j + 1) >=
            if Overflow(lens, elems, k, top, 2 * j + 1) == 0 then 0
            else Overflow(lens, elems, k, top, 2 * j + 1) / 2 + 1
    decreases j
  {
    var w := OfLength(order, lens, top);
    if j > 0 {
      FrontierDeepest(order, lens, elems, k, top, j - 1);
      var p := ExpandNode(order, lens, w, elems, k, top, j);
      if lens[elems + k - j] + 1 > top {
        DeepestHas(order, lens, elems, k, top, j);
      }
    }
  }

  /** A frontier holding a deepest node weighs at least one. */
  lemma DeepestHas(order: seq<int>, lens: seq<int>, elems: nat, k: nat, top: nat, j: nat)
    requires IsTree(order, elems, k) && Depths(order, lens, elems, k, top) && Ranged(order, lens, top) && 0 < j <= k
    requires lens[elems + k - j] == top
    ensures Below(order, OfLength(order, lens, top), elems + k - (j - 1), 2 * j - 1) >= 1
  {
    var w := OfLength(order, lens, top);
    var p := InnerPlace(order, elems, k, k - j);
    BelowAtLeast(order, w, elems + k - (j - 1), 2 * j - 1, p);
  }

  lemma {:induction false} BelowAtLeast(order: seq<int>, w: seq<int>, cut: int, m: nat, p: nat)
    requires m <= |order| == |w| && p < |w| && order[p] < cut && forall i :: 0 <= i < |w| ==> w[i] >= 0
    ensures Below(order, w, cut, m) >= if p < m then w[p] else 0
    decreases m
  {
    if m > 0 {
      BelowAtLeast(order, w, cut, m - 1, p);
    }
  }

  /** The leaves of a depth-capped tree: their weight, and how many sit at the bottom. */
  lemma LeafWeight(order: seq<int>, lens: seq<int>, elems: nat, k: nat, top: nat)
    requires IsTree(order, elems, k) && Depths(order, lens, elems, k, top)
    ensures Ranged(order, lens, top)
    ensures Overflow(lens, elems, k, top, 2 * k + 1) % 2 == 0
    ensures Below(order, Weights(order, lens, top), elems, 2 * k + 1) ==
            Pow2(top) + Overflow(lens, elems, k, top, 2 * k + 1) / 2
    ensures Overflow(lens, elems, k, top, 2 * k + 1) > 0 ==>
              Below(order, OfLength(order, lens, top), elems, 2 * k + 1) > Overflow(lens, elems, k, top, 2 * k + 1) / 2
  {
    DepthsRanged(order, lens, elems, k, top, k);
    FrontierWeight(order, lens, elems, k, top, k);
    FrontierDeepest(order, lens, elems, k, top, k);
  }
}
