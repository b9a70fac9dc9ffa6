/** What breaking ties by height adds: of all cheapest codes, the tree's own has the shortest longest word. So if it is
    too deep for a limit, no code within the limit is a cheapest one. */
module HuffmanHeight {
  import opened Arith
  import opened TreeWeight
  import opened Huffman

  // ----- exchanging lengths -----

  /** With these lengths no subtree, of the height `h` says, reaches down to `limit`. */
  ghost predicate Low(order: seq<int>, h: seq<nat>, lens: seq<nat>, cut: int, m: nat, limit: nat) {
    && |h| == |order| == |lens| && m <= |order|
    && forall p :: Counts(order, cut, m, p) ==> lens[p] + h[p] < limit
  }

  lemma StrictlyCheaper(fa: int, fx: int, la: int, lx: int)
    requires fa < fx && la < lx
    ensures fa * lx - fa * la + fx * la - fx * lx < 0
  {
    Distribute(lx, -la, fa);
    Distribute(lx, -la, fx);
    Distribute(fx, -fa, lx - la);
    MulMono(1, fx - fa, lx - la);
  }

  /** Exchanging lengths with a heavier or, if as heavy, no lower place saves something or keeps everything low. */
  lemma ExchangeLow(order: seq<int>, f: seq<nat>, h: seq<nat>, lens: seq<nat>, cut: int, m: nat, top: nat, a: nat,
                    x: nat,
                    limit: nat)
    requires |f| == |order| && IsCode(order, lens, cut, m, top) && Low(order, h, lens, cut, m, limit)
    requires Counts(order, cut, m, a) && Counts(order, cut, m, x) && lens[a] <= lens[x]
    requires f[a] < f[x] || (f[a] == f[x] && h[a] <= h[x])
    ensures var lens' := lens[a := lens[x]][x := lens[a]];
            CostOf(order, f, lens', cut, m) < CostOf(order, f, lens, cut, m) || Low(order, h, lens', cut, m, limit)
  {
    var one := lens[a := lens[x]];
    if lens[a] == lens[x] {
      assert one[x := lens[a]] == lens;
    } else if f[a] < f[x] {
      Relength(order, f, lens, cut, m, top, a, lens[x]);
      Relength(order, f, one, cut, m, top, x, lens[a]);
      StrictlyCheaper(f[a], f[x], lens[a], lens[x]);
    }
  }

  /** `b` is least by weight and height, and `a` least but for it. */
  ghost predicate Lightest(order: seq<int>, f: seq<nat>, h: seq<nat>, cut: int, m: nat, a: nat, b: nat) {
    && |f| == |h| == |order| && Counts(order, cut, m, a) && Counts(order, cut, m, b) && a != b
    && (forall p :: Counts(order, cut, m, p) ==> NotAbove(f, h, b, p))
    && (forall p :: Counts(order, cut, m, p) && p != b ==> NotAbove(f, h, a, p))
  }

  ghost predicate NotAbove(f: seq<nat>, h: seq<nat>, a: int, p: int) {
    && 0 <= a < |f| && 0 <= p < |f| && |h| == |f|
    && (f[a] < f[p] || (f[a] == f[p] && h[a] <= h[p]))
  }

  /** The two lightest can share a length: that saves something, or nothing gets deeper. */
  lemma LightestSunkLow(order: seq<int>, f: seq<nat>, h: seq<nat>, lens: seq<nat>, cut: int, m: nat, top: nat, a: nat,
                        b: nat, limit: nat)
    returns (lens': seq<nat>)
    requires Lightest(order, f, h, cut, m, a, b) && IsCode(order, lens, cut, m, top)
    requires Low(order, h, lens, cut, m, limit)
    ensures IsCode(order, lens', cut, m, top) && lens'[a] == lens'[b] > 0
    ensures CostOf(order, f, lens', cut, m) <= CostOf(order, f, lens, cut, m)
    ensures CostOf(order, f, lens', cut, m) < CostOf(order, f, lens, cut, m) || Low(order, h, lens', cut, m, limit)
  {
    var x := FindLongest(order, lens, cut, m, a);
    var one, y := TwoLongest(order, f, lens, cut, m, top, x, a, b);
    assert Low(order, h, one, cut, m, limit);
    assert NotAbove(f, h, b, x);
    Exchange(order, f, one, cut, m, top, b, x);
    ExchangeLow(order, f, h, one, cut, m, top, b, x, limit);
    var two := one[b := one[x]][x := one[b]];
    var z := if b == y then x else y;
    assert two[b] == two[z] == one[x];
    assert NotAbove(f, h, a, z);
    Exchange(order, f, two, cut, m, top, a, z);
    if Low(order, h, two, cut, m, limit) {
      ExchangeLow(order, f, h, two, cut, m, top, a, z, limit);
    }
    lens' := two[a := two[z]][z := two[a]];
  }

  // ----- the tree -----

  function Taller(a: nat, b: nat): (r: nat) { if a > b then a else b }

  /** Inner node `elems + k - j` is one level higher than its higher child. */
  ghost predicate Rises(order: seq<int>, height: seq<nat>, elems: nat, k: nat, j: nat) {
    && 0 < j <= k && |order| == 2 * k + 1 && elems + k <= |height|
    && 0 <= order[2 * j - 1] < |height| && 0 <= order[2 * j] < |height|
    && height[elems + k - j] == 1 + Taller(height[order[2 * j - 1]], height[order[2 * j]])
  }

  /** The sibling property with heights: among nodes of one weight the higher come first. */
  ghost predicate Ordered(order: seq<int>, weight: seq<nat>, height: seq<nat>, elems: nat, k: nat) {
    && Siblings(order, weight, elems, k) && |height| == |weight|
    && (forall i :: 0 <= i < |order| && order[i] < elems ==> height[order[i]] == 0)
    && (forall i, j :: 0 <= i < j < |order| ==> NotAbove(weight, height, order[j], order[i]))
    && (forall j :: 0 < j <= k ==> Rises(order, height, elems, k, j))
  }

  lemma LightestAtEnd(order: seq<int>, weight: seq<nat>, height: seq<nat>, elems: nat, k: nat, j: nat)
    requires Ordered(order, weight, height, elems, k) && 0 < j <= k
    ensures Lightest(order, ByPlace(order, weight), ByPlace(order, height), elems + k - j, 2 * j + 1, 2 * j - 1, 2 * j)
  {
    var f, h, cut, m := ByPlace(order, weight), ByPlace(order, height), elems + k - j, 2 * j + 1;
    LightestLast(order, weight, elems, k, j);
    forall p | Counts(order, cut, m, p)
      ensures NotAbove(f, h, 2 * j, p) && (p != 2 * j ==> NotAbove(f, h, 2 * j - 1, p))
    {
      assert p != 2 * j ==> NotAbove(weight, height, order[2 * j], order[p]);
      assert p < 2 * j - 1 ==> NotAbove(weight, height, order[2 * j - 1], order[p]);
    }
  }

  /** A parent with one bit less than its children reaches no deeper than they do. */
  lemma ParentLow(order: seq<int>, weight: seq<nat>, height: seq<nat>, lens: seq<nat>, elems: nat, k: nat, j: nat,
                  p: nat, limit: nat)
    requires Ordered(order, weight, height, elems, k) && 0 < j <= k && p < 2 * j - 1 && order[p] == elems + k - j
    requires Low(order, ByPlace(order, height), lens, elems + k - j, 2 * j + 1, limit)
    requires 0 < lens[2 * j - 1] == lens[2 * j]
    ensures Low(order, ByPlace(order, height), lens[p := lens[2 * j] - 1], elems + k - (j - 1), 2 * j - 1, limit)
  {
    var h, cut := ByPlace(order, height), elems + k - j;
    LightestLast(order, weight, elems, k, j);
    assert Rises(order, height, elems, k, j);
    forall q | Counts(order, cut + 1, 2 * j - 1, q)
      ensures lens[p := lens[2 * j] - 1][q] + h[q] < limit
    {
      assert q != p ==> order[q] != order[p];
      assert q != p ==> Counts(order, cut, 2 * j + 1, q);
    }
  }

  /** One merge undone: a code for the nodes with the parent in place of its children, cheaper by the parent's weight;
      and if it is no cheaper than that, nothing reaches deeper in it. */
  lemma MergeUndone(order: seq<int>, weight: seq<nat>, height: seq<nat>, lens: seq<nat>, elems: nat, k: nat, j: nat,
                    top: nat, limit: nat)
    returns (up: seq<nat>)
    requires Ordered(order, weight, height, elems, k) && 0 < j <= k
    requires IsCode(order, lens, elems + k - j, 2 * j + 1, top)
    requires Low(order, ByPlace(order, height), lens, elems + k - j, 2 * j + 1, limit)
    ensures IsCode(order, up, elems + k - (j - 1), 2 * j - 1, top)
    ensures var f := ByPlace(order, weight);
            var now, before := CostOf(order, f, lens, elems + k - j, 2 * j + 1),
                               CostOf(order, f, up, elems + k - (j - 1), 2 * j - 1) + weight[elems + k - j];
            now > before || (now >= before && Low(order, ByPlace(order, height), up, elems + k - (j - 1), 2 * j - 1,
                limit))
  {
    var f, h, cut, m := ByPlace(order, weight), ByPlace(order, height), elems + k - j, 2 * j + 1;
    LightestAtEnd(order, weight, height, elems, k, j);
    var sunk := LightestSunkLow(order, f, h, lens, cut, m, top, 2 * j - 1, 2 * j, limit);
    var p;
    up, p := ParentCode(order, weight, sunk, elems, k, j, top);
    if Low(order, h, sunk, cut, m, limit) {
      ParentLow(order, weight, height, sunk, elems, k, j, p, limit);
    }
  }

  /** The root alone is as high as the tree. */
  lemma RootNotLow(order: seq<int>, weight: seq<nat>, height: seq<nat>, lens: seq<nat>, elems: nat, k: nat)
    requires Ordered(order, weight, height, elems, k)
    ensures !Low(order, ByPlace(order, height), lens, elems + k, 1, height[elems + k - 1])
  {
    assert Counts(order, elems + k, 1, 0);
  }

  /** A code that stays above the height of the whole tree costs more than the merges add up to. */
  lemma {:induction false} MoreThanInner(order: seq<int>, weight: seq<nat>, height: seq<nat>, lens: seq<nat>,
                                         elems: nat,
                                         k: nat, j: nat, top: nat)
    requires Ordered(order, weight, height, elems, k) && 0 < j <= k
    requires IsCode(order, lens, elems + k - j, 2 * j + 1, top)
    requires Low(order, ByPlace(order, height), lens, elems + k - j, 2 * j + 1, height[elems + k - 1])
    ensures CostOf(order, ByPlace(order, weight), lens, elems + k - j, 2 * j + 1) > InnerWeight(weight, elems, k, j)
    decreases j
  {
    var up := MergeUndone(order, weight, height, lens, elems, k, j, top, height[elems + k - 1]);
    RootNotLow(order, weight, height, up, elems, k);
    if j > 1 && Low(order, ByPlace(order, height), up, elems + k - (j - 1), 2 * j - 1, height[elems + k - 1]) {
      MoreThanInner(order, weight, height, up, elems, k, j - 1, top);
    } else {
      AtLeastInner(order, weight, up, elems, k, j - 1, top);
    }
  }

  /** If the tree is higher than `top`, every code of lengths up to `top` costs more than the leaf depths. */
  lemma LimitedCostsMore(order: seq<int>, weight: seq<nat>, height: seq<nat>, lens: seq<nat>, elems: nat, k: nat,
                         rival: seq<nat>, top: nat)
    requires Ordered(order, weight, height, elems, k) && TrueDepths(order, lens, elems, k)
    requires Rival(order, rival, elems, top) && top < height[elems + k - 1]
    requires forall v :: 0 <= v < elems && v !in order ==> weight[v] == 0
    ensures Total(weight, lens, elems) < Total(weight, rival, elems)
  {
    DepthsTotal(order, weight, lens, elems, k);
    CostBySymbol(order, weight, rival, elems, elems);
    RivalIsCode(order, rival, elems, k, top);
    MoreThanInner(order, weight, height, AtPlaces(order, rival, elems), elems, k, k, top);
  }

  /** A node's depth and its height make up at most the height of the tree. */
  lemma {:induction false} DepthAndHeight(order: seq<int>, weight: seq<nat>, height: seq<nat>, lens: seq<nat>,
                                          elems: nat,
                                          k: nat, a: nat)
    requires Ordered(order, weight, height, elems, k) && TrueDepths(order, lens, elems, k) && a < |order|
    ensures lens[order[a]] + height[order[a]] <= height[elems + k - 1]
    decreases a
  {
    if a > 0 {
      var j := (a + 1) / 2;
      assert Parent(elems, k, a) == elems + k - j;
      assert Rises(order, height, elems, k, j);
      var p := InnerPlace(order, elems, k, k - j);
      DepthAndHeight(order, weight, height, lens, elems, k, p);
    }
  }
}
