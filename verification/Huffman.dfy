/** Why merging the two lightest nodes is best. A tree with the sibling property, its nodes
    listed by falling weight, costs no more than any other code for the same leaves. */
module Huffman {
  import opened Arith
  import opened Powers
  import opened PrefixCode
  import opened TreeWeight

  // ----- codes over some of the places of a list -----

  /** Place `p` counts: it is among the first `m`, and its node lies below `cut`. */
  ghost predicate Counts(order: seq<int>, cut: int, m: nat, p: int) {
    0 <= p < m <= |order| && order[p] < cut
  }

  /** What each place costs with these lengths. */
  ghost function Costs(f: seq<nat>, lens: seq<nat>): (w: seq<int>)
    requires |f| == |lens|
    ensures |w| == |f|
  {
    seq(|f|, i requires 0 <= i < |f| => f[i] * lens[i])
  }

  /** The code space each place takes, in units of 2^-top. */
  ghost function Spaces(lens: seq<nat>, top: nat): (w: seq<int>)
    ensures |w| == |lens| && forall i :: 0 <= i < |w| ==> w[i] >= 0
  {
    seq(|lens|, i requires 0 <= i < |lens| => if lens[i] <= top then Pow2(top - lens[i]) else 0)
  }

  /** Lengths of at most `top` for the places that count, within the code space. */
  ghost predicate IsCode(order: seq<int>, lens: seq<nat>, cut: int, m: nat, top: nat) {
    && |lens| == |order| && m <= |order| && (forall p :: Counts(order, cut, m, p) ==> lens[p] <= top)
    && Below(order, Spaces(lens, top), cut, m) <= Pow2(top)
  }

  ghost function CostOf(order: seq<int>, f: seq<nat>, lens: seq<nat>, cut: int, m: nat): (r: int)
    requires |f| == |lens| == |order| && m <= |order|
  {
    Below(order, Costs(f, lens), cut, m)
  }

  lemma {:induction false} BelowSet(order: seq<int>, w: seq<int>, cut: int, m: nat, p: nat, v: int)
    requires m <= |order| == |w| && p < |w|
    ensures Below(order, w[p := v], cut, m) == Below(order, w, cut, m) + if Counts(order, cut, m, p) then v - w[p]
            else 0
  {
    if m > 0 {
      BelowSet(order, w, cut, m - 1, p, v);
    }
  }

  /** One place gets another length. */
  lemma Relength(order: seq<int>, f: seq<nat>, lens: seq<nat>, cut: int, m: nat, top: nat, p: nat, l: nat)
    requires |f| == |lens| == |order| && Counts(order, cut, m, p) && l <= top && lens[p] <= top
    ensures CostOf(order, f, lens[p := l], cut, m) == CostOf(order, f, lens, cut, m) + f[p] * l - f[p] * lens[p]
    ensures Below(order, Spaces(lens[p := l], top), cut, m) ==
            Below(order, Spaces(lens, top), cut, m) + Pow2(top - l) - Pow2(top - lens[p])
  {
    BelowSet(order, Costs(f, lens), cut, m, p, f[p] * l);
    assert Costs(f, lens[p := l]) == Costs(f, lens)[p := f[p] * l];
    BelowSet(order, Spaces(lens, top), cut, m, p, Pow2(top - l));
    assert Spaces(lens[p := l], top) == Spaces(lens, top)[p := Pow2(top - l)];
  }

  lemma Rearrange(fa: int, fx: int, la: int, lx: int)
    requires fa <= fx && la <= lx
    ensures fa * lx - fa * la + fx * la - fx * lx <= 0
  {
    Distribute(lx, -la, fa);
    Distribute(lx, -la, fx);
    MulMono(fa, fx, lx - la);
  }

  /** Giving the lighter of two places the longer of their lengths costs no more. */
  lemma Exchange(order: seq<int>, f: seq<nat>, lens: seq<nat>, cut: int, m: nat, top: nat, a: nat, x: nat)
    requires |f| == |order| && IsCode(order, lens, cut, m, top)
    requires Counts(order, cut, m, a) && Counts(order, cut, m, x) && f[a] <= f[x] && lens[a] <= lens[x]
    ensures IsCode(order, lens[a := lens[x]][x := lens[a]], cut, m, top)
    ensures CostOf(order, f, lens[a := lens[x]][x := lens[a]], cut, m) <= CostOf(order, f, lens, cut, m)
  {
    var one := lens[a := lens[x]];
    if a == x {
      assert one[x := lens[a]] == lens;
    } else {
      Relength(order, f, lens, cut, m, top, a, lens[x]);
      Relength(order, f, one, cut, m, top, x, lens[a]);
      Rearrange(f[a], f[x], lens[a], lens[x]);
    }
  }

  // ----- two longest codes -----

  /** `x` has a longest code. */
  ghost predicate Longest(order: seq<int>, lens: seq<nat>, cut: int, m: nat, x: nat) {
    && |lens| == |order| && Counts(order, cut, m, x)
    && forall p :: Counts(order, cut, m, p) ==> lens[p] <= lens[x]
  }

  lemma {:induction false} FindLongest(order: seq<int>, lens: seq<nat>, cut: int, m: nat, a: nat) returns (x: nat)
    requires |lens| == |order| && Counts(order, cut, m, a)
    ensures Longest(order, lens, cut, m, x)
    decreases m
  {
    assert forall p :: Counts(order, cut, m, p) ==> Counts(order, cut, m - 1, p) || p == m - 1;
    var n := m - 1;
    x := a;
    if p :| Counts(order, cut, n, p) {
      x := FindLongest(order, lens, cut, n, p);
      if order[n] < cut && lens[n] > lens[x] {
        x := n;
      }
    }
  }

  lemma TwiceSpace(top: nat, len: nat, l: nat)
    requires l < len <= top
    ensures Pow2(top - l) == 2 * Pow2(top - len) * Pow2(len - 1 - l)
  {
    Pow2Add(top - len, len - l);
    Associate(Pow2(top - len), 2, Pow2(len - 1 - l));
  }

  /** A shorter code takes some double shares of the longest. */
  lemma OneMoreShare(top: nat, len: nat, l: nat, q: nat) returns (q': nat)
    requires l < len <= top
    ensures 2 * Pow2(top - len) * q' == 2 * Pow2(top - len) * q + Pow2(top - l)
  {
    TwiceSpace(top, len, l);
    q' := q + Pow2(len - 1 - l);
    Distribute(q, Pow2(len - 1 - l), 2 * Pow2(top - len));
  }

  /** With a single longest code, the space taken is an odd number of the smallest shares. */
  lemma {:induction false} OddSpace(order: seq<int>, lens: seq<nat>, cut: int, m: nat, top: nat, x: nat)
    returns (q: nat)
    requires |lens| == |order| && m <= |order| && x < |order| && lens[x] <= top && order[x] < cut
    requires forall p :: Counts(order, cut, m, p) && p != x ==> lens[p] < lens[x]
    ensures Below(order, Spaces(lens, top), cut, m) == 2 * Pow2(top - lens[x]) * q + if x < m
            then Pow2(top - lens[x]) else 0
    decreases m
  {
    q := 0;
    if m > 0 {
      assert forall p :: Counts(order, cut, m - 1, p) ==> Counts(order, cut, m, p);
      q := OddSpace(order, lens, cut, m - 1, top, x);
      if order[m - 1] < cut && m - 1 != x {
        assert Counts(order, cut, m, m - 1);
        q := OneMoreShare(top, lens[x], lens[m - 1], q);
      }
    }
  }

  lemma OddBelowEven(u: nat, q: nat, r: nat)
    requires u > 0 && 2 * u * q + u <= 2 * u * r
    ensures 2 * u * q + u + u <= 2 * u * r
  {
    MulLess(q, r, 2 * u);
    MulMono(q + 1, r, 2 * u);
    Distribute(q, 1, 2 * u);
  }

  /** A single longest code can be made one bit shorter. */
  lemma RoomToShorten(order: seq<int>, lens: seq<nat>, cut: int, m: nat, top: nat, x: nat)
    requires IsCode(order, lens, cut, m, top) && Counts(order, cut, m, x) && lens[x] > 0
    requires forall p :: Counts(order, cut, m, p) && p != x ==> lens[p] < lens[x]
    ensures Below(order, Spaces(lens, top), cut, m) + Pow2(top - lens[x]) <= Pow2(top)
  {
    var q := OddSpace(order, lens, cut, m, top, x);
    TwiceSpace(top, lens[x], 0);
    OddBelowEven(Pow2(top - lens[x]), q, Pow2(lens[x] - 1));
  }

  /** Two codes cannot both have length 0. */
  lemma NotAllZero(order: seq<int>, lens: seq<nat>, cut: int, m: nat, top: nat, a: nat, b: nat)
    requires IsCode(order, lens, cut, m, top) && Counts(order, cut, m, a) && Counts(order, cut, m, b) && a != b
    ensures lens[a] > 0 || lens[b] > 0
  {
    var w := Spaces(lens, top);
    BelowSet(order, w, cut, m, a, 0);
    BelowAtLeast(order, w[a := 0], cut, m, b);
  }

  /** A code no dearer than `lens` in which two places share the longest length. */
  lemma {:induction false} TwoLongest(order: seq<int>, f: seq<nat>, lens: seq<nat>, cut: int, m: nat, top: nat, x: nat,
                                      a: nat, b: nat)
    returns (lens': seq<nat>, y: nat)
    requires |f| == |order| && IsCode(order, lens, cut, m, top) && Longest(order, lens, cut, m, x)
    requires Counts(order, cut, m, a) && Counts(order, cut, m, b) && a != b
    ensures IsCode(order, lens', cut, m, top) && CostOf(order, f, lens', cut, m) <= CostOf(order, f, lens, cut, m)
    ensures Longest(order, lens', cut, m, x) && Counts(order, cut, m, y) && y != x && lens'[y] == lens'[x] > 0
    ensures forall p :: 0 <= p < |lens| ==> lens'[p] <= lens[p]
    decreases lens[x]
  {
    NotAllZero(order, lens, cut, m, top, a, b);
    if p :| Counts(order, cut, m, p) && p != x && lens[p] == lens[x] {
      lens', y := lens, p;
    } else {
      assert lens[x] > 0;
      RoomToShorten(order, lens, cut, m, top, x);
      Relength(order, f, lens, cut, m, top, x, lens[x] - 1);
      assert Pow2(top - (lens[x] - 1)) == 2 * Pow2(top - lens[x]);
      Distribute(lens[x] - 1, 1, f[x]);
      lens', y := TwoLongest(order, f, lens[x := lens[x] - 1], cut, m, top, x, a, b);
    }
  }

  /** The two lightest places can share a length that is not zero, at no extra cost. */
  lemma LightestSunk(order: seq<int>, f: seq<nat>, lens: seq<nat>, cut: int, m: nat, top: nat, a: nat, b: nat)
    returns (lens': seq<nat>)
    requires |f| == |order| && IsCode(order, lens, cut, m, top)
    requires Counts(order, cut, m, a) && Counts(order, cut, m, b) && a != b
    requires forall p :: Counts(order, cut, m, p) ==> f[b] <= f[p] && (p != b ==> f[a] <= f[p])
    ensures IsCode(order, lens', cut, m, top) && CostOf(order, f, lens', cut, m) <= CostOf(order, f, lens, cut, m)
    ensures lens'[a] == lens'[b] > 0
  {
    var x := FindLongest(order, lens, cut, m, a);
    var one, y := TwoLongest(order, f, lens, cut, m, top, x, a, b);
    Exchange(order, f, one, cut, m, top, b, x);
    var two := one[b := one[x]][x := one[b]];
    var z := if b == y then x else y;
    assert two[b] == two[z] == one[x];
    Exchange(order, f, two, cut, m, top, a, z);
    lens' := two[a := two[z]][z := two[a]];
  }

  // ----- the tree -----

  /** Node weights by place. */
  ghost function ByPlace(order: seq<int>, weight: seq<nat>): (f: seq<nat>)
    requires forall i :: 0 <= i < |order| ==> 0 <= order[i] < |weight|
    ensures |f| == |order|
  {
    seq(|order|, i requires 0 <= i < |order| => weight[order[i]])
  }

  /** Inner node `elems + k - j` weighs what its two children weigh. */
  ghost predicate Weighs(order: seq<int>, weight: seq<nat>, elems: nat, k: nat, j: nat) {
    && 0 < j <= k && |order| == 2 * k + 1 && elems + k <= |weight|
    && 0 <= order[2 * j - 1] < |weight| && 0 <= order[2 * j] < |weight|
    && weight[elems + k - j] == weight[order[2 * j - 1]] + weight[order[2 * j]]
  }

  /** The sibling property: nodes are listed by falling weight, children side by side. */
  ghost predicate Siblings(order: seq<int>, weight: seq<nat>, elems: nat, k: nat) {
    && IsTree(order, elems, k) && elems + k <= |weight| && (forall i :: 0 <= i < |order| ==> 0 <= order[i] < |weight|)
    && (forall i, j :: 0 <= i < j < |order| ==> weight[order[i]] >= weight[order[j]])
    && (forall j :: 0 < j <= k ==> Weighs(order, weight, elems, k, j))
  }

  /** What the newest `j` inner nodes weigh together. */
  ghost function InnerWeight(weight: seq<nat>, elems: nat, k: nat, j: nat): (r: nat)
    requires j <= k && elems + k <= |weight|
  {
    if j == 0 then 0 else InnerWeight(weight, elems, k, j - 1) + weight[elems + k - j]
  }

  /** Replacing the two children at places 2j-1 and 2j by their parent. */
  lemma ReplacedByParent(order: seq<int>, w: seq<int>, elems: nat, k: nat, j: nat) returns (p: nat)
    requires IsTree(order, elems, k) && |w| == |order| && 0 < j <= k
    ensures p < 2 * j - 1 && order[p] == elems + k - j && order[2 * j - 1] < elems + k - j
    ensures order[2 * j] < elems + k - j
    ensures Below(order, w, elems + k - j, 2 * j + 1) ==
            Below(order, w, elems + k - (j - 1), 2 * j - 1) - w[p] + w[2 * j - 1] + w[2 * j]
  {
    var cut := elems + k - j;
    p := InnerPlace(order, elems, k, k - j);
    assert Parent(elems, k, 2 * j - 1) == cut == Parent(elems, k, 2 * j);
    BelowLower(order, w, cut + 1, 2 * j - 1, p);
    assert order[2 * j - 1] < cut && order[2 * j] < cut;
    assert Below(order, w, cut, 2 * j + 1) == Below(order, w, cut, 2 * j) + w[2 * j];
    assert Below(order, w, cut, 2 * j) == Below(order, w, cut, 2 * j - 1) + w[2 * j - 1];
  }

  lemma {:induction false} BelowFrame(order: seq<int>, w: seq<int>, w': seq<int>, cut: int, m: nat)
    requires m <= |order| == |w| == |w'| && forall p :: Counts(order, cut, m, p) ==> w[p] == w'[p]
    ensures Below(order, w, cut, m) == Below(order, w', cut, m)
  {
    if m > 0 {
      assert forall p :: Counts(order, cut, m - 1, p) ==> Counts(order, cut, m, p);
      assert order[m - 1] < cut ==> Counts(order, cut, m, m - 1);
      BelowFrame(order, w, w', cut, m - 1);
    }
  }

  /** Two children replaced by their parent: what they weigh more than it comes out as a difference. */
  lemma ParentSum(order: seq<int>, w: seq<int>, elems: nat, k: nat, j: nat, p: nat, x: int)
    requires IsTree(order, elems, k) && |w| == |order| && 0 < j <= k && p < 2 * j - 1 && order[p] == elems + k - j
    ensures Below(order, w[p := x], elems + k - (j - 1), 2 * j - 1) ==
            Below(order, w, elems + k - j, 2 * j + 1) + x - w[2 * j - 1] - w[2 * j]
  {
    var q := ReplacedByParent(order, w[p := x], elems, k, j);
    assert q == p;
    BelowSet(order, w, elems + k - j, 2 * j + 1, p, x);
  }

  /** Children of one length take the space their parent takes with one bit less. */
  lemma ParentSpace(order: seq<int>, lens: seq<nat>, elems: nat, k: nat, j: nat, top: nat, p: nat)
    requires IsTree(order, elems, k) && |lens| == |order| && 0 < j <= k && p < 2 * j - 1 && order[p] == elems + k - j
    requires 0 < lens[2 * j - 1] == lens[2 * j] <= top
    ensures Below(order, Spaces(lens[p := lens[2 * j] - 1], top), elems + k - (j - 1), 2 * j - 1) ==
            Below(order, Spaces(lens, top), elems + k - j, 2 * j + 1)
  {
    var l := lens[2 * j];
    ParentSum(order, Spaces(lens, top), elems, k, j, p, Pow2(top - (l - 1)));
    assert Spaces(lens[p := l - 1], top) == Spaces(lens, top)[p := Pow2(top - (l - 1))];
    assert Pow2(top - (l - 1)) == 2 * Pow2(top - l);
  }

  lemma SumTimes(a: nat, b: nat, l: nat)
    requires l > 0
    ensures a * l + b * l == (a + b) * (l - 1) + (a + b)
  {
    Distribute(a, b, l);
    Distribute(l - 1, 1, a + b);
  }

  /** ... and cost what their parent weighs more than it costs then. */
  lemma ParentCost(order: seq<int>, f: seq<nat>, lens: seq<nat>, elems: nat, k: nat, j: nat, p: nat)
    requires IsTree(order, elems, k) && |lens| == |order| == |f| && 0 < j <= k && p < 2 * j - 1
    requires order[p] == elems + k - j
    requires 0 < lens[2 * j - 1] == lens[2 * j] && f[p] == f[2 * j - 1] + f[2 * j]
    ensures CostOf(order, f, lens[p := lens[2 * j] - 1], elems + k - (j - 1), 2 * j - 1) + f[p] ==
            CostOf(order, f, lens, elems + k - j, 2 * j + 1)
  {
    var l := lens[2 * j];
    ParentSum(order, Costs(f, lens), elems, k, j, p, f[p] * (l - 1));
    assert Costs(f, lens[p := l - 1]) == Costs(f, lens)[p := f[p] * (l - 1)];
    SumTimes(f[2 * j - 1], f[2 * j], l);
  }

  /** From a code in which the two children share a length to one in which their parent has one bit less. */
  lemma ParentCode(order: seq<int>, weight: seq<nat>, lens: seq<nat>, elems: nat, k: nat, j: nat, top: nat)
    returns (lens': seq<nat>, p: nat)
    requires Siblings(order, weight, elems, k) && 0 < j <= k && IsCode(order, lens, elems + k - j, 2 * j + 1, top)
    requires lens[2 * j - 1] == lens[2 * j] > 0
    ensures p < 2 * j - 1 && order[p] == elems + k - j && lens' == lens[p := lens[2 * j] - 1]
    ensures IsCode(order, lens', elems + k - (j - 1), 2 * j - 1, top)
    ensures CostOf(order, ByPlace(order, weight), lens', elems + k - (j - 1), 2 * j - 1) + weight[elems + k - j] ==
            CostOf(order, ByPlace(order, weight), lens, elems + k - j, 2 * j + 1)
  {
    var cut := elems + k - j;
    p := ReplacedByParent(order, Spaces(lens, top), elems, k, j);
    lens' := lens[p := lens[2 * j] - 1];
    assert Weighs(order, weight, elems, k, j);
    assert Counts(order, cut, 2 * j + 1, 2 * j);
    ParentSpace(order, lens, elems, k, j, top, p);
    ParentCost(order, ByPlace(order, weight), lens, elems, k, j, p);
    forall q | Counts(order, cut + 1, 2 * j - 1, q)
      ensures lens'[q] <= top
    {
      assert q != p ==> order[q] != order[p];
      assert q != p ==> Counts(order, cut, 2 * j + 1, q);
    }
  }

  lemma LightestLast(order: seq<int>, weight: seq<nat>, elems: nat, k: nat, j: nat)
    requires Siblings(order, weight, elems, k) && 0 < j <= k
    ensures var f, m, cut := ByPlace(order, weight), 2 * j + 1, elems + k - j;
            && Counts(order, cut, m, 2 * j - 1) && Counts(order, cut, m, 2 * j)
            && forall p :: Counts(order, cut, m, p) ==> f[2 * j] <= f[p] && (p != 2 * j ==> f[2 * j - 1] <= f[p])
  {
    assert Parent(elems, k, 2 * j - 1) == elems + k - j == Parent(elems, k, 2 * j);
    assert order[2 * j - 1] < elems + k - j && order[2 * j] < elems + k - j;
  }

  lemma {:induction false} NonNegative(order: seq<int>, w: seq<int>, cut: int, m: nat)
    requires m <= |order| == |w| && forall i :: 0 <= i < |w| ==> w[i] >= 0
    ensures Below(order, w, cut, m) >= 0
  {
    if m > 0 {
      NonNegative(order, w, cut, m - 1);
    }
  }

  /** One merge undone: a code for the nodes with the parent in place of its children, cheaper by at least what it
      weighs. */
  lemma Undone(order: seq<int>, weight: seq<nat>, lens: seq<nat>, elems: nat, k: nat, j: nat, top: nat)
    returns (up: seq<nat>)
    requires Siblings(order, weight, elems, k) && 0 < j <= k && IsCode(order, lens, elems + k - j, 2 * j + 1, top)
    ensures IsCode(order, up, elems + k - (j - 1), 2 * j - 1, top)
    ensures CostOf(order, ByPlace(order, weight), up, elems + k - (j - 1), 2 * j - 1) + weight[elems + k - j] <=
            CostOf(order, ByPlace(order, weight), lens, elems + k - j, 2 * j + 1)
  {
    LightestLast(order, weight, elems, k, j);
    var sunk := LightestSunk(order, ByPlace(order, weight), lens, elems + k - j, 2 * j + 1, top, 2 * j - 1, 2 * j);
    var p;
    up, p := ParentCode(order, weight, sunk, elems, k, j, top);
  }

  /** No code for the nodes before their last `k - j` merges costs less than those merges add up to. */
  lemma {:induction false} AtLeastInner(order: seq<int>, weight: seq<nat>, lens: seq<nat>, elems: nat, k: nat, j: nat,
                                        top: nat)
    requires Siblings(order, weight, elems, k) && j <= k && IsCode(order, lens, elems + k - j, 2 * j + 1, top)
    ensures CostOf(order, ByPlace(order, weight), lens, elems + k - j, 2 * j + 1) >= InnerWeight(weight, elems, k, j)
    decreases j
  {
    var f := ByPlace(order, weight);
    if j == 0 {
      NonNegative(order, Costs(f, lens), elems + k, 1);
    } else {
      var up := Undone(order, weight, lens, elems, k, j, top);
      AtLeastInner(order, weight, up, elems, k, j - 1, top);
    }
  }

  /** Depths counted without a cut-off. */
  ghost predicate TrueDepths(order: seq<int>, lens: seq<nat>, elems: nat, k: nat) {
    && IsTree(order, elems, k) && elems + k <= |lens| && (forall i :: 0 <= i < |order| ==> 0 <= order[i] < |lens|)
    && lens[elems + k - 1] == 0
    && (forall i {:trigger order[i]} :: 1 <= i < |order| ==> lens[order[i]] == lens[Parent(elems, k, i)] + 1)
  }

  /** The tree's own depths cost exactly that. */
  lemma {:induction false} DepthsCost(order: seq<int>, weight: seq<nat>, lens: seq<nat>, elems: nat, k: nat, j: nat)
    requires Siblings(order, weight, elems, k) && TrueDepths(order, lens, elems, k) && j <= k
    ensures CostOf(order, ByPlace(order, weight), ByPlace(order, lens), elems + k - j, 2 * j + 1) ==
            InnerWeight(weight, elems, k, j)
    decreases j
  {
    var f, at := ByPlace(order, weight), ByPlace(order, lens);
    var w := Costs(f, at);
    if j == 0 {
      assert Below(order, w, elems + k, 1) == Below(order, w, elems + k, 0) + w[0];
    } else {
      DepthsCost(order, weight, lens, elems, k, j - 1);
      var p := ReplacedByParent(order, w, elems, k, j);
      assert Weighs(order, weight, elems, k, j);
      assert Parent(elems, k, 2 * j - 1) == elems + k - j == Parent(elems, k, 2 * j);
      assert order[2 * j - 1] < elems + k - j && order[2 * j] < elems + k - j;
      assert at[2 * j - 1] == at[2 * j] == at[p] + 1;
      SumTimes(f[2 * j - 1], f[2 * j], at[2 * j]);
    }
  }

  // ----- by symbol -----

  /** The bits the symbols below `m` take, each as often as its weight says. */
  ghost function Total(weight: seq<nat>, lens: seq<nat>, m: nat): (r: nat)
    requires m <= |weight| && m <= |lens|
  {
    if m == 0 then 0 else Total(weight, lens, m - 1) + weight[m - 1] * lens[m - 1]
  }

  /** A code for the leaves of the tree: every one has a length, and the code space is not exceeded. */
  ghost predicate Rival(order: seq<int>, lens: seq<nat>, elems: nat, top: nat) {
    && elems <= |lens| && Kraft(lens, top, elems) <= Pow2(top)
    && forall v :: 0 <= v < elems && v in order ==> 0 < lens[v] <= top
  }

  lemma {:induction false} SkipsSymbol(order: seq<int>, w: seq<int>, cut: int, m: nat)
    requires m <= |order| == |w| && cut !in order
    ensures Below(order, w, cut + 1, m) == Below(order, w, cut, m)
    decreases m
  {
    if m > 0 {
      assert order[m - 1] in order;
      SkipsSymbol(order, w, cut, m - 1);
    }
  }

  lemma {:induction false} NothingBelow(order: seq<int>, w: seq<int>, m: nat)
    requires m <= |order| == |w| && forall i :: 0 <= i < |order| ==> 0 <= order[i]
    ensures Below(order, w, 0, m) == 0
  {
    if m > 0 {
      NothingBelow(order, w, m - 1);
    }
  }

  /** Lengths by symbol as lengths by place, leaves only. */
  ghost function AtPlaces(order: seq<int>, lens: seq<nat>, elems: nat): (r: seq<nat>)
    requires elems <= |lens|
    ensures |r| == |order|
  {
    seq(|order|, i requires 0 <= i < |order| => if 0 <= order[i] < elems then lens[order[i]] else 0)
  }

  /** What the leaves cost, by place and by symbol. */
  lemma {:induction false} CostBySymbol(order: seq<int>, weight: seq<nat>, lens: seq<nat>, elems: nat, c: nat)
    requires Distinct(order) && (forall i :: 0 <= i < |order| ==> 0 <= order[i] < |weight|)
    requires c <= elems <= |weight| && elems <= |lens|
    requires forall v :: 0 <= v < elems && v !in order ==> weight[v] == 0
    ensures CostOf(order, ByPlace(order, weight), AtPlaces(order, lens, elems), c, |order|) == Total(weight, lens, c)
    decreases c
  {
    var w := Costs(ByPlace(order, weight), AtPlaces(order, lens, elems));
    if c == 0 {
      NothingBelow(order, w, |order|);
    } else {
      CostBySymbol(order, weight, lens, elems, c - 1);
      if c - 1 in order {
        var p :| 0 <= p < |order| && order[p] == c - 1;
        BelowLower(order, w, c, |order|, p);
      } else {
        SkipsSymbol(order, w, c - 1, |order|);
      }
    }
  }

  /** The code space the leaves take is part of what all symbols take. */
  lemma {:induction false} SpaceBySymbol(order: seq<int>, lens: seq<nat>, elems: nat, top: nat, c: nat)
    requires Distinct(order) && (forall i :: 0 <= i < |order| ==> 0 <= order[i]) && c <= elems <= |lens|
    requires forall v :: 0 <= v < elems && v in order ==> 0 < lens[v] <= top
    ensures Below(order, Spaces(AtPlaces(order, lens, elems), top), c, |order|) <= Kraft(lens, top, c)
    decreases c
  {
    var w := Spaces(AtPlaces(order, lens, elems), top);
    if c == 0 {
      NothingBelow(order, w, |order|);
    } else {
      SpaceBySymbol(order, lens, elems, top, c - 1);
      if c - 1 in order {
        var p :| 0 <= p < |order| && order[p] == c - 1;
        BelowLower(order, w, c, |order|, p);
      } else {
        SkipsSymbol(order, w, c - 1, |order|);
      }
    }
  }

  lemma RivalIsCode(order: seq<int>, rival: seq<nat>, elems: nat, k: nat, top: nat)
    requires IsTree(order, elems, k) && (forall i :: 0 <= i < |order| ==> 0 <= order[i])
    requires Rival(order, rival, elems, top)
    ensures IsCode(order, AtPlaces(order, rival, elems), elems, 2 * k + 1, top)
  {
    SpaceBySymbol(order, rival, elems, top, elems);
    forall p | Counts(order, elems, 2 * k + 1, p)
      ensures AtPlaces(order, rival, elems)[p] <= top
    {
      assert order[p] in order;
    }
  }

  /** The leaf depths cost what the merges add up to. */
  lemma DepthsTotal(order: seq<int>, weight: seq<nat>, lens: seq<nat>, elems: nat, k: nat)
    requires Siblings(order, weight, elems, k) && TrueDepths(order, lens, elems, k)
    requires forall v :: 0 <= v < elems && v !in order ==> weight[v] == 0
    ensures Total(weight, lens, elems) == InnerWeight(weight, elems, k, k)
  {
    var f := ByPlace(order, weight);
    CostBySymbol(order, weight, lens, elems, elems);
    BelowFrame(order, Costs(f, AtPlaces(order, lens, elems)), Costs(f, ByPlace(order, lens)), elems, |order|);
    DepthsCost(order, weight, lens, elems, k, k);
  }

  /** The leaf depths of a tree with the sibling property cost no more than any code for the same leaves,
      however long the codes of that one are. */
  lemma Optimal(order: seq<int>, weight: seq<nat>, lens: seq<nat>, elems: nat, k: nat, rival: seq<nat>, top: nat)
    requires Siblings(order, weight, elems, k) && TrueDepths(order, lens, elems, k) && Rival(order, rival, elems, top)
    requires forall v :: 0 <= v < elems && v !in order ==> weight[v] == 0
    ensures Total(weight, lens, elems) <= Total(weight, rival, elems)
  {
    DepthsTotal(order, weight, lens, elems, k);
    CostBySymbol(order, weight, rival, elems, elems);
    RivalIsCode(order, rival, elems, k, top);
    AtLeastInner(order, weight, AtPlaces(order, rival, elems), elems, k, k, top);
  }

  // ----- heavier symbols are not longer -----

  lemma {:induction false} TotalSet(weight: seq<nat>, lens: seq<nat>, m: nat, v: nat, l: nat)
    requires m <= |weight| && m <= |lens| && v < |lens|
    ensures Total(weight, lens[v := l], m) == Total(weight, lens, m) + if v < m
            then weight[v] * l - weight[v] * lens[v] else 0
    decreases m
  {
    if m > 0 {
      TotalSet(weight, lens, m - 1, v, l);
    }
  }

  lemma {:induction false} KraftSet(lens: seq<nat>, top: nat, m: nat, v: nat, l: nat)
    requires m <= |lens| && v < |lens| && 0 < l <= top && 0 < lens[v] <= top
    ensures Kraft(lens[v := l], top, m) == Kraft(lens, top, m) + if v < m then Pow2(top - l) - Pow2(top - lens[v])
            else 0
    decreases m
  {
    if m > 0 {
      KraftSet(lens, top, m - 1, v, l);
    }
  }

  lemma StrictlyLess(wu: int, wv: int, lu: int, lv: int)
    requires wu > wv && lu > lv
    ensures wu * lv - wu * lu + wv * lu - wv * lv < 0
  {
    Distribute(lu, -lv, wu);
    Distribute(lu, -lv, wv);
    Distribute(wu, -wv, lu - lv);
    MulMono(1, wu - wv, lu - lv);
  }

  /** In such a tree a heavier leaf is never deeper than a lighter one. */
  lemma HeavierNotLonger(order: seq<int>, weight: seq<nat>, lens: seq<nat>, elems: nat, k: nat, top: nat, u: nat,
                         v: nat)
    requires Siblings(order, weight, elems, k) && TrueDepths(order, lens, elems, k) && Rival(order, lens, elems, top)
    requires forall v :: 0 <= v < elems && v !in order ==> weight[v] == 0
    requires u < elems && v < elems && u in order && v in order && weight[u] > weight[v]
    ensures lens[u] <= lens[v]
  {
    if lens[u] > lens[v] {
      var one := lens[u := lens[v]];
      var two := one[v := lens[u]];
      TotalSet(weight, lens, elems, u, lens[v]);
      TotalSet(weight, one, elems, v, lens[u]);
      KraftSet(lens, top, elems, u, lens[v]);
      KraftSet(one, top, elems, v, lens[u]);
      StrictlyLess(weight[u], weight[v], lens[u], lens[v]);
      Optimal(order, weight, lens, elems, k, two, top);
    }
  }
}
