/** How deep a Huffman tree of a given weight can be. */
module Fibonacci {
  import opened Powers

  function Fib(h: nat): (r: nat)
    ensures r >= 1
  {
    if h == 0 then 1 else if h == 1 then 2 else Fib(h - 1) + Fib(h - 2)
  }

  lemma {:induction false} FibMono(a: nat, b: nat)
    requires a <= b
    ensures Fib(a) <= Fib(b)
    decreases b
  {
    if a < b {
      FibMono(a, b - 1);
    }
  }

  lemma {:induction false} FibDoubles(k: nat)
    ensures Fib(2 * k) >= Pow2(k)
  {
    if k > 0 {
      FibDoubles(k - 1);
      FibMono(2 * k - 2, 2 * k - 1);
    }
  }

  /** A node that outweighs Fib(h) cannot be as deep as the low byte could hold. */
  lemma FibBound(h: nat, w: nat)
    requires Fib(h) <= w < 0x80_0000
    ensures h < 46
  {
    Pow2Values();
    Pow2Add(8, 15);
    DeepBound(h, w, 8 + 15);
  }

  lemma DeepBound(h: nat, w: nat, k: nat)
    requires Fib(h) <= w < Pow2(k)
    ensures h < 2 * k
  {
    if h >= 2 * k {
      FibMono(2 * k, h);
      FibDoubles(k);
    }
  }

  lemma FibAt18()
    ensures Fib(18) == 6765
  {
    assert Fib(8) == 55 && Fib(9) == 89;
    assert Fib(12) == 377 && Fib(13) == 610;
    assert Fib(16) == 2584 && Fib(17) == 4181;
  }
}

/** A weight that orders nodes by frequency first and by height among equals: the frequency in the upper
    bits, the height of the subtree in the low byte. */
module NodeWeights {
  import opened Fibonacci
  import opened HuffmanHeight

  function Freq(w: int): int { w / 256 }
  function Height(w: int): nat { w % 256 }
  function NatFreq(w: int): nat { if w >= 0 then Freq(w) else 0 }

  /** The frequencies in the weights. */
  ghost function Freqs(w: seq<int>): (r: seq<nat>)
    ensures |r| == |w|
  {
    seq(|w|, i requires 0 <= i < |w| => NatFreq(w[i]))
  }

  /** The heights in the weights. */
  ghost function Heights(w: seq<int>): (r: seq<nat>)
    ensures |r| == |w|
  {
    seq(|w|, i requires 0 <= i < |w| => Height(w[i]))
  }

  /** A node is at least as heavy as its height calls for; `mx` is the heavier of the last two nodes joined. */
  ghost predicate NodeOk(w: seq<int>, v: int, mx: nat) {
    && 0 <= v < |w| && w[v] >= 0
    && Freq(w[v]) >= Fib(Height(w[v])) && Freq(w[v]) >= mx
    && (Height(w[v]) >= 1 ==> Fib(Height(w[v]) - 1) <= mx)
  }

  /** The weight of two nodes joined: frequencies added, one level more than the higher. */
  function Joined(w1: int, w2: int): int {
    256 * (Freq(w1) + Freq(w2)) + 1 + Taller(Height(w1), Height(w2))
  }

  /** Node `p` weighs what `l` and `r` weigh joined, with no carry from the height into the frequency. */
  ghost predicate Joins(w: seq<int>, p: int, l: int, r: int) {
    && 0 <= p < |w| && 0 <= l < |w| && 0 <= r < |w| && w[p] >= 0 && w[l] >= 0 && w[r] >= 0
    && Freq(w[p]) == Freq(w[l]) + Freq(w[r]) && Height(w[p]) == 1 + Taller(Height(w[l]), Height(w[r]))
  }

  /** Joining the two lightest nodes keeps every remaining node heavy enough. */
  lemma JoinedOk(w: seq<int>, n1: nat, n2: nat, mx: nat)
    requires NodeOk(w, n1, mx) && NodeOk(w, n2, mx) && w[n1] <= w[n2]
    requires Freq(w[n1]) + Freq(w[n2]) < 0x80_0000
    ensures var j := Joined(w[n1], w[n2]);
            && j >= 0 && Freq(j) == Freq(w[n1]) + Freq(w[n2])
            && Height(j) == 1 + Taller(Height(w[n1]), Height(w[n2])) < 47
            && Freq(j) >= Fib(Height(j)) && Freq(j) >= Freq(w[n2]) && Fib(Height(j) - 1) <= Freq(w[n2])
  {
    var h1, h2 := Height(w[n1]), Height(w[n2]);
    FibBound(h1, Freq(w[n1]));
    FibBound(h2, Freq(w[n2]));
    var h := Taller(h1, h2);
    assert Fib(h) <= Freq(w[n2]);
    if h >= 1 {
      assert Fib(h + 1) == Fib(h) + Fib(h - 1);
      assert Fib(h - 1) <= mx;
    }
  }

  predicate Whole(j: nat, k: nat) { j == k }

  /** A tree in order of its weights, and what its root weighs: enough for its height. The order is said of every
      number of nodes that is `k`, so that it is taken apart only where `Whole` is mentioned. */
  ghost predicate Weighed(order: seq<int>, w: seq<int>, elems: nat, k: nat, total: nat) {
    && k > 0 && elems + k <= |w| && (forall j: nat {:trigger Whole(j, k)} :: Whole(j, k) ==>
          Ordered(order, Freqs(w), Heights(w), elems, k))
    && w[elems + k - 1] >= 0 && total == Freq(w[elems + k - 1]) >= Fib(Height(w[elems + k - 1]))
  }
}
