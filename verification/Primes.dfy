/** Stepping through 0..p-1 by a fixed amount visits everything when p is prime. */
module Primes {
  import opened Arith
  import opened Counting
  import BitOps

  ghost predicate Divides(d: int, n: int) {
    exists q: int :: Times(d, q) == n
  }

  function Times(a: int, b: int): int { a * b }

  ghost predicate IsPrime(p: nat) {
    p >= 2 && forall d: nat :: 2 <= d < p ==> !Divides(d, p)
  }

  /** A combination of two numbers divides both, and is made from them: the greatest common divisor, with witnesses. */
  lemma {:induction false} Bezout(a: nat, b: nat) returns (g: nat, x: int, y: int)
    requires a > 0 || b > 0
    ensures g > 0 && Divides(g, a) && Divides(g, b) && a * x + b * y == g
    decreases b
  {
    if b == 0 {
      g, x, y := a, 1, 0;
      assert Times(a, 1) == a && Times(a, 0) == 0;
    } else {
      var q, r := a / b, a % b;
      var x', y';
      g, x', y' := Bezout(b, r);
      x, y := y', x' - q * y';
      BezoutStep(a, b, q, r, g, x', y');
      DividesCombination(g, b, r, q);
    }
  }

  lemma BezoutStep(a: nat, b: nat, q: nat, r: nat, g: nat, x: int, y: int)
    requires a == b * q + r && b * x + r * y == g
    ensures a * y + b * (x - q * y) == g
  {
    Distribute(b * q, r, y);
    Associate(b, q, y);
    assert a * y == b * (q * y) + r * y;
    assert b * (x - q * y) == b * x - b * (q * y);
  }

  lemma DividesCombination(g: int, b: int, r: int, q: int)
    requires Divides(g, b) && Divides(g, r)
    ensures Divides(g, b * q + r)
  {
    var s: int :| Times(g, s) == b;
    var t: int :| Times(g, t) == r;
    Associate(g, s, q);
    assert g * (s * q + t) == g * (s * q) + g * t;
    assert Times(g, s * q + t) == b * q + r;
  }

  /** Below a prime every positive number has an inverse. */
  lemma Inverse(p: nat, d: nat) returns (u: int, v: int)
    requires IsPrime(p) && 1 <= d < p
    ensures d * u + p * v == 1
  {
    var g;
    g, u, v := Bezout(d, p);
    DivisorSmall(g, d);
  }

  lemma DivisorSmall(g: nat, d: nat)
    requires g > 0 && d > 0 && Divides(g, d)
    ensures g <= d
  {
    var q: int :| Times(g, q) == d;
    if q <= 0 {
      MulMono(q, 0, g);
    } else {
      MulMono(1, q, g);
    }
  }

  /** Equal multiples of `d` come only from equal numbers below `p`. */
  lemma StepsDiffer(p: nat, d: nat, k: nat, l: nat)
    requires IsPrime(p) && 1 <= d < p && k < l < p
    ensures !Divides(p, (l - k) * d)
  {
    if Divides(p, (l - k) * d) {
      var u, v := Inverse(p, d);
      var q: int :| Times(p, q) == (l - k) * d;
      var m := l - k;
      MultipleOf(p, d, m, u, v, q);
      assert Times(p, q * u + v * m) == m;
      DivisorSmall(p, m);
    }
  }

  lemma MultipleOf(p: nat, d: nat, m: nat, u: int, v: int, q: int)
    requires d * u + p * v == 1 && p * q == m * d
    ensures p * (q * u + v * m) == m
  {
    assert m * (d * u + p * v) == m;
    assert m * (d * u) == (m * d) * u;
    assert (p * q) * u == p * (q * u);
    assert m * (p * v) == p * (v * m);
  }

  // ----- the table size is prime -----

  /** No number from 2 to `r` divides `p`. */
  predicate NoneTo(p: nat, r: nat) {
    r < 2 || (p % r != 0 && NoneTo(p, r - 1))
  }

  lemma {:induction false} NoneBelow(p: nat, r: nat, d: nat)
    requires NoneTo(p, r) && 2 <= d <= r
    ensures p % d != 0
    decreases r
  {
    if d < r {
      NoneBelow(p, r - 1, d);
    }
  }

  /** Trying divisors up to the square root is enough. */
  lemma PrimeByTrial(p: nat, r: nat)
    requires p >= 2 && NoneTo(p, r) && p < (r + 1) * (r + 1)
    ensures IsPrime(p)
  {
    forall d: nat | 2 <= d < p
      ensures !Divides(d, p)
    {
      if Divides(d, p) {
        var q: int :| Times(d, q) == p;
        NoFactor(p, d, q, r);
      }
    }
  }

  lemma NoFactor(p: nat, d: nat, q: int, r: nat)
    requires NoneTo(p, r) && p < (r + 1) * (r + 1) && 2 <= d < p
    ensures d * q != p
  {
    if q <= 1 {
      MulMono(q, 1, d);
    } else if d <= r {
      NoneBelow(p, r, d);
      ExactQuotient(d * q, d, q);
    } else if q <= r {
      NoneBelow(p, r, q);
      Commutes(d, q);
      ExactQuotient(q * d, q, d);
    } else {
      MulMono(r + 1, d, r + 1);
      MulMono(r + 1, q, d);
      Commutes(d, r + 1);
      Commutes(d, q);
    }
  }

  lemma Commutes(a: int, b: int)
    ensures a * b == b * a
  {
  }

  lemma ExactQuotient(p: nat, d: nat, q: nat)
    requires d > 0 && d * q == p
    ensures p % d == 0
  {
    BitOps.ModuloIs(p, d, q, 0);
  }

  const NAME_TABLE_SIZE := 16381

  lemma Trial40()
    ensures NoneTo(16381, 40)
  {
    assert NoneTo(16381, 8);
    assert NoneTo(16381, 16);
    assert NoneTo(16381, 24);
    assert NoneTo(16381, 32);
    assert NoneTo(16381, 40);
  }

  lemma Trial80()
    ensures NoneTo(16381, 80)
  {
    Trial40();
    assert NoneTo(16381, 48);
    assert NoneTo(16381, 56);
    assert NoneTo(16381, 64);
    assert NoneTo(16381, 72);
    assert NoneTo(16381, 80);
  }

  lemma Trial127()
    ensures NoneTo(16381, 127)
  {
    Trial80();
    assert NoneTo(16381, 88);
    assert NoneTo(16381, 96);
    assert NoneTo(16381, 104);
    assert NoneTo(16381, 112);
    assert NoneTo(16381, 120);
    assert NoneTo(16381, 127);
  }

  lemma TableSizeIsPrime()
    ensures IsPrime(NAME_TABLE_SIZE)
  {
    Trial127();
    PrimeByTrial(NAME_TABLE_SIZE, 127);
  }

  // ----- probing -----

  /** The slot probed after `k` steps down by `d`, round the end. */
  function Probe(p: nat, start: nat, d: nat, k: nat): (r: int)
    requires start < p && 1 <= d < p
    ensures 0 <= r < p
  {
    if k == 0 then start
    else
      var q := Probe(p, start, d, k - 1) - d;
      if q < 0 then q + p else q
  }

  ghost function Wraps(p: nat, start: nat, d: nat, k: nat): (r: nat)
    requires start < p && 1 <= d < p
  {
    if k == 0 then 0
    else Wraps(p, start, d, k - 1) + if Probe(p, start, d, k - 1) < d then 1 else 0
  }

  lemma ProbeStep(p: nat, d: nat, k: nat, w: nat)
    ensures (k + 1) * d == k * d + d && (w + 1) * p == w * p + p
  {
  }

  lemma {:induction false} ProbeIs(p: nat, start: nat, d: nat, k: nat)
    requires start < p && 1 <= d < p
    ensures Probe(p, start, d, k) == start - k * d + Wraps(p, start, d, k) * p
  {
    if k > 0 {
      ProbeIs(p, start, d, k - 1);
      ProbeStep(p, d, k - 1, Wraps(p, start, d, k - 1));
    }
  }

  lemma ProbesDiffer(p: nat, start: nat, d: nat, k: nat, l: nat)
    requires IsPrime(p) && start < p && 1 <= d < p && k < l < p
    ensures Probe(p, start, d, k) != Probe(p, start, d, l)
  {
    ProbeIs(p, start, d, k);
    ProbeIs(p, start, d, l);
    if Probe(p, start, d, k) == Probe(p, start, d, l) {
      var a, b := Wraps(p, start, d, k), Wraps(p, start, d, l);
      SameProbe(p, d, k, l, a, b);
      assert Times(p, b - a) == (l - k) * d;
      StepsDiffer(p, d, k, l);
    }
  }

  lemma SameProbe(p: nat, d: nat, k: nat, l: nat, a: nat, b: nat)
    requires -(k * d) + a * p == -(l * d) + b * p
    ensures p * (b - a) == (l - k) * d
  {
  }

  ghost function Probes(p: nat, start: nat, d: nat): (r: seq<int>)
    requires start < p && 1 <= d < p
    ensures |r| == p && forall k :: 0 <= k < p ==> r[k] == Probe(p, start, d, k)
  {
    seq(p, k requires 0 <= k => Probe(p, start, d, k))
  }

  /** Every slot is probed. */
  lemma ProbesHit(p: nat, start: nat, d: nat, slot: nat) returns (k: nat)
    requires IsPrime(p) && start < p && 1 <= d < p && slot < p
    ensures k < p && Probe(p, start, d, k) == slot
  {
    var ps := Probes(p, start, d);
    forall a, b | 0 <= a < b < p
      ensures ps[a] != ps[b]
    {
      ProbesDiffer(p, start, d, a, b);
    }
    PermHits(ps, p, slot);
    k :| 0 <= k < p && ps[k] == slot;
  }
}
