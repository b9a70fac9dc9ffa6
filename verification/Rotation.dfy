/** The order on the cyclic rotations of a block that both block sorts of
    `archival/bzip2.rs` establish, and its prefix-doubling law. */
module Rotation {

  function Next(n: nat, i: nat): (r: nat)
    requires i < n
    ensures r < n
  {
    if i + 1 == n then 0 else i + 1
  }

  function Prev(n: nat, i: nat): (r: nat)
    requires i < n
    ensures r < n && Next(n, r) == i
  {
    if i == 0 then n - 1 else i - 1
  }

  /** The offset `a` characters further round the block. */
  function Advance(n: nat, i: nat, a: nat): (r: nat)
    requires i < n && a <= n
    ensures r < n
  {
    if i + a < n then i + a else i + a - n
  }

  /** Compares the first `len` characters of the rotations starting at `i` and
      `j`, reading round the block as often as needed: negative, zero, positive. */
  ghost function Cmp(s: seq<int>, i: nat, j: nat, len: nat): (r: int)
    requires i < |s| && j < |s|
    ensures -1 <= r <= 1
    decreases len
  {
    if len == 0 then 0
    else if s[i] < s[j] then -1
    else if s[i] > s[j] then 1
    else Cmp(s, Next(|s|, i), Next(|s|, j), len - 1)
  }

  /** `p` is a permutation of 0..n-1. */
  ghost predicate IsPerm(p: seq<int>, n: nat) {
    && |p| == n
    && (forall k :: 0 <= k < n ==> 0 <= p[k] < n)
    && (forall a, b :: 0 <= a < b < n ==> p[a] != p[b])
  }

  ghost function Identity(n: nat): (r: seq<int>)
    ensures IsPerm(r, n) && forall k :: 0 <= k < n ==> r[k] == k
  {
    seq(n, k => k)
  }

  /** `p` lists rotations of `s` in non-decreasing order of their first `len` characters. */
  ghost predicate SortedTo(s: seq<int>, p: seq<int>, len: nat)
    requires IsPerm(p, |s|)
  {
    forall a, b :: 0 <= a < b < |s| ==> Cmp(s, p[a], p[b], len) <= 0
  }

  /** `p` is a rotation sort of `s`: what the block sort must deliver. */
  ghost predicate SortsRotations(s: seq<int>, p: seq<int>) {
    IsPerm(p, |s|) && SortedTo(s, p, |s|)
  }

  // ----- Cmp is a total preorder for every length -----

  lemma {:induction false} CmpAntisym(s: seq<int>, i: nat, j: nat, len: nat)
    requires i < |s| && j < |s|
    ensures Cmp(s, j, i, len) == -Cmp(s, i, j, len)
    decreases len
  {
    if len > 0 && s[i] == s[j] {
      CmpAntisym(s, Next(|s|, i), Next(|s|, j), len - 1);
    }
  }

  lemma {:induction false} CmpRefl(s: seq<int>, i: nat, len: nat)
    requires i < |s|
    ensures Cmp(s, i, i, len) == 0
    decreases len
  {
    if len > 0 {
      CmpRefl(s, Next(|s|, i), len - 1);
    }
  }

  lemma {:induction false} CmpTrans(s: seq<int>, i: nat, j: nat, k: nat, len: nat)
    requires i < |s| && j < |s| && k < |s|
    requires Cmp(s, i, j, len) <= 0 && Cmp(s, j, k, len) <= 0
    ensures Cmp(s, i, k, len) <= 0
    ensures Cmp(s, i, j, len) < 0 || Cmp(s, j, k, len) < 0 ==> Cmp(s, i, k, len) < 0
    ensures Cmp(s, i, j, len) == 0 && Cmp(s, j, k, len) == 0 ==> Cmp(s, i, k, len) == 0
    decreases len
  {
    if len > 0 && s[i] == s[j] == s[k] {
      CmpTrans(s, Next(|s|, i), Next(|s|, j), Next(|s|, k), len - 1);
    }
  }

  /** Prefix doubling: the order on `a + b` characters is the order on the first
      `a`, ties broken by the order on `b` characters read `a` further on. */
  lemma {:induction false} CmpSplit(s: seq<int>, i: nat, j: nat, a: nat, b: nat)
    requires i < |s| && j < |s| && a <= |s|
    ensures Cmp(s, i, j, a + b) ==
            if Cmp(s, i, j, a) != 0 then Cmp(s, i, j, a)
            else Cmp(s, Advance(|s|, i, a), Advance(|s|, j, a), b)
    decreases a
  {
    if a > 0 && s[i] == s[j] {
      var n := |s|;
      CmpSplit(s, Next(n, i), Next(n, j), a - 1, b);
      assert Advance(n, Next(n, i), a - 1) == Advance(n, i, a);
      assert Advance(n, Next(n, j), a - 1) == Advance(n, j, a);
    }
  }

  /** Reading past one full turn never changes the verdict. */
  lemma {:induction false} CmpPastTurn(s: seq<int>, i: nat, j: nat, len: nat)
    requires i < |s| && j < |s| && len >= |s|
    ensures Cmp(s, i, j, len) == Cmp(s, i, j, |s|)
    decreases len
  {
    var n := |s|;
    CmpSplit(s, i, j, n, len - n);
    if Cmp(s, i, j, n) == 0 {
      assert Advance(n, i, n) == i && Advance(n, j, n) == j;
      if len - n >= n {
        CmpPastTurn(s, i, j, len - n);
      } else {
        CmpSplit(s, i, j, len - n, n - (len - n));
      }
    }
  }

  /** Rotations whose whole turns agree still agree one step on. */
  lemma EqualNext(s: seq<int>, i: nat, j: nat)
    requires i < |s| && j < |s| && Cmp(s, i, j, |s|) == 0
    ensures s[i] == s[j] && Cmp(s, Next(|s|, i), Next(|s|, j), |s|) == 0
  {
    CmpPastTurn(s, i, j, |s| + 1);
  }

  /** ... and one step back. */
  lemma EqualPrev(s: seq<int>, i: nat, j: nat)
    requires i < |s| && j < |s| && Cmp(s, i, j, |s|) == 0
    ensures Cmp(s, Prev(|s|, i), Prev(|s|, j), |s|) == 0
    ensures s[Prev(|s|, i)] == s[Prev(|s|, j)]
  {
    var n := |s|;
    if n == 1 {
      CmpRefl(s, 0, 1);
    } else {
      EqualAdvance(s, i, j, n - 1);
      assert Advance(n, i, n - 1) == Prev(n, i);
      assert Advance(n, j, n - 1) == Prev(n, j);
      EqualNext(s, Prev(n, i), Prev(n, j));
    }
  }

  lemma {:induction false} EqualAdvance(s: seq<int>, i: nat, j: nat, a: nat)
    requires i < |s| && j < |s| && a <= |s| && Cmp(s, i, j, |s|) == 0
    ensures Cmp(s, Advance(|s|, i, a), Advance(|s|, j, a), |s|) == 0
    decreases a
  {
    var n := |s|;
    if a > 0 {
      EqualNext(s, i, j);
      EqualAdvance(s, Next(n, i), Next(n, j), a - 1);
      assert Advance(n, Next(n, i), a - 1) == Advance(n, i, a);
      assert Advance(n, Next(n, j), a - 1) == Advance(n, j, a);
    }
  }

  // ----- the reference: rotations as strings, compared lexicographically -----

  function RotationAt(s: seq<int>, i: nat): (r: seq<int>)
    requires i < |s|
    ensures |r| == |s|
  {
    s[i..] + s[..i]
  }

  ghost predicate LexLess(a: seq<int>, b: seq<int>)
    requires |a| == |b|
  {
    exists k :: 0 <= k < |a| && a[k] < b[k] && forall m :: 0 <= m < k ==> a[m] == b[m]
  }

  /** The character `k` places into a rotation. */
  lemma RotationChar(s: seq<int>, i: nat, k: nat)
    requires i < |s| && k < |s|
    ensures RotationAt(s, i)[k] == s[Advance(|s|, i, k)]
  {
  }

  /** `Cmp` over a whole turn is the lexicographic order of the rotation strings. */
  lemma CmpIsLexicographic(s: seq<int>, i: nat, j: nat)
    requires i < |s| && j < |s|
    ensures Cmp(s, i, j, |s|) == 0 <==> RotationAt(s, i) == RotationAt(s, j)
    ensures Cmp(s, i, j, |s|) < 0 <==> LexLess(RotationAt(s, i), RotationAt(s, j))
  {
    var n, x, y := |s|, RotationAt(s, i), RotationAt(s, j);
    if Cmp(s, i, j, n) == 0 {
      forall k | 0 <= k < n
        ensures x[k] == y[k]
      {
        EqualAdvance(s, i, j, k);
        EqualNext(s, Advance(n, i, k), Advance(n, j, k));
        RotationChar(s, i, k);
        RotationChar(s, j, k);
      }
    } else {
      var k := FirstDifference(s, i, j, n);
      forall m | 0 <= m < k
        ensures x[m] == y[m]
      {
        RotationChar(s, i, m);
        RotationChar(s, j, m);
      }
      RotationChar(s, i, k);
      RotationChar(s, j, k);
    }
  }

  /** Where two rotations first differ, and which way. */
  lemma {:induction false} FirstDifference(s: seq<int>, i: nat, j: nat, len: nat) returns (k: nat)
    requires i < |s| && j < |s| && len <= |s| && Cmp(s, i, j, len) != 0
    ensures k < len
    ensures forall m :: 0 <= m < k ==> s[Advance(|s|, i, m)] == s[Advance(|s|, j, m)]
    ensures Cmp(s, i, j, len) < 0 <==> s[Advance(|s|, i, k)] < s[Advance(|s|, j, k)]
    ensures Cmp(s, i, j, len) > 0 <==> s[Advance(|s|, i, k)] > s[Advance(|s|, j, k)]
    decreases len
  {
    var n := |s|;
    if s[i] != s[j] {
      k := 0;
    } else {
      var k' := FirstDifference(s, Next(n, i), Next(n, j), len - 1);
      k := k' + 1;
      forall m | 0 <= m < k
        ensures s[Advance(n, i, m)] == s[Advance(n, j, m)]
      {
        if m > 0 {
          assert Advance(n, i, m) == Advance(n, Next(n, i), m - 1);
          assert Advance(n, j, m) == Advance(n, Next(n, j), m - 1);
        }
      }
      assert Advance(n, i, k) == Advance(n, Next(n, i), k');
      assert Advance(n, j, k) == Advance(n, Next(n, j), k');
    }
  }
}
