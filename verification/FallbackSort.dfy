/** `fallbackSort`: the exponential radix sort of all rotations of a block.
    The header bits are one boolean each; a word of them is 32 consecutive entries. */
module FallbackSort {
  import opened Rotation
  import opened Bytes
  import opened RadixSort
  import opened Shuffle
  import QSort3
  import Counting

  // ----- buckets -----

  /** How the rotations at places `a` and `b` compare on their first `len` characters. */
  ghost function At(s: seq<int>, p: seq<int>, a: nat, b: nat, len: nat): int
    requires IsPerm(p, |s|) && a < |s| && b < |s|
  {
    Cmp(s, p[a], p[b], len)
  }

  /** Header bits of the places lo..hi-1: set exactly where a new class of
      `len`-character prefixes begins. */
  ghost predicate Headers(s: seq<int>, p: seq<int>, bh: seq<bool>, len: nat, lo: nat, hi: nat)
    requires IsPerm(p, |s|) && hi <= |s| <= |bh|
  {
    && (lo == 0 < hi ==> bh[0])
    && forall i {:trigger bh[i]} :: lo <= i < hi && 0 < i ==> (bh[i] <==> At(s, p, i - 1, i, len) != 0)
  }

  /** The two sentinel bits past the block that stop every scan. */
  ghost predicate Sentinels(bh: seq<bool>, n: nat) {
    n + 64 <= |bh| && bh[n] && !bh[n + 1]
  }

  /** The first `m` places are in order of their first `len` characters. */
  ghost predicate OrderedTo(s: seq<int>, p: seq<int>, len: nat, m: nat)
    requires IsPerm(p, |s|) && m <= |s|
  {
    forall a, b :: 0 <= a < b < m ==> At(s, p, a, b, len) <= 0
  }

  /** All places sorted and marked by their first `len` characters. */
  ghost predicate Refined(s: seq<int>, p: seq<int>, bh: seq<bool>, len: nat) {
    && IsPerm(p, |s|)
    && Sentinels(bh, |s|)
    && OrderedTo(s, p, len, |s|)
    && Headers(s, p, bh, len, 0, |s|)
    && Bucketed(s, p)
  }

  /** Halfway through doubling from `h`: the first `m` places are done, the rest as before. */
  ghost predicate Doubling(s: seq<int>, p: seq<int>, bh: seq<bool>, h: nat, m: nat) {
    && IsPerm(p, |s|) && m <= |s|
    && Sentinels(bh, |s|)
    && OrderedTo(s, p, h, |s|)
    && OrderedTo(s, p, 2 * h, m)
    && Headers(s, p, bh, 2 * h, 0, m)
    && Headers(s, p, bh, h, m, |s|)
    && Bucketed(s, p)
    && (m < |s| ==> bh[m])
  }

  /** `e[x]` ranks the `h` characters that follow the first `h` of rotation `x`. */
  ghost predicate Classes(s: seq<int>, e: seq<int>, h: nat) {
    && 0 < h <= |s| <= |e|
    && (forall x :: 0 <= x < |s| ==> 0 <= e[x])
    && (forall x, y :: 0 <= x < |s| && 0 <= y < |s| ==>
          (e[x] <= e[y] <==> Cmp(s, Advance(|s|, x, h), Advance(|s|, y, h), h) <= 0))
  }

  // ----- order within and across buckets -----

  /** A strict difference on `h` characters is a strict difference on `2*h`. */
  lemma DoubleStrict(s: seq<int>, i: nat, j: nat, h: nat)
    requires i < |s| && j < |s| && h <= |s| && Cmp(s, i, j, h) != 0
    ensures Cmp(s, i, j, 2 * h) == Cmp(s, i, j, h)
  {
    CmpSplit(s, i, j, h, h);
  }

  /** With equal first halves the classes decide. */
  lemma DoubleEqual(s: seq<int>, e: seq<int>, i: nat, j: nat, h: nat)
    requires i < |s| && j < |s| && Classes(s, e, h) && Cmp(s, i, j, h) == 0
    ensures Cmp(s, i, j, 2 * h) <= 0 <==> e[i] <= e[j]
    ensures Cmp(s, i, j, 2 * h) == 0 <==> e[i] == e[j]
  {
    CmpSplit(s, i, j, h, h);
    CmpAntisym(s, Advance(|s|, i, h), Advance(|s|, j, h), h);
  }

  /** Nothing is marked strictly between: the places from l to b are all equal. */
  lemma {:induction false} ClearRunEqual(s: seq<int>, p: seq<int>, bh: seq<bool>, h: nat, l: nat, b: nat)
    requires IsPerm(p, |s|) && l <= b < |s| <= |bh| && Headers(s, p, bh, h, l + 1, b + 1)
    requires forall i :: l < i <= b ==> !bh[i]
    ensures At(s, p, l, b, h) == 0
    decreases b
  {
    if l == b {
      CmpRefl(s, p[l], h);
    } else {
      ClearRunEqual(s, p, bh, h, l, b - 1);
      assert !bh[b];
      CmpTrans(s, p[l], p[b - 1], p[b], h);
    }
  }

  /** Any two places of an unmarked run are equal. */
  lemma RunPairEqual(s: seq<int>, p: seq<int>, bh: seq<bool>, h: nat, l: nat, r: nat, a: nat, b: nat)
    requires IsPerm(p, |s|) && l <= r < |s| <= |bh| && Headers(s, p, bh, h, l + 1, r + 1)
    requires forall i :: l < i <= r ==> !bh[i]
    requires l <= a <= r && l <= b <= r
    ensures At(s, p, a, b, h) == 0
  {
    ClearRunEqual(s, p, bh, h, l, a);
    ClearRunEqual(s, p, bh, h, l, b);
    CmpAntisym(s, p[l], p[a], h);
    CmpTrans(s, p[a], p[l], p[b], h);
  }

  /** A marked place is strictly above everything before it. */
  lemma MarkedIsAbove(s: seq<int>, p: seq<int>, bh: seq<bool>, h: nat, a: nat, l: nat)
    requires IsPerm(p, |s|) && a < l < |s| <= |bh| && OrderedTo(s, p, h, |s|)
    requires Headers(s, p, bh, h, l, l + 1) && bh[l]
    ensures At(s, p, a, l, h) < 0
  {
    assert At(s, p, l - 1, l, h) < 0;
    if a < l - 1 {
      assert At(s, p, a, l - 1, h) <= 0;
      CmpTrans(s, p[a], p[l - 1], p[l], h);
    }
  }

  /** Places m..l-1 that are all marked are already done for the doubled length. */
  lemma SkipSingles(s: seq<int>, p: seq<int>, bh: seq<bool>, h: nat, m: nat, l: nat)
    requires h <= |s| && Doubling(s, p, bh, h, m) && m <= l <= |s|
    requires forall i :: m <= i <= l && i < |s| ==> bh[i]
    ensures Doubling(s, p, bh, h, l)
  {
    forall a, b | 0 <= a < b < l
      ensures At(s, p, a, b, 2 * h) <= 0
    {
      if m <= b {
        MarkedIsAbove(s, p, bh, h, a, b);
        DoubleStrict(s, p[a], p[b], h);
      }
    }
    forall i | 0 < i < l
      ensures bh[i] <==> At(s, p, i - 1, i, 2 * h) != 0
    {
      if m <= i {
        assert bh[i];
        DoubleStrict(s, p[i - 1], p[i], h);
      }
    }
  }

  // ----- refining one bucket -----

  lemma ShuffleKeepsPerm(p: seq<int>, q: seq<int>, lo: int, hi: int)
    requires IsPerm(p, |p|) && Shuffles(p, q, lo, hi)
    ensures IsPerm(q, |p|)
  {
    var f: seq<int> :| Via(p, q, f, lo, hi);
    forall k | 0 <= k < |p|
      ensures 0 <= q[k] < |p|
    {
      assert q[k] == p[f[k]];
    }
    forall a, b | 0 <= a < b < |p|
      ensures q[a] != q[b]
    {
      assert q[a] == p[f[a]] && q[b] == p[f[b]];
    }
  }

  /** A bucket l..r of places equal on `h` characters, about to be rearranged from `p` to `q`. */
  ghost predicate Bucket(s: seq<int>, p: seq<int>, q: seq<int>, h: nat, l: nat, r: nat) {
    && l <= r < |s| && 0 < h <= |s|
    && IsPerm(p, |s|) && IsPerm(q, |s|)
    && Shuffles(p, q, l, r)
    && (forall a, b :: l <= a <= r && l <= b <= r ==> At(s, p, a, b, h) == 0)
  }

  /** Whatever moved within the bucket is equal to everything in it. */
  lemma Moved(s: seq<int>, p: seq<int>, q: seq<int>, h: nat, l: nat, r: nat, i: nat, k: nat)
    requires Bucket(s, p, q, h, l, r) && l <= i <= r && l <= k <= r
    ensures Cmp(s, q[i], p[k], h) == 0 && Cmp(s, p[k], q[i], h) == 0
    ensures s[q[i]] == s[p[k]]
  {
    var j := ShuffleFrom(p, q, l, r, i);
    assert At(s, p, j, k, h) == 0 && At(s, p, k, j, h) == 0;
  }

  lemma BucketKeepsOrder(s: seq<int>, p: seq<int>, q: seq<int>, h: nat, l: nat, r: nat)
    requires Bucket(s, p, q, h, l, r) && OrderedTo(s, p, h, |s|)
    ensures OrderedTo(s, q, h, |s|)
  {
    forall a, b | 0 <= a < b < |s|
      ensures At(s, q, a, b, h) <= 0
    {
      var a', b' := a, b;
      if l <= a <= r { a' := ShuffleFrom(p, q, l, r, a); }
      if l <= b <= r { b' := ShuffleFrom(p, q, l, r, b); }
      assert q[a] == p[a'] && q[b] == p[b'];
      if l <= a <= r && l <= b <= r {
        assert At(s, p, a', b', h) == 0;
      } else {
        assert At(s, p, a', b', h) <= 0;
      }
    }
  }

  lemma BucketKeepsColumn(s: seq<int>, p: seq<int>, q: seq<int>, h: nat, l: nat, r: nat)
    requires Bucket(s, p, q, h, l, r) && Bucketed(s, p)
    ensures Bucketed(s, q)
  {
    forall i | 0 <= i < |q|
      ensures InBucket(s, q, i)
    {
      assert InBucket(s, p, i);
      if l <= i <= r {
        Moved(s, p, q, h, l, r, i, i);
      }
    }
  }

  /** Places before the bucket stay strictly below it. */
  lemma BelowBucket(s: seq<int>, p: seq<int>, q: seq<int>, bh: seq<bool>, h: nat, l: nat, r: nat, a: nat, b: nat)
    requires Bucket(s, p, q, h, l, r) && OrderedTo(s, p, h, |s|) && |s| <= |bh|
    requires a < l <= b <= r && bh[l] && Headers(s, p, bh, h, l, l + 1)
    ensures At(s, q, a, b, h) < 0 && At(s, q, a, b, 2 * h) < 0
  {
    MarkedIsAbove(s, p, bh, h, a, l);
    Moved(s, p, q, h, l, r, b, l);
    CmpTrans(s, p[a], p[l], q[b], h);
    DoubleStrict(s, q[a], q[b], h);
  }

  lemma BucketOrdered(s: seq<int>, p: seq<int>, q: seq<int>, e: seq<int>, bh: seq<bool>, h: nat, l: nat, r: nat)
    requires Bucket(s, p, q, h, l, r) && Doubling(s, p, bh, h, l) && Classes(s, e, h)
    requires forall a, b :: l <= a < b <= r ==> e[q[a]] <= e[q[b]]
    ensures OrderedTo(s, q, 2 * h, r + 1)
  {
    forall a, b | 0 <= a < b < r + 1
      ensures At(s, q, a, b, 2 * h) <= 0
    {
      if b < l {
        assert At(s, p, a, b, 2 * h) <= 0;
      } else if a < l {
        BelowBucket(s, p, q, bh, h, l, r, a, b);
      } else {
        InBucketEqual(s, p, q, h, l, r, a, b);
        DoubleEqual(s, e, q[a], q[b], h);
      }
    }
  }

  lemma InBucketEqual(s: seq<int>, p: seq<int>, q: seq<int>, h: nat, l: nat, r: nat, a: nat, b: nat)
    requires Bucket(s, p, q, h, l, r) && l <= a <= r && l <= b <= r
    ensures At(s, q, a, b, h) == 0
  {
    Moved(s, p, q, h, l, r, a, l);
    Moved(s, p, q, h, l, r, b, l);
    CmpTrans(s, q[a], p[l], q[b], h);
  }

  /** The header bits after the bucket scan. */
  ghost predicate Remarked(q: seq<int>, e: seq<int>, bh: seq<bool>, bh': seq<bool>, l: nat, r: nat)
    requires r < |q| && forall i :: 0 <= i < |q| ==> 0 <= q[i] < |e|
  {
    && |bh'| == |bh| && r < |bh|
    && (forall i {:trigger bh'[i]} :: 0 <= i < |bh| && !(l <= i <= r) ==> bh'[i] == bh[i])
    && (forall i {:trigger bh'[i]} :: l < i <= r ==> (bh'[i] <==> e[q[i - 1]] != e[q[i]]))
    && (l <= r ==> bh'[l])
  }

  lemma BucketHeaders(s: seq<int>, p: seq<int>, q: seq<int>, e: seq<int>, bh: seq<bool>, bh': seq<bool>, h: nat, l: nat,
                      r: nat)
    requires Bucket(s, p, q, h, l, r) && Doubling(s, p, bh, h, l) && Classes(s, e, h)
    requires Remarked(q, e, bh, bh', l, r)
    ensures Headers(s, q, bh', 2 * h, 0, r + 1)
  {
    forall i | 0 < i < r + 1
      ensures bh'[i] <==> At(s, q, i - 1, i, 2 * h) != 0
    {
      if i < l {
        assert bh'[i] == bh[i];
        assert q[i - 1] == p[i - 1] && q[i] == p[i];
      } else if i == l {
        BelowBucket(s, p, q, bh, h, l, r, i - 1, i);
      } else {
        InBucketEqual(s, p, q, h, l, r, i - 1, i);
        DoubleEqual(s, e, q[i - 1], q[i], h);
      }
    }
  }

  lemma BucketTail(s: seq<int>, p: seq<int>, q: seq<int>, e: seq<int>, bh: seq<bool>, bh': seq<bool>, h: nat, l: nat,
                   r: nat)
    requires Bucket(s, p, q, h, l, r) && Doubling(s, p, bh, h, l) && |s| <= |e|
    requires Remarked(q, e, bh, bh', l, r) && (r + 1 < |s| ==> bh[r + 1])
    ensures Headers(s, q, bh', h, r + 1, |s|)
  {
    forall i | r + 1 <= i < |s|
      ensures bh'[i] <==> At(s, q, i - 1, i, h) != 0
    {
      assert bh'[i] == bh[i];
      assert q[i] == p[i];
      if i == r + 1 {
        assert At(s, p, r, r + 1, h) < 0;
        Moved(s, p, q, h, l, r, r, r);
        CmpTrans(s, q[r], p[r], q[r + 1], h);
      } else {
        assert q[i - 1] == p[i - 1];
      }
    }
  }

  /** Sorting one bucket by class and marking its new headers carries the doubling past it. */
  lemma BucketRefined(s: seq<int>, p: seq<int>, q: seq<int>, e: seq<int>, bh: seq<bool>, bh': seq<bool>, h: nat, l: nat,
                      r: nat)
    requires Bucket(s, p, q, h, l, r) && Doubling(s, p, bh, h, l) && Classes(s, e, h)
    requires forall a, b :: l <= a < b <= r ==> e[q[a]] <= e[q[b]]
    requires Remarked(q, e, bh, bh', l, r) && (r + 1 < |s| ==> bh[r + 1])
    ensures Doubling(s, q, bh', h, r + 1)
  {
    BucketKeepsOrder(s, p, q, h, l, r);
    BucketKeepsColumn(s, p, q, h, l, r);
    BucketOrdered(s, p, q, e, bh, h, l, r);
    BucketHeaders(s, p, q, e, bh, bh', h, l, r);
    BucketTail(s, p, q, e, bh, bh', h, l, r);
    var n := |s|;
    assert bh'[n] == bh[n] && bh'[n + 1] == bh[n + 1];
    if r + 1 < n {
      assert bh'[r + 1] == bh[r + 1];
    }
  }

  // ----- classes -----

  function Retreat(n: nat, x: nat, h: nat): (r: nat)
    requires x < n && h <= n
    ensures r < n && Advance(n, r, h) == x
  {
    if x < h then x - h + n else x - h
  }

  /** `d` is the header of place `i`: the last marked place up to it. */
  ghost predicate HeaderOf(bh: seq<bool>, d: int, i: nat)
    requires i < |bh|
  {
    0 <= d <= i && bh[d] && forall k :: d < k <= i ==> !bh[k]
  }

  /** Headers order places exactly as their first `h` characters do. */
  lemma HeaderOrder(s: seq<int>, p: seq<int>, bh: seq<bool>, h: nat, i: nat, d: nat, j: nat, f: nat)
    requires Refined(s, p, bh, h) && i < |s| && j < |s| && HeaderOf(bh, d, i) && HeaderOf(bh, f, j)
    ensures d <= f <==> Cmp(s, p[i], p[j], h) <= 0
  {
    if d == f {
      var r := if i < j then j else i;
      RunPairEqual(s, p, bh, h, d, r, i, j);
    } else if d < f {
      HeaderStrict(s, p, bh, h, i, d, j, f);
    } else {
      HeaderStrict(s, p, bh, h, j, f, i, d);
      CmpAntisym(s, p[i], p[j], h);
    }
  }

  lemma HeaderStrict(s: seq<int>, p: seq<int>, bh: seq<bool>, h: nat, i: nat, d: nat, j: nat, f: nat)
    requires Refined(s, p, bh, h) && i < |s| && j < |s| && HeaderOf(bh, d, i) && HeaderOf(bh, f, j) && d < f
    ensures Cmp(s, p[i], p[j], h) < 0
  {
    assert i < f;
    MarkedIsAbove(s, p, bh, h, i, f);
    ClearRunEqual(s, p, bh, h, f, j);
    CmpTrans(s, p[i], p[f], p[j], h);
  }

  /** The class loop has written the header of each of the first `i` places. */
  ghost predicate Written(p: seq<int>, bh: seq<bool>, e: seq<int>, hd: seq<int>, h: nat, i: nat) {
    && IsPerm(p, |p|) && |hd| == i <= |p| <= |e| && |p| <= |bh| && h <= |p|
    && (forall k :: 0 <= k < i ==> HeaderOf(bh, hd[k], k) && e[Retreat(|p|, p[k], h)] == hd[k])
  }

  lemma WrittenIsClasses(s: seq<int>, p: seq<int>, bh: seq<bool>, e: seq<int>, hd: seq<int>, h: nat)
    requires Refined(s, p, bh, h) && 0 < h && Written(p, bh, e, hd, h, |s|)
    ensures Classes(s, e, h)
  {
    var n := |s|;
    forall x | 0 <= x < n
      ensures 0 <= e[x]
    {
      var i := PlaceOf(s, p, h, x);
      assert e[Retreat(n, p[i], h)] == hd[i];
    }
    forall x, y | 0 <= x < n && 0 <= y < n
      ensures e[x] <= e[y] <==> Cmp(s, Advance(n, x, h), Advance(n, y, h), h) <= 0
    {
      var i := PlaceOf(s, p, h, x);
      var j := PlaceOf(s, p, h, y);
      assert HeaderOf(bh, hd[i], i) && HeaderOf(bh, hd[j], j);
      assert e[Retreat(n, p[i], h)] == hd[i] && e[Retreat(n, p[j], h)] == hd[j];
      HeaderOrder(s, p, bh, h, i, hd[i], j, hd[j]);
    }
  }

  /** The place of the rotation `h` characters on from `x`. */
  lemma PlaceOf(s: seq<int>, p: seq<int>, h: nat, x: nat) returns (i: nat)
    requires IsPerm(p, |s|) && x < |s| && h <= |s|
    ensures i < |s| && p[i] == Advance(|s|, x, h) && Retreat(|s|, p[i], h) == x
  {
    Counting.PermHits(p, |s|, Advance(|s|, x, h));
    i :| 0 <= i < |s| && p[i] == Advance(|s|, x, h);
  }

  method WriteHeaders(fmap: array<int>, eclass: array<int>, bhtab: array<bool>, h: nat) returns (ghost hd: seq<int>)
    requires fmap != eclass && fmap.Length == eclass.Length <= bhtab.Length
    requires h <= fmap.Length && IsPerm(fmap[..], fmap.Length) && (fmap.Length > 0 ==> bhtab[0])
    modifies eclass
    ensures Written(fmap[..], bhtab[..], eclass[..], hd, h, fmap.Length)
  {
    var nblock := fmap.Length;
    ghost var p, bh := fmap[..], bhtab[..];
    hd := [];
    var j, i := 0, 0;
    while i < nblock
      invariant 0 <= i <= nblock && 0 <= j
      invariant fmap[..] == p && bhtab[..] == bh
      invariant i > 0 ==> HeaderOf(bh, j, i - 1)
      invariant Written(p, bh, eclass[..], hd, h, i)
    {
      if bhtab[i] {
        j := i;
      }
      assert bh[i] == bhtab[i];
      var k := fmap[i] - h;
      if k < 0 {
        k := k + nblock;
      }
      ghost var e := eclass[..];
      assert k == Retreat(nblock, p[i], h);
      WrittenStep(p, bh, e, hd, h, i, j);
      eclass[k] := j;
      assert eclass[..] == e[k := j];
      hd := hd + [j];
      i := i + 1;
    }
  }

  /** Gives every rotation the header of the bucket its second half falls in. */
  method AssignClasses(ghost s: seq<int>, fmap: array<int>, eclass: array<int>, bhtab: array<bool>, h: nat)
    requires fmap != eclass && fmap.Length == eclass.Length == |s|
    requires 0 < h <= |s| && Refined(s, fmap[..], bhtab[..], h)
    modifies eclass
    ensures Classes(s, eclass[..], h)
  {
    ghost var hd := WriteHeaders(fmap, eclass, bhtab, h);
    WrittenIsClasses(s, fmap[..], bhtab[..], eclass[..], hd, h);
  }

  lemma WrittenStep(p: seq<int>, bh: seq<bool>, e: seq<int>, hd: seq<int>, h: nat, i: nat, j: nat)
    requires Written(p, bh, e, hd, h, i) && i < |p| && HeaderOf(bh, j, i)
    ensures Written(p, bh, e[Retreat(|p|, p[i], h) := j], hd + [j], h, i + 1)
  {
    forall k | 0 <= k < i
      ensures Retreat(|p|, p[k], h) != Retreat(|p|, p[i], h)
    {
      assert Advance(|p|, Retreat(|p|, p[k], h), h) == p[k];
    }
  }

  // ----- scanning the header bits, a word at a time where it pays -----

  predicate WordIs(bhtab: array<bool>, k: nat, b: bool)
    requires k + 32 <= bhtab.Length
    reads bhtab
  {
    forall t :: k <= t < k + 32 ==> bhtab[t] == b
  }

  /** The next place from `k0` whose bit is not `b`. */
  method Skip(bhtab: array<bool>, k0: nat, b: bool, ghost stop: nat) returns (k: nat)
    requires k0 <= stop && stop + 32 < bhtab.Length && bhtab[stop] != b
    ensures k0 <= k <= stop && bhtab[k] != b
    ensures forall t :: k0 <= t < k ==> bhtab[t] == b
  {
    k := k0;
    while bhtab[k] == b && k % 32 != 0
      invariant k0 <= k <= stop
      invariant forall t :: k0 <= t < k ==> bhtab[t] == b
      decreases stop - k
    {
      k := k + 1;
    }
    if bhtab[k] == b {
      while WordIs(bhtab, k, b)
        invariant k0 <= k <= stop
        invariant forall t :: k0 <= t < k ==> bhtab[t] == b
        decreases stop - k
      {
        assert stop >= k + 32;
        k := k + 32;
      }
      while bhtab[k] == b
        invariant k0 <= k <= stop
        invariant forall t :: k0 <= t < k ==> bhtab[t] == b
        decreases stop - k
      {
        k := k + 1;
      }
    }
  }

  /** Sorts bucket l..r by class and marks where its classes change. */
  method RefineBucket(ghost s: seq<int>, fmap: array<int>, eclass: array<int>, bhtab: array<bool>, h: nat, l: nat,
                      r: nat)
    requires fmap != eclass && fmap.Length == eclass.Length == |s| < 0x7fff_ffff
    requires Doubling(s, fmap[..], bhtab[..], h, l) && Classes(s, eclass[..], h)
    requires l <= r < |s| && bhtab[l] && (forall i :: l < i <= r ==> !bhtab[i]) && bhtab[r + 1]
    modifies fmap, bhtab
    ensures Doubling(s, fmap[..], bhtab[..], h, r + 1) && SameFrom(old(bhtab[..]), bhtab[..], r + 1)
  {
    ghost var p, e, bh := fmap[..], eclass[..], bhtab[..];
    QSort3.QSort3(fmap, eclass, l, r);
    ghost var q := fmap[..];
    ShuffleKeepsPerm(p, q, l, r);
    forall a, b | l <= a <= r && l <= b <= r
      ensures At(s, p, a, b, h) == 0
    {
      RunPairEqual(s, p, bh, h, l, r, a, b);
    }
    MarkBucket(s, fmap, eclass, bhtab, l, r);
    BucketRefined(s, p, q, e, bh, bhtab[..], h, l, r);
  }

  method MarkBucket(ghost s: seq<int>, fmap: array<int>, eclass: array<int>, bhtab: array<bool>, l: nat, r: nat)
    requires fmap.Length == eclass.Length == |s| <= bhtab.Length && IsPerm(fmap[..], |s|)
    requires forall x :: 0 <= x < |s| ==> 0 <= eclass[x]
    requires l <= r < |s| && forall i :: l < i <= r ==> !bhtab[i]
    modifies bhtab
    ensures Remarked(fmap[..], eclass[..], old(bhtab[..]), bhtab[..], l, r)
  {
    var cc, i := -1, l;
    while i <= r
      invariant l <= i <= r + 1
      invariant cc == if i == l then -1 else eclass[fmap[i - 1]]
      invariant forall k :: 0 <= k < bhtab.Length && !(l <= k < i) ==> bhtab[k] == old(bhtab[k])
      invariant forall k {:trigger bhtab[k]} :: l < k < i ==> (bhtab[k] <==> eclass[fmap[k - 1]] != eclass[fmap[k]])
      invariant i > l ==> bhtab[l]
    {
      assert 0 <= fmap[..][i] < |s|;
      var cc1 := eclass[fmap[i]];
      if cc != cc1 {
        bhtab[i] := true;
        cc := cc1;
      }
      i := i + 1;
    }
  }

  // ----- one doubling, and all of them -----

  lemma DoublingStarts(s: seq<int>, p: seq<int>, bh: seq<bool>, h: nat)
    requires Refined(s, p, bh, h) && |s| > 0
    ensures Doubling(s, p, bh, h, 0)
  {
  }

  lemma DoublingEnds(s: seq<int>, p: seq<int>, bh: seq<bool>, h: nat)
    requires Doubling(s, p, bh, h, |s|) && |s| > 0
    ensures Refined(s, p, bh, 2 * h)
  {
  }

  /** From place `m` on nothing has changed. */
  ghost predicate SameFrom(bh: seq<bool>, bh': seq<bool>, m: nat) {
    |bh| == |bh'| && forall k :: m <= k < |bh| ==> bh[k] == bh'[k]
  }

  /** Place `i` is a bucket of its own. */
  predicate Alone(bh: seq<bool>, i: nat)
    requires i + 1 < |bh|
  {
    bh[i] && bh[i + 1]
  }

  /** How many of the first `m` places share their bucket. */
  ghost function Shared(bh: seq<bool>, m: nat): (r: nat)
    requires m < |bh|
    ensures r <= m
  {
    if m == 0 then 0 else Shared(bh, m - 1) + if Alone(bh, m - 1) then 0 else 1
  }

  lemma {:induction false} SharedSingles(bh: seq<bool>, from: nat, l: nat)
    requires from <= l < |bh| && forall i :: from <= i <= l ==> bh[i]
    ensures Shared(bh, l) == Shared(bh, from)
    decreases l
  {
    if from < l {
      SharedSingles(bh, from, l - 1);
    }
  }

  lemma {:induction false} SharedBucket(bh: seq<bool>, l: nat, r: nat, m: nat)
    requires l < r && l <= m <= r + 1 < |bh| && bh[l] && (forall i :: l < i <= r ==> !bh[i])
    ensures Shared(bh, m) == Shared(bh, l) + (m - l)
    decreases m
  {
    if l < m {
      SharedBucket(bh, l, r, m - 1);
    }
  }

  lemma SharedNext(bh: seq<bool>, bh': seq<bool>, from: nat, l: nat, r: nat)
    requires SameFrom(bh, bh', from) && from <= l < r && r + 1 < |bh|
    requires (forall i :: from <= i <= l ==> bh'[i]) && forall i :: l < i <= r ==> !bh'[i]
    ensures Shared(bh, r + 1) == Shared(bh, from) + (r - l + 1)
  {
    SharedSingles(bh, from, l);
    SharedBucket(bh, l, r, r + 1);
  }

  /** The next bucket l..r of two or more places after `r0`, if there is one. */
  method FindBucket(bhtab: array<bool>, nblock: nat, r0: int) returns (found: bool, l: nat, r: nat)
    requires -1 <= r0 < nblock && Sentinels(bhtab[..], nblock) && bhtab[r0 + 1]
    ensures r0 < l <= nblock && found == (l < nblock)
    ensures forall i :: r0 < i <= l ==> bhtab[i]
    ensures found ==> l < r < nblock && (forall i :: l < i <= r ==> !bhtab[i]) && bhtab[r + 1]
  {
    assert bhtab[nblock] && !bhtab[nblock + 1];
    var k := Skip(bhtab, r0 + 1, true, nblock + 1);
    l, r := k - 1, 0;
    if l >= nblock {
      return false, l, r;
    }
    k := Skip(bhtab, k, false, nblock);
    r := k - 1;
    found := r < nblock;
  }

  /** One turn of the bucket loop. */
  method NextBucket(ghost s: seq<int>, fmap: array<int>, eclass: array<int>, bhtab: array<bool>, h: nat, r0: int)
    returns (found: bool, l: nat, r: nat)
    requires fmap != eclass && fmap.Length == eclass.Length == |s| < 0x7fff_ffff
    requires -1 <= r0 < |s| && Doubling(s, fmap[..], bhtab[..], h, r0 + 1) && Classes(s, eclass[..], h)
    modifies fmap, bhtab
    ensures Doubling(s, fmap[..], bhtab[..], h, if found then r + 1 else |s|)
    ensures found ==> r0 < l < r < |s| && SameFrom(old(bhtab[..]), bhtab[..], r + 1)
    ensures found ==> (forall i :: r0 < i <= l ==> old(bhtab[i])) && forall i :: l < i <= r ==> !old(bhtab[i])
    ensures !found ==> fmap[..] == old(fmap[..]) && bhtab[..] == old(bhtab[..]) && forall i :: r0 < i < |s| ==> bhtab[i]
  {
    assert bhtab[r0 + 1];
    found, l, r := FindBucket(bhtab, fmap.Length, r0);
    SkipSingles(s, fmap[..], bhtab[..], h, r0 + 1, l);
    if found {
      RefineBucket(s, fmap, eclass, bhtab, h, l, r);
    }
  }

  /** The same, with the places that share their bucket counted. */
  method CountBucket(ghost s: seq<int>, fmap: array<int>, eclass: array<int>, bhtab: array<bool>, h: nat, r0: int,
                     ghost bh: seq<bool>)
    returns (found: bool, l: nat, r: nat)
    requires fmap != eclass && fmap.Length == eclass.Length == |s| < 0x7fff_ffff
    requires -1 <= r0 < |s| && Doubling(s, fmap[..], bhtab[..], h, r0 + 1) && Classes(s, eclass[..], h)
    requires SameFrom(bh, bhtab[..], r0 + 1)
    modifies fmap, bhtab
    ensures Doubling(s, fmap[..], bhtab[..], h, if found then r + 1 else |s|) && |s| < |bh|
    ensures found ==> r0 < l < r < |s| && SameFrom(bh, bhtab[..], r + 1)
    ensures found ==> Shared(bh, r + 1) == Shared(bh, r0 + 1) + (r - l + 1)
    ensures !found ==> (forall i :: r0 < i < |s| ==> bhtab[i]) && Shared(bh, |s|) == Shared(bh, r0 + 1)
  {
    ghost var now := bhtab[..];
    found, l, r := NextBucket(s, fmap, eclass, bhtab, h, r0);
    if found {
      SharedNext(bh, now, r0 + 1, l, r);
      SameFromLater(bh, now, bhtab[..], r0 + 1, r + 1);
    } else {
      SharedSingles(bh, r0 + 1, |s|);
    }
  }

  lemma SameFromLater(a: seq<bool>, b: seq<bool>, c: seq<bool>, m: nat, n: nat)
    requires SameFrom(a, b, m) && SameFrom(b, c, n) && m <= n
    ensures SameFrom(a, c, n)
  {
  }

  /** Every bucket in turn: from sorted by `h` characters to sorted by `2*h`. */
  method Double(ghost s: seq<int>, fmap: array<int>, eclass: array<int>, bhtab: array<bool>, h: nat)
    returns (nNotDone: nat)
    requires fmap != eclass && fmap.Length == eclass.Length == |s| < 0x7fff_ffff && |s| > 0
    requires Refined(s, fmap[..], bhtab[..], h) && Classes(s, eclass[..], h)
    modifies fmap, bhtab
    ensures Refined(s, fmap[..], bhtab[..], 2 * h)
    ensures nNotDone == Shared(old(bhtab[..]), |s|)
    ensures nNotDone == 0 ==> forall i :: 0 <= i < |s| ==> bhtab[i]
  {
    nNotDone := 0;
    var r := -1;
    ghost var e, bh := eclass[..], bhtab[..];
    DoublingStarts(s, fmap[..], bhtab[..], h);
    while true
      invariant -1 <= r < |s|
      invariant Doubling(s, fmap[..], bhtab[..], h, r + 1)
      invariant eclass[..] == e
      invariant nNotDone == Shared(bh, r + 1) && SameFrom(bh, bhtab[..], r + 1)
      invariant nNotDone == 0 ==> r == -1
      decreases |s| - r
    {
      var found, l, r' := CountBucket(s, fmap, eclass, bhtab, h, r, bh);
      if !found {
        break;
      }
      r := r';
      nNotDone := nNotDone + (r - l + 1);
    }
    DoublingEnds(s, fmap[..], bhtab[..], h);
  }

  /** Once prefixes cover the block, or no two places share one, the rotations are sorted. */
  lemma RefinedIsSorted(s: seq<int>, p: seq<int>, bh: seq<bool>, h: nat)
    requires Refined(s, p, bh, h)
    requires h >= |s| || forall i :: 0 <= i < |s| ==> bh[i]
    ensures SortsRotations(s, p)
  {
    forall a, b | 0 <= a < b < |s|
      ensures Cmp(s, p[a], p[b], |s|) <= 0
    {
      assert At(s, p, a, b, h) <= 0;
      if h >= |s| {
        CmpPastTurn(s, p[a], p[b], h);
      } else {
        MarkedIsAbove(s, p, bh, h, a, b);
        CmpSplit(s, p[a], p[b], h, |s| - h);
      }
    }
  }

  /** One turn of the loop. */
  method DoubleOnce(ghost s: seq<int>, fmap: array<int>, eclass: array<int>, bhtab: array<bool>, h: nat)
    returns (nNotDone: nat)
    requires fmap != eclass && fmap.Length == eclass.Length == |s| < 0x7fff_ffff && |s| > 0
    requires Refined(s, fmap[..], bhtab[..], h) && 1 <= h <= |s|
    modifies fmap, eclass, bhtab
    ensures Refined(s, fmap[..], bhtab[..], 2 * h)
    ensures nNotDone == 0 ==> forall i :: 0 <= i < |s| ==> bhtab[i]
  {
    AssignClasses(s, fmap, eclass, bhtab, h);
    nNotDone := Double(s, fmap, eclass, bhtab, h);
  }

  /** The log(N) loop. */
  method DoubleAll(ghost s: seq<int>, fmap: array<int>, eclass: array<int>, bhtab: array<bool>)
    requires fmap != eclass && fmap.Length == eclass.Length == |s| < 0x7fff_ffff && |s| > 0
    requires Refined(s, fmap[..], bhtab[..], 1)
    modifies fmap, eclass, bhtab
    ensures SortsRotations(s, fmap[..]) && Bucketed(s, fmap[..])
  {
    var h := 1;
    while true
      invariant 1 <= h <= |s|
      invariant Refined(s, fmap[..], bhtab[..], h)
      decreases |s| - h
    {
      var nNotDone := DoubleOnce(s, fmap, eclass, bhtab, h);
      h := h * 2;
      if h > fmap.Length || nNotDone == 0 {
        break;
      }
    }
    RefinedIsSorted(s, fmap[..], bhtab[..], h);
  }

  // ----- first headers, sentinels and the restored block -----

  /** Place `k` starts the bucket of some byte. */
  ghost predicate StartsBucket(s: seq<int>, k: int, top: nat) {
    exists c: nat :: c < top && Start(s, c) == k
  }

  /** Marks the start of each byte's bucket, then alternates set and clear bits past the block. */
  method InitHeaders(ghost s: seq<int>, nblock: nat, ftab: array<int>, bhtab: array<bool>)
    requires |s| == nblock && IsBytes(s) && ftab.Length == 257 && nblock + 64 <= bhtab.Length
    requires forall c :: 0 <= c < 256 ==> ftab[c] == Start(s, c)
    modifies bhtab
    ensures forall k :: 0 <= k < nblock ==> (bhtab[k] <==> StartsBucket(s, k, 256))
    ensures Sentinels(bhtab[..], nblock)
  {
    var nBhtab := 2 + nblock / 32;
    for i := 0 to 32 * nBhtab
      invariant forall k :: 0 <= k < i ==> !bhtab[k]
    {
      bhtab[i] := false;
    }
    for i := 0 to 256
      invariant forall k :: 0 <= k < nblock ==> (bhtab[k] <==> StartsBucket(s, k, i))
    {
      StartMono(s, i, 256);
      BelowAll(s, |s|);
      forall k | 0 <= k < nblock
        ensures StartsBucket(s, k, i + 1) <==> StartsBucket(s, k, i) || Start(s, i) == k
      {
        if StartsBucket(s, k, i + 1) {
          var c: nat :| c < i + 1 && Start(s, c) == k;
          assert c == i || c < i;
        }
      }
      bhtab[ftab[i]] := true;
    }
    for i := 0 to 32
      invariant forall k :: 0 <= k < nblock ==> (bhtab[k] <==> StartsBucket(s, k, 256))
      invariant i > 0 ==> bhtab[nblock] && !bhtab[nblock + 1]
    {
      bhtab[nblock + 2 * i] := true;
      bhtab[nblock + 2 * i + 1] := false;
    }
  }

  /** A place past the first starts a bucket exactly when its byte differs from the one before. */
  lemma StartsWhereByteChanges(s: seq<int>, p: seq<int>, i: nat)
    requires Bucketed(s, p) && 0 < i < |p|
    ensures StartsBucket(s, i, 256) <==> s[p[i - 1]] != s[p[i]]
  {
    assert InBucket(s, p, i - 1) && InBucket(s, p, i);
    BucketOrder(s, p, i - 1, i);
    var c, d: nat := s[p[i]], s[p[i - 1]];
    if d != c {
      StartMono(s, d + 1, c);
      assert Start(s, c) == i;
    } else if StartsBucket(s, i, 256) {
      var b: nat :| b < 256 && Start(s, b) == i;
      if b <= d {
        StartMono(s, b, d);
      } else {
        StartMono(s, d + 1, b);
      }
    }
  }

  lemma InitialRefined(s: seq<int>, p: seq<int>, bh: seq<bool>)
    requires |s| > 0 && IsPerm(p, |s|) && Bucketed(s, p) && Sentinels(bh, |s|)
    requires forall k :: 0 <= k < |s| ==> (bh[k] <==> StartsBucket(s, k, 256))
    ensures Refined(s, p, bh, 1)
  {
    assert Start(s, 0) == 0;
    forall a, b | 0 <= a < b < |s|
      ensures At(s, p, a, b, 1) <= 0
    {
      BucketOrder(s, p, a, b);
    }
    forall i | 0 < i < |s|
      ensures bh[i] <==> At(s, p, i - 1, i, 1) != 0
    {
      StartsWhereByteChanges(s, p, i);
    }
  }

  /** `eclass` and the block share storage, so writing classes leaves arbitrary bytes behind. */
  method Clobber(block: array<int>)
    modifies block
  {
    for i := 0 to block.Length {
      block[i] := *;
    }
  }

  /** What is left to hand out of byte `c` from place `i` on. */
  ghost function Left(s: seq<int>, c: nat, i: nat): int {
    if i >= Start(s, c + 1) then 0
    else if i <= Start(s, c) then Start(s, c + 1) - Start(s, c)
    else Start(s, c + 1) - i
  }

  /** Rebuilds the block from the sorted order and the byte counts alone. */
  method Restore(ghost s: seq<int>, fmap: array<int>, block: array<int>, ftabCopy: array<int>)
    requires fmap.Length == block.Length == |s| && ftabCopy.Length == 256
    requires fmap != block && ftabCopy != block && ftabCopy != fmap
    requires IsBytes(s) && IsPerm(fmap[..], |s|) && Bucketed(s, fmap[..])
    requires forall c :: 0 <= c < 256 ==> ftabCopy[c] == Count(s, c, |s|)
    modifies block, ftabCopy
    ensures block[..] == s
  {
    ghost var p := fmap[..];
    BelowAll(s, |s|);
    var j, i := 0, 0;
    while i < fmap.Length
      invariant 0 <= i <= |s| && 0 <= j <= 256 && Start(s, j) <= i && (i < |s| ==> j < 256)
      invariant fmap[..] == p
      invariant forall c :: 0 <= c < 256 ==> ftabCopy[c] == Left(s, c, i)
      invariant forall k :: 0 <= k < i ==> block[p[k]] == s[p[k]]
    {
      while ftabCopy[j] == 0
        invariant 0 <= j < 256 && Start(s, j) <= i
        decreases 256 - j
      {
        j := j + 1;
      }
      assert InBucket(s, p, i);
      BucketUnique(s, i, j, s[p[i]]);
      ForOthers(s, j, i);
      ftabCopy[j] := ftabCopy[j] - 1;
      block[fmap[i]] := j;
      i := i + 1;
    }
    forall x | 0 <= x < |s|
      ensures block[x] == s[x]
    {
      Counting.PermHits(p, |s|, x);
    }
  }

  /** Handing out one `j` at place `i` touches no other byte's remainder. */
  lemma ForOthers(s: seq<int>, j: nat, i: nat)
    requires Start(s, j) <= i < Start(s, j + 1)
    ensures forall c: nat :: c != j ==> Left(s, c, i + 1) == Left(s, c, i)
    ensures Left(s, j, i + 1) == Left(s, j, i) - 1
  {
    forall c: nat | c != j
      ensures Left(s, c, i + 1) == Left(s, c, i)
    {
      if c < j {
        StartMono(s, c + 1, j);
      } else {
        StartMono(s, j + 1, c);
      }
    }
  }

  /** `fallbackSort`: leaves `fmap` listing the rotations in order and the block bytes as they were. */
  method Sort(block: array<int>, fmap: array<int>, eclass: array<int>, bhtab: array<bool>)
    requires block.Length == fmap.Length == eclass.Length && 0 < block.Length < 0x7fff_ffff
    requires block.Length + 64 <= bhtab.Length
    requires fmap != eclass && fmap != block && eclass != block
    requires IsBytes(block[..])
    modifies block, fmap, eclass, bhtab
    ensures block[..] == old(block[..])
    ensures SortsRotations(old(block[..]), fmap[..])
  {
    ghost var s := block[..];
    var nblock := block.Length;
    var ftab, ftabCopy := new int[257], new int[256];
    assert block[..nblock] == s;
    CountBytes(block, nblock, ftab);
    for i := 0 to 256
      invariant forall c :: 0 <= c < i ==> ftabCopy[c] == ftab[c]
      invariant forall c :: 0 <= c < 256 ==> ftab[c] == Count(s, c, |s|)
      invariant ftab[256] == 0 && block[..] == s
    {
      ftabCopy[i] := ftab[i];
    }
    Accumulate(s, ftab);
    assert block[..nblock] == s;
    Place(block, nblock, ftab, fmap);
    assert fmap[..nblock] == fmap[..];
    InitHeaders(s, nblock, ftab, bhtab);
    InitialRefined(s, fmap[..], bhtab[..]);
    Clobber(block);
    DoubleAll(s, fmap, eclass, bhtab);
    Restore(s, fmap, block, ftabCopy);
  }

  /** The search for the unrotated block that ends `BZ2_blockSort`. */
  method FindOrigin(ptr: array<int>) returns (origPtr: nat)
    requires ptr.Length > 0 && IsPerm(ptr[..], ptr.Length)
    ensures origPtr < ptr.Length && ptr[origPtr] == 0
    ensures forall k :: 0 <= k < ptr.Length && ptr[k] == 0 ==> k == origPtr
  {
    Counting.PermHits(ptr[..], ptr.Length, 0);
    ghost var o :| 0 <= o < ptr.Length && ptr[..][o] == 0;
    origPtr := 0;
    while ptr[origPtr] != 0
      invariant 0 <= origPtr <= o
      decreases o - origPtr
    {
      origPtr := origPtr + 1;
    }
  }
}
