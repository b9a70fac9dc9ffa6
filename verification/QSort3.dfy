/** Rearrangements of part of an array. */
module Shuffle {
  import opened Counting

  /** `b` is `a` read through `pi`, a bijection on the positions lo..hi that fixes all others. */
  ghost predicate Via(a: seq<int>, b: seq<int>, pi: seq<int>, lo: int, hi: int) {
    && |a| == |b| == |pi|
    && (forall k {:trigger pi[k]} :: 0 <= k < |a| ==> 0 <= pi[k] < |a| && b[k] == a[pi[k]])
    && (forall k :: 0 <= k < |a| ==> if lo <= k <= hi then lo <= pi[k] <= hi else pi[k] == k)
    && (forall x, y :: 0 <= x < y < |a| ==> pi[x] != pi[y])
  }

  /** `b` is `a` with the entries lo..hi rearranged and nothing else changed. */
  ghost predicate Shuffles(a: seq<int>, b: seq<int>, lo: int, hi: int) {
    && |a| == |b|
    && (forall k {:trigger b[k]} :: 0 <= k < |a| && !(lo <= k <= hi) ==> a[k] == b[k])
    && exists pi: seq<int> :: Via(a, b, pi, lo, hi)
  }

  function Swapped(a: seq<int>, i: nat, j: nat): (r: seq<int>)
    requires i < |a| && j < |a|
    ensures |r| == |a|
  {
    a[i := a[j]][j := a[i]]
  }

  lemma ShuffleRefl(a: seq<int>, lo: int, hi: int)
    ensures Shuffles(a, a, lo, hi)
  {
    assert Via(a, a, seq(|a|, k => k), lo, hi);
  }

  lemma ShuffleTrans(a: seq<int>, b: seq<int>, c: seq<int>, lo: int, hi: int, lo': int, hi': int)
    requires Shuffles(a, b, lo, hi) && Shuffles(b, c, lo', hi') && lo <= lo' && hi' <= hi
    ensures Shuffles(a, c, lo, hi)
  {
    var f: seq<int> :| Via(a, b, f, lo, hi);
    var g: seq<int> :| Via(b, c, g, lo', hi');
    assert Via(a, c, seq(|a|, k requires 0 <= k < |a| => f[g[k]]), lo, hi);
  }

  lemma SwapShuffles(a: seq<int>, b: seq<int>, i: nat, j: nat, lo: int, hi: int)
    requires Shuffles(a, b, lo, hi)
    requires i < |b| && j < |b| && lo <= i <= hi && lo <= j <= hi
    ensures Shuffles(a, Swapped(b, i, j), lo, hi)
  {
    var f: seq<int> :| Via(a, b, f, lo, hi);
    assert Via(a, Swapped(b, i, j), Swapped(f, i, j), lo, hi);
  }

  /** Every entry of the rearranged part was there before. */
  lemma ShuffleFrom(a: seq<int>, b: seq<int>, lo: nat, hi: int, k: nat) returns (j: nat)
    requires Shuffles(a, b, lo, hi) && lo <= k <= hi < |a|
    ensures lo <= j <= hi && b[k] == a[j]
  {
    var f: seq<int> :| Via(a, b, f, lo, hi);
    j := f[k];
  }

  /** ... and every entry that was there still is. */
  lemma ShuffleTo(a: seq<int>, b: seq<int>, lo: nat, hi: int, j: nat) returns (k: nat)
    requires Shuffles(a, b, lo, hi) && lo <= j <= hi < |a|
    ensures lo <= k <= hi && b[k] == a[j]
  {
    var f: seq<int> :| Via(a, b, f, lo, hi);
    PermHits(f, |a|, j);
    k :| 0 <= k < |a| && f[k] == j;
  }
}

/** The sort by equivalence class inside one bucket: a four-step shell pass with
    an insertion sort for small parts, three-way partitioning for large ones. */
module QSort3 {
  import opened Shuffle
  import opened Powers

  /** The entries lo..hi of `fmap` index into `eclass`. */
  ghost predicate Indexes(m: seq<int>, e: seq<int>, lo: int, hi: int) {
    && 0 <= lo <= hi + 1 <= |m|
    && forall k :: lo <= k <= hi ==> 0 <= m[k] < |e|
  }

  /** The entries lo..hi of `fmap` are in non-decreasing order of class. */
  ghost predicate Sorted(m: seq<int>, e: seq<int>, lo: int, hi: int)
    requires Indexes(m, e, lo, hi)
  {
    forall a, b :: lo <= a < b <= hi ==> e[m[a]] <= e[m[b]]
  }

  // ----- small parts -----

  /** The entries i..hi are sorted apart from entry `j`, which is past all smaller ones below it. */
  ghost predicate Sunk(m: seq<int>, e: seq<int>, i: int, j: int, hi: int)
    requires Indexes(m, e, i, hi)
  {
    && i <= j <= hi
    && (forall a, b :: i <= a < b <= hi && a != j && b != j ==> e[m[a]] <= e[m[b]])
    && (forall a :: i <= a < j ==> e[m[a]] <= e[m[j]])
  }

  lemma SinkStep(m: seq<int>, e: seq<int>, i: nat, j: nat, hi: int)
    requires Indexes(m, e, i, hi) && j < hi && Sunk(m, e, i, j, hi)
    requires e[m[j]] > e[m[j + 1]]
    ensures Indexes(Swapped(m, j, j + 1), e, i, hi)
    ensures Sunk(Swapped(m, j, j + 1), e, i, j + 1, hi)
  {
  }

  /** What sinking entry `i` keeps once it has reached `j`. */
  ghost predicate Sinking(before: seq<int>, m: seq<int>, e: seq<int>, i: int, j: int, hi: int, step: nat) {
    && i <= j <= hi
    && Indexes(before, e, i, hi)
    && Indexes(m, e, i, hi)
    && Shuffles(before, m, i, hi)
    && (step == 1 && Sorted(before, e, i + 1, hi) ==> Sunk(m, e, i, j, hi))
  }

  lemma SinkingStep(before: seq<int>, m: seq<int>, e: seq<int>, i: nat, j: nat, hi: int, step: nat)
    requires Sinking(before, m, e, i, j, hi, step) && step > 0 && j + step <= hi
    requires e[m[j]] > e[m[j + step]]
    ensures Sinking(before, Swapped(m, j, j + step), e, i, j + step, hi, step)
  {
    SwapIndexes(m, e, j, j + step, i, hi);
    SwapShuffles(before, m, j, j + step, i, hi);
    if step == 1 && Sorted(before, e, i + 1, hi) {
      SinkStep(m, e, i, j, hi);
    }
  }

  lemma SwapIndexes(m: seq<int>, e: seq<int>, x: nat, y: nat, lo: nat, hi: int)
    requires Indexes(m, e, lo, hi) && lo <= x <= hi && lo <= y <= hi
    ensures Indexes(Swapped(m, x, y), e, lo, hi)
  {
  }

  /** Sinks entry `i` into its place among i+step, i+2*step, ... */
  method Insert(fmap: array<int>, eclass: array<int>, i: nat, hi: int, step: nat)
    requires fmap != eclass && step > 0 && i <= hi
    requires Indexes(fmap[..], eclass[..], i, hi)
    modifies fmap
    ensures Shuffles(old(fmap[..]), fmap[..], i, hi)
    ensures Indexes(fmap[..], eclass[..], i, hi)
    ensures step == 1 && old(Sorted(fmap[..], eclass[..], i + 1, hi)) ==> Sorted(fmap[..], eclass[..], i, hi)
  {
    ghost var before, e := fmap[..], eclass[..];
    var tmp := fmap[i];
    var ecTmp := eclass[tmp];
    var j := i + step;
    ShuffleRefl(before, i, hi);
    ghost var full := before;  // fmap with `tmp` back in the hole at j - step
    while j <= hi && ecTmp > eclass[fmap[j]]
      invariant i + step <= j <= hi + step
      invariant HoleAt(fmap[..], full, j - step, tmp) && (j <= hi ==> full[j] == fmap[j])
      invariant Sinking(before, full, e, i, j - step, hi, step)
    {
      full := MoveHole(fmap, before, full, e, i, j, hi, step, tmp);
      j := j + step;
    }
    fmap[j - step] := tmp;
    assert fmap[..] == full;
    SinkingEnds(before, full, e, i, j - step, hi, step);
  }

  /** Entry `j` goes into the hole `step` places before it. */
  method MoveHole(fmap: array<int>, ghost before: seq<int>, ghost full: seq<int>, ghost e: seq<int>, ghost i: nat,
                  j: nat, ghost hi: int,
                  step: nat, ghost tmp: int)
    returns (ghost full': seq<int>)
    requires 0 < step && i + step <= j <= hi && HoleAt(fmap[..], full, j - step, tmp)
    requires Sinking(before, full, e, i, j - step, hi, step)
    requires e[full[j - step]] > e[full[j]]
    modifies fmap
    ensures HoleAt(fmap[..], full', j, tmp) && Sinking(before, full', e, i, j, hi, step)
    ensures j + step <= hi ==> full'[j + step] == fmap[j + step]
  {
    SinkingStep(before, full, e, i, j - step, hi, step);
    HoleMoves(fmap[..], full, j - step, j, tmp);
    ghost var m := fmap[..];
    fmap[j - step] := fmap[j];
    assert fmap[..] == m[j - step := m[j]];
    full' := Swapped(full, j - step, j);
  }

  /** `full` is `m` with `tmp` back in the hole at `h`. */
  ghost predicate HoleAt(m: seq<int>, full: seq<int>, h: int, tmp: int) {
    |full| == |m| && 0 <= h < |m| && full == m[h := tmp]
  }

  lemma HoleMoves(m: seq<int>, full: seq<int>, h: nat, j: nat, tmp: int)
    requires HoleAt(m, full, h, tmp) && j < |m| && h != j
    ensures HoleAt(m[h := m[j]], Swapped(full, h, j), j, tmp) && full[h] == tmp && full[j] == m[j]
  {
    assert Swapped(full, h, j) == m[h := m[j]][j := tmp];
  }

  lemma SinkingEnds(before: seq<int>, m: seq<int>, e: seq<int>, i: nat, j: nat, hi: int, step: nat)
    requires Sinking(before, m, e, i, j, hi, step) && step > 0 && (j + step <= hi ==> e[m[j]] <= e[m[j + step]])
    ensures step == 1 && Sorted(before, e, i + 1, hi) ==> Sorted(m, e, i, hi)
  {
  }

  method InsertionPass(fmap: array<int>, eclass: array<int>, lo: nat, hi: int, step: nat)
    requires fmap != eclass && step > 0
    requires Indexes(fmap[..], eclass[..], lo, hi)
    modifies fmap
    ensures Shuffles(old(fmap[..]), fmap[..], lo, hi)
    ensures Indexes(fmap[..], eclass[..], lo, hi)
    ensures step == 1 ==> Sorted(fmap[..], eclass[..], lo, hi)
  {
    ghost var before := fmap[..];
    ShuffleRefl(before, lo, hi);
    var i := hi - step;
    while i >= lo
      invariant i <= hi - step && (i >= lo - 1 || i == hi - step)
      invariant Indexes(fmap[..], eclass[..], lo, hi)
      invariant Shuffles(before, fmap[..], lo, hi)
      invariant step == 1 && i >= lo - 1 ==> Sorted(fmap[..], eclass[..], i + 1, hi)
    {
      ghost var now := fmap[..];
      Insert(fmap, eclass, i, hi, step);
      ShuffleTrans(before, now, fmap[..], lo, hi, i, hi);
      i := i - 1;
    }
  }

  /** `fallbackSimpleSort`: one shell pass of stride four, then insertion sort. */
  method SimpleSort(fmap: array<int>, eclass: array<int>, lo: nat, hi: int)
    requires fmap != eclass
    requires Indexes(fmap[..], eclass[..], lo, hi)
    modifies fmap
    ensures Shuffles(old(fmap[..]), fmap[..], lo, hi)
    ensures Indexes(fmap[..], eclass[..], lo, hi)
    ensures Sorted(fmap[..], eclass[..], lo, hi)
  {
    ghost var before := fmap[..];
    if lo == hi {
      ShuffleRefl(before, lo, hi);
      return;
    }
    ShuffleRefl(before, lo, hi);
    if hi - lo > 3 {
      InsertionPass(fmap, eclass, lo, hi, 4);
    }
    ghost var middle := fmap[..];
    InsertionPass(fmap, eclass, lo, hi, 1);
    ShuffleTrans(before, middle, fmap[..], lo, hi, lo, hi);
  }

  // ----- large parts: three-way partition -----

  /** Bentley-McIlroy bands: equal, less, unread, greater, equal. */
  ghost predicate Bands(m: seq<int>, e: seq<int>, med: int, lo: int, hi: int,
                        ltLo: int, unLo: int, unHi: int, gtHi: int)
  {
    && Indexes(m, e, lo, hi)
    && lo <= ltLo <= unLo <= unHi + 1 <= gtHi + 1 <= hi + 1
    && (forall k :: lo <= k < ltLo ==> e[m[k]] == med)
    && (forall k :: ltLo <= k < unLo ==> e[m[k]] < med)
    && (forall k :: unHi < k <= gtHi ==> e[m[k]] > med)
    && (forall k :: gtHi < k <= hi ==> e[m[k]] == med)
  }

  lemma BandsEqualLow(m: seq<int>, e: seq<int>, med: int, lo: nat, hi: int, ltLo: nat, unLo: nat, unHi: int, gtHi: int)
    requires Bands(m, e, med, lo, hi, ltLo, unLo, unHi, gtHi) && unLo <= unHi && e[m[unLo]] == med
    ensures Bands(Swapped(m, unLo, ltLo), e, med, lo, hi, ltLo + 1, unLo + 1, unHi, gtHi)
  {
  }

  lemma BandsEqualHigh(m: seq<int>, e: seq<int>, med: int, lo: nat, hi: int, ltLo: nat, unLo: nat, unHi: int, gtHi: int)
    requires Bands(m, e, med, lo, hi, ltLo, unLo, unHi, gtHi) && unLo <= unHi && e[m[unHi]] == med
    ensures Bands(Swapped(m, unHi, gtHi), e, med, lo, hi, ltLo, unLo, unHi - 1, gtHi - 1)
  {
  }

  lemma BandsExchange(m: seq<int>, e: seq<int>, med: int, lo: nat, hi: int, ltLo: nat, unLo: nat, unHi: int, gtHi: int)
    requires Bands(m, e, med, lo, hi, ltLo, unLo, unHi, gtHi)
    requires unLo <= unHi && e[m[unLo]] > med && e[m[unHi]] < med
    ensures Bands(Swapped(m, unLo, unHi), e, med, lo, hi, ltLo, unLo + 1, unHi - 1, gtHi)
  {
  }

  /** Grows the low bands until an entry above the pivot is met. */
  method ScanUp(fmap: array<int>, eclass: array<int>, med: int, lo: nat, hi: int,
                ltLo0: nat, unLo0: nat, unHi: int, gtHi: int)
    returns (ltLo: nat, unLo: nat)
    requires fmap != eclass
    requires Bands(fmap[..], eclass[..], med, lo, hi, ltLo0, unLo0, unHi, gtHi)
    modifies fmap
    ensures Bands(fmap[..], eclass[..], med, lo, hi, ltLo, unLo, unHi, gtHi)
    ensures Shuffles(old(fmap[..]), fmap[..], lo, hi)
    ensures unLo0 <= unLo && (unLo <= unHi ==> eclass[fmap[unLo]] > med)
  {
    ltLo, unLo := ltLo0, unLo0;
    ghost var before := fmap[..];
    ShuffleRefl(before, lo, hi);
    while unLo <= unHi
      invariant unLo0 <= unLo
      invariant Bands(fmap[..], eclass[..], med, lo, hi, ltLo, unLo, unHi, gtHi)
      invariant Shuffles(before, fmap[..], lo, hi)
    {
      ghost var m, e := fmap[..], eclass[..];
      var n := eclass[fmap[unLo]] - med;
      if n == 0 {
        BandsEqualLow(m, e, med, lo, hi, ltLo, unLo, unHi, gtHi);
        SwapShuffles(before, m, unLo, ltLo, lo, hi);
        fmap[unLo], fmap[ltLo] := fmap[ltLo], fmap[unLo];
        assert fmap[..] == Swapped(m, unLo, ltLo);
        ltLo := ltLo + 1;
      } else if n > 0 {
        break;
      }
      unLo := unLo + 1;
    }
  }

  /** An entry equal to the pivot goes to the equal band at the upper end. */
  method EqualHigh(fmap: array<int>, eclass: array<int>, med: int, lo: nat, hi: int, ltLo: nat, unLo: nat, unHi: int,
                   gtHi: int,
                   ghost before: seq<int>)
    requires fmap != eclass && Bands(fmap[..], eclass[..], med, lo, hi, ltLo, unLo, unHi, gtHi) && unLo <= unHi
    requires eclass[fmap[unHi]] == med && Shuffles(before, fmap[..], lo, hi) && eclass[fmap[unLo]] > med
    modifies fmap
    ensures Bands(fmap[..], eclass[..], med, lo, hi, ltLo, unLo, unHi - 1, gtHi - 1)
    ensures Shuffles(before, fmap[..], lo, hi)
    ensures unLo <= unHi - 1 ==> eclass[fmap[unLo]] > med
  {
    ghost var m := fmap[..];
    BandsEqualHigh(m, eclass[..], med, lo, hi, ltLo, unLo, unHi, gtHi);
    SwapShuffles(before, m, unHi, gtHi, lo, hi);
    fmap[unHi], fmap[gtHi] := fmap[gtHi], fmap[unHi];
    assert fmap[..] == Swapped(m, unHi, gtHi);
  }

  /** Grows the high bands until an entry below the pivot is met. */
  method ScanDown(fmap: array<int>, eclass: array<int>, med: int, lo: nat, hi: int,
                  ltLo: nat, unLo: nat, unHi0: int, gtHi0: int)
    returns (unHi: int, gtHi: int)
    requires fmap != eclass
    requires Bands(fmap[..], eclass[..], med, lo, hi, ltLo, unLo, unHi0, gtHi0)
    requires unLo <= unHi0 ==> eclass[fmap[unLo]] > med
    modifies fmap
    ensures Bands(fmap[..], eclass[..], med, lo, hi, ltLo, unLo, unHi, gtHi)
    ensures Shuffles(old(fmap[..]), fmap[..], lo, hi)
    ensures unHi <= unHi0 && (unLo <= unHi ==> eclass[fmap[unHi]] < med && eclass[fmap[unLo]] > med)
  {
    unHi, gtHi := unHi0, gtHi0;
    ghost var before := fmap[..];
    ShuffleRefl(before, lo, hi);
    while unLo <= unHi
      invariant unHi <= unHi0
      invariant Bands(fmap[..], eclass[..], med, lo, hi, ltLo, unLo, unHi, gtHi)
      invariant Shuffles(before, fmap[..], lo, hi)
      invariant unLo <= unHi ==> eclass[fmap[unLo]] > med
    {
      var n := eclass[fmap[unHi]] - med;
      if n == 0 {
        EqualHigh(fmap, eclass, med, lo, hi, ltLo, unLo, unHi, gtHi, before);
        gtHi := gtHi - 1;
      } else if n < 0 {
        break;
      }
      unHi := unHi - 1;
    }
  }

  /** The loop that sorts lo..hi into the five bands with nothing left unread. */
  method Partition(fmap: array<int>, eclass: array<int>, med: int, lo: nat, hi: int)
    returns (ltLo: nat, unLo: nat, unHi: int, gtHi: int)
    requires fmap != eclass && lo <= hi
    requires Indexes(fmap[..], eclass[..], lo, hi)
    modifies fmap
    ensures Bands(fmap[..], eclass[..], med, lo, hi, ltLo, unLo, unHi, gtHi)
    ensures unLo == unHi + 1
    ensures Shuffles(old(fmap[..]), fmap[..], lo, hi)
  {
    ltLo, unLo, unHi, gtHi := lo, lo, hi, hi;
    ghost var before := fmap[..];
    ShuffleRefl(before, lo, hi);
    while true
      invariant Bands(fmap[..], eclass[..], med, lo, hi, ltLo, unLo, unHi, gtHi)
      invariant Shuffles(before, fmap[..], lo, hi)
      decreases unHi + 1 - unLo
    {
      ghost var m0 := fmap[..];
      ltLo, unLo := ScanUp(fmap, eclass, med, lo, hi, ltLo, unLo, unHi, gtHi);
      ghost var m1 := fmap[..];
      unHi, gtHi := ScanDown(fmap, eclass, med, lo, hi, ltLo, unLo, unHi, gtHi);
      ghost var m2 := fmap[..];
      ShuffleTrans(before, m0, m1, lo, hi, lo, hi);
      ShuffleTrans(before, m1, m2, lo, hi, lo, hi);
      if unLo > unHi {
        break;
      }
      BandsExchange(m2, eclass[..], med, lo, hi, ltLo, unLo, unHi, gtHi);
      SwapShuffles(before, m2, unLo, unHi, lo, hi);
      fmap[unLo], fmap[unHi] := fmap[unHi], fmap[unLo];
      assert fmap[..] == Swapped(m2, unLo, unHi);
      unLo, unHi := unLo + 1, unHi - 1;
    }
  }

  /** `a` with the `n` entries from `p1` and from `p2` exchanged. */
  ghost function VecSwapped(a: seq<int>, p1: nat, p2: nat, n: nat): (r: seq<int>)
    requires p1 + n <= p2 && p2 + n <= |a|
    ensures |r| == |a|
  {
    seq(|a|, k requires 0 <= k < |a| =>
      if p1 <= k < p1 + n then a[k - p1 + p2] else if p2 <= k < p2 + n then a[k - p2 + p1] else a[k])
  }

  lemma VecSwapStep(a: seq<int>, p1: nat, p2: nat, n: nat)
    requires p1 + n < p2 && p2 + n < |a|
    ensures VecSwapped(a, p1, p2, n + 1) == Swapped(VecSwapped(a, p1, p2, n), p1 + n, p2 + n)
  {
  }

  /** `mvswap` */
  method VecSwap(fmap: array<int>, p1: nat, p2: nat, n: nat, ghost lo: int, ghost hi: int)
    requires p1 + n <= p2 && p2 + n <= fmap.Length && lo <= p1 && p2 + n <= hi + 1
    modifies fmap
    ensures fmap[..] == VecSwapped(old(fmap[..]), p1, p2, n)
    ensures Shuffles(old(fmap[..]), fmap[..], lo, hi)
  {
    ghost var before := fmap[..];
    ShuffleRefl(before, lo, hi);
    var zzp1, zzp2, zzn := p1, p2, n;
    assert VecSwapped(before, p1, p2, 0) == before;
    while zzn > 0
      invariant 0 <= zzn <= n && zzp1 == p1 + n - zzn && zzp2 == p2 + n - zzn
      invariant fmap[..] == VecSwapped(before, p1, p2, n - zzn)
      invariant Shuffles(before, fmap[..], lo, hi)
    {
      ghost var m := fmap[..];
      VecSwapStep(before, p1, p2, n - zzn);
      SwapShuffles(before, m, zzp1, zzp2, lo, hi);
      fmap[zzp1], fmap[zzp2] := fmap[zzp2], fmap[zzp1];
      assert fmap[..] == Swapped(m, zzp1, zzp2);
      zzp1, zzp2, zzn := zzp1 + 1, zzp2 + 1, zzn - 1;
    }
  }

  function Min(a: int, b: int): int { if a < b then a else b }

  /** lo..n below the pivot, between equal to it, m..hi above it. */
  ghost predicate ThreeWay(f: seq<int>, e: seq<int>, med: int, lo: int, n: int, m: int, hi: int) {
    && Indexes(f, e, lo, hi)
    && lo <= n + 1 <= m <= hi + 1
    && (forall k :: lo <= k <= n ==> e[f[k]] < med)
    && (forall k :: n < k < m ==> e[f[k]] == med)
    && (forall k :: m <= k <= hi ==> e[f[k]] > med)
  }

  /** Exchanging the outer equal band with the end of the less band. */
  lemma LowBandMoves(f: seq<int>, e: seq<int>, med: int, lo: nat, hi: int, ltLo: nat, unLo: nat, gtHi: int,
                     f': seq<int>)
    requires Bands(f, e, med, lo, hi, ltLo, unLo, unLo - 1, gtHi)
    requires var n := Min(ltLo - lo, unLo - ltLo); f' == VecSwapped(f, lo, unLo - n, n)
    ensures Indexes(f', e, lo, hi)
    ensures forall k :: lo <= k < lo + unLo - ltLo ==> e[f'[k]] < med
    ensures forall k :: lo + unLo - ltLo <= k < unLo ==> e[f'[k]] == med
    ensures forall k :: unLo <= k <= gtHi ==> e[f'[k]] > med
    ensures forall k :: gtHi < k <= hi ==> e[f'[k]] == med
  {
  }

  lemma HighBandMoves(f: seq<int>, e: seq<int>, med: int, lo: nat, n: int, unLo: nat, gtHi: int, hi: int, f': seq<int>)
    requires Indexes(f, e, lo, hi) && lo <= n + 1 <= unLo <= gtHi + 1 <= hi + 1
    requires forall k :: lo <= k <= n ==> e[f[k]] < med
    requires forall k :: n < k < unLo ==> e[f[k]] == med
    requires forall k :: unLo <= k <= gtHi ==> e[f[k]] > med
    requires forall k :: gtHi < k <= hi ==> e[f[k]] == med
    requires var m := Min(hi - gtHi, gtHi - unLo + 1); f' == VecSwapped(f, unLo, hi - m + 1, m)
    ensures ThreeWay(f', e, med, lo, n, hi - (gtHi - unLo + 1) + 1, hi)
  {
  }

  /** Gathers the two equal bands in the middle. */
  method GatherEqual(fmap: array<int>, eclass: array<int>, med: int, lo: nat, hi: int, ltLo: nat, unLo: nat, gtHi: int)
    returns (n: int, m: int)
    requires fmap != eclass
    requires Bands(fmap[..], eclass[..], med, lo, hi, ltLo, unLo, unLo - 1, gtHi)
    modifies fmap
    ensures Shuffles(old(fmap[..]), fmap[..], lo, hi)
    ensures ThreeWay(fmap[..], eclass[..], med, lo, n, m, hi)
  {
    ghost var f0, e := fmap[..], eclass[..];
    n := Min(ltLo - lo, unLo - ltLo);
    VecSwap(fmap, lo, unLo - n, n, lo, hi);
    ghost var f1 := fmap[..];
    LowBandMoves(f0, e, med, lo, hi, ltLo, unLo, gtHi, f1);
    m := Min(hi - gtHi, gtHi - unLo + 1);
    VecSwap(fmap, unLo, hi - m + 1, m, lo, hi);
    assert eclass[..] == e;
    HighBandMoves(f1, e, med, lo, lo + unLo - ltLo - 1, unLo, gtHi, hi, fmap[..]);
    ShuffleTrans(f0, f1, fmap[..], lo, hi, lo, hi);
    n := lo + unLo - ltLo - 1;
    m := hi - (gtHi - unLo + 1) + 1;
  }

  /** One partitioning step; `done` when every entry was equal to the pivot. */
  method PartitionThree(fmap: array<int>, eclass: array<int>, med: int, lo: nat, hi: int)
    returns (done: bool, n: int, m: int)
    requires fmap != eclass && lo <= hi
    requires Indexes(fmap[..], eclass[..], lo, hi)
    modifies fmap
    ensures Shuffles(old(fmap[..]), fmap[..], lo, hi)
    ensures done ==> Indexes(fmap[..], eclass[..], lo, hi) && Sorted(fmap[..], eclass[..], lo, hi)
    ensures !done ==> ThreeWay(fmap[..], eclass[..], med, lo, n, m, hi)
  {
    var ltLo, unLo, unHi, gtHi := Partition(fmap, eclass, med, lo, hi);
    if gtHi < ltLo {
      return true, 0, 0;
    }
    ghost var f := fmap[..];
    done := false;
    n, m := GatherEqual(fmap, eclass, med, lo, hi, ltLo, unLo, gtHi);
    ShuffleTrans(old(fmap[..]), f, fmap[..], lo, hi, lo, hi);
  }

  /** The pivot itself lies in the middle part, so both outer parts are smaller. */
  lemma PivotInMiddle(before: seq<int>, f: seq<int>, e: seq<int>, lo: nat, n: int, m: int, hi: int, p: nat)
    requires Indexes(before, e, lo, hi) && lo <= p <= hi
    requires Shuffles(before, f, lo, hi) && ThreeWay(f, e, e[before[p]], lo, n, m, hi)
    ensures n + 1 < m
  {
    var k := ShuffleTo(before, f, lo, hi, p);
  }

  // ----- the explicit stack -----

  /** Deals with one popped part: sorts it, or splits it around a pseudo-random pivot. */
  method Step(fmap: array<int>, eclass: array<int>, lo: nat, hi: int, r0: nat)
    returns (split: bool, n: int, m: int, r: nat, ghost med: int)
    requires fmap != eclass
    requires Indexes(fmap[..], eclass[..], lo, hi)
    modifies fmap
    ensures Shuffles(old(fmap[..]), fmap[..], lo, hi)
    ensures Indexes(fmap[..], eclass[..], lo, hi)
    ensures !split ==> Sorted(fmap[..], eclass[..], lo, hi)
    ensures split ==> hi - lo >= 10 && ThreeWay(fmap[..], eclass[..], med, lo, n, m, hi) && n + 1 < m
  {
    r, med := r0, 0;
    if hi - lo < 10 {
      SimpleSort(fmap, eclass, lo, hi);
      return false, 0, 0, r, med;
    }
    r := (r * 7621 + 1) % 32768;
    var r3 := r % 3;
    var p := if r3 == 0 then lo else if r3 == 1 then (lo + hi) / 2 else hi;
    ghost var before := fmap[..];
    var pivot := eclass[fmap[p]];
    med := pivot;
    var done;
    done, n, m := PartitionThree(fmap, eclass, pivot, lo, hi);
    split := !done;
    if split {
      PivotInMiddle(before, fmap[..], eclass[..], lo, n, m, hi, p);
    }
  }

  /** Both positions lie in one part still to be sorted. */
  ghost predicate InOnePart(los: seq<int>, his: seq<int>, i: int, j: int)
    requires |los| == |his|
  {
    exists k :: 0 <= k < |los| && los[k] <= i && j <= his[k]
  }

  ghost predicate Parts(los: seq<int>, his: seq<int>, lo: int, hi: int) {
    && |los| == |his|
    && (forall k :: 0 <= k < |los| ==> lo <= los[k] <= his[k] + 1 <= hi + 1)
    && (forall a, b :: 0 <= a < b < |los| ==> his[a] < los[b] || his[b] < los[a])
  }

  /** lo..hi is sorted except within the disjoint parts on the stack. */
  ghost predicate Pending(f: seq<int>, e: seq<int>, lo: int, hi: int, los: seq<int>, his: seq<int>) {
    && Indexes(f, e, lo, hi)
    && Parts(los, his, lo, hi)
    && (forall i, j :: lo <= i < j <= hi ==> e[f[i]] <= e[f[j]] || InOnePart(los, his, i, j))
  }

  /** Positions not both in the top part keep their order when that part is rearranged. */
  lemma PairOutside(f: seq<int>, f': seq<int>, e: seq<int>, lo: nat, hi: int, los: seq<int>, his: seq<int>, i: nat,
                    j: nat)
    requires Pending(f, e, lo, hi, los, his) && |los| > 0
    requires Indexes(f', e, lo, hi) && Shuffles(f, f', los[|los| - 1], his[|los| - 1])
    requires lo <= i < j <= hi && !(los[|los| - 1] <= i && j <= his[|los| - 1])
    ensures e[f'[i]] <= e[f'[j]] || InOnePart(los[..|los| - 1], his[..|los| - 1], i, j)
  {
    var t := |los| - 1;
    var i', j' := i, j;
    if los[t] <= i <= his[t] { i' := ShuffleFrom(f, f', los[t], his[t], i); }
    if los[t] <= j <= his[t] { j' := ShuffleFrom(f, f', los[t], his[t], j); }
    if e[f[i']] > e[f[j']] {
      var k :| 0 <= k < |los| && los[k] <= i' && j' <= his[k];
      assert k < t;
      assert los[..t][k] <= i && j <= his[..t][k];
    }
  }

  lemma InOnePartGrows(los: seq<int>, his: seq<int>, nlos: seq<int>, nhis: seq<int>, i: int, j: int)
    requires |los| == |his| && |nlos| == |nhis|
    ensures InOnePart(los, his, i, j) || InOnePart(nlos, nhis, i, j) ==> InOnePart(los + nlos, his + nhis, i, j)
  {
    var a, b := los + nlos, his + nhis;
    if InOnePart(los, his, i, j) {
      var k :| 0 <= k < |los| && los[k] <= i && j <= his[k];
      assert a[k] <= i && j <= b[k];
    } else if InOnePart(nlos, nhis, i, j) {
      var k :| 0 <= k < |nlos| && nlos[k] <= i && j <= nhis[k];
      assert a[|los| + k] <= i && j <= b[|los| + k];
    }
  }

  /** Replacing the top part by what is left unsorted of it. */
  lemma PendingRefines(f: seq<int>, f': seq<int>, e: seq<int>, lo: nat, hi: int,
                       los: seq<int>, his: seq<int>, nlos: seq<int>, nhis: seq<int>)
    requires Pending(f, e, lo, hi, los, his) && |los| > 0
    requires Indexes(f', e, lo, hi)
    requires Shuffles(f, f', los[|los| - 1], his[|los| - 1])
    requires Parts(nlos, nhis, los[|los| - 1], his[|los| - 1])
    requires forall i, j :: los[|los| - 1] <= i < j <= his[|los| - 1] ==>
               e[f'[i]] <= e[f'[j]] || InOnePart(nlos, nhis, i, j)
    ensures Pending(f', e, lo, hi, los[..|los| - 1] + nlos, his[..|los| - 1] + nhis)
  {
    var t := |los| - 1;
    forall i, j | lo <= i < j <= hi
      ensures e[f'[i]] <= e[f'[j]] || InOnePart(los[..t] + nlos, his[..t] + nhis, i, j)
    {
      InOnePartGrows(los[..t], his[..t], nlos, nhis, i, j);
      if !(los[t] <= i && j <= his[t]) {
        PairOutside(f, f', e, lo, hi, los, his, i, j);
      }
    }
  }

  ghost function Halve(n: nat, k: nat): (r: nat)
    ensures r <= n
  {
    if k == 0 then n else Halve(n, k - 1) / 2
  }

  lemma {:induction false} HalveBelow(n: nat, k: nat)
    requires n < 0x8000_0000 && k <= 31
    ensures Halve(n, k) < Pow2(31 - k)
  {
    if k == 0 {
      Pow2Values();
    } else {
      HalveBelow(n, k - 1);
    }
  }

  /** A part of eleven or more entries is never stacked deeper than 27. */
  lemma {:induction false} HalveBound(n: nat, d: nat)
    requires n < 0x8000_0000 && d >= 28
    ensures Halve(n, d) < 8
  {
    if d > 28 {
      HalveBound(n, d - 1);
    } else {
      HalveBelow(n, 28);
      Pow2Values();
    }
  }

  /** Each stacked part is at most half as large as the bound on the part below it. */
  ghost predicate Halving(los: seq<int>, his: seq<int>, size: nat)
    requires |los| == |his|
  {
    forall k :: 0 <= k < |los| ==> his[k] - los[k] + 1 <= Halve(size, k)
  }

  ghost function Total(los: seq<int>, his: seq<int>): int
    requires |los| == |his|
  {
    if los == [] then 0
    else Total(los[..|los| - 1], his[..|los| - 1]) + his[|los| - 1] - los[|los| - 1] + 1
  }

  lemma {:induction false} TotalNonNegative(los: seq<int>, his: seq<int>, lo: int, hi: int)
    requires Parts(los, his, lo, hi)
    ensures Total(los, his) >= 0
    decreases |los|
  {
    if los != [] {
      TotalNonNegative(los[..|los| - 1], his[..|los| - 1], lo, hi);
    }
  }

  /** Shuffling a part keeps the whole range within bounds. */
  lemma PartKeepsIndexes(f: seq<int>, f': seq<int>, e: seq<int>, lo: nat, hi: int, plo: int, phi: int)
    requires Indexes(f, e, lo, hi) && Indexes(f', e, plo, phi) && lo <= plo && phi <= hi
    requires Shuffles(f, f', plo, phi)
    ensures Indexes(f', e, lo, hi)
  {
  }

  /** What the main loop keeps. */
  ghost predicate StackInv(f: seq<int>, e: seq<int>, lo: int, hi: int, los: seq<int>, his: seq<int>) {
    && Pending(f, e, lo, hi, los, his)
    && Halving(los, his, hi - lo + 1)
    && |los| <= 30
  }

  lemma AfterSorted(f: seq<int>, f': seq<int>, e: seq<int>, lo: nat, hi: int, los: seq<int>, his: seq<int>)
    requires lo <= hi + 1 && StackInv(f, e, lo, hi, los, his) && |los| > 0
    requires Shuffles(f, f', los[|los| - 1], his[|los| - 1])
    requires Indexes(f', e, los[|los| - 1], his[|los| - 1]) && Sorted(f', e, los[|los| - 1], his[|los| - 1])
    ensures StackInv(f', e, lo, hi, los[..|los| - 1], his[..|los| - 1])
    ensures 0 <= Total(los[..|los| - 1], his[..|los| - 1]) <= Total(los, his)
  {
    var t := |los| - 1;
    PartKeepsIndexes(f, f', e, lo, hi, los[t], his[t]);
    PendingRefines(f, f', e, lo, hi, los, his, [], []);
    assert los[..t] + [] == los[..t] && his[..t] + [] == his[..t];
    TotalNonNegative(los[..t], his[..t], lo, hi);
  }

  /** The two outer parts of a split, in either order. */
  ghost predicate OuterParts(nlos: seq<int>, nhis: seq<int>, lo: int, n: int, m: int, hi: int) {
    || (nlos == [lo, m] && nhis == [n, hi] && n - lo > hi - m)
    || (nlos == [m, lo] && nhis == [hi, n] && n - lo <= hi - m)
  }

  lemma SplitPending(f: seq<int>, f': seq<int>, e: seq<int>, med: int, lo: nat, hi: int, los: seq<int>, his: seq<int>,
                     n: int, m: int, nlos: seq<int>, nhis: seq<int>)
    requires Pending(f, e, lo, hi, los, his) && |los| > 0
    requires Shuffles(f, f', los[|los| - 1], his[|los| - 1])
    requires ThreeWay(f', e, med, los[|los| - 1], n, m, his[|los| - 1])
    requires OuterParts(nlos, nhis, los[|los| - 1], n, m, his[|los| - 1])
    ensures Pending(f', e, lo, hi, los[..|los| - 1] + nlos, his[..|los| - 1] + nhis)
  {
    var t := |los| - 1;
    PartKeepsIndexes(f, f', e, lo, hi, los[t], his[t]);
    forall i, j | los[t] <= i < j <= his[t]
      ensures e[f'[i]] <= e[f'[j]] || InOnePart(nlos, nhis, i, j)
    {
      if j <= n || m <= i {
        assert (nlos[0] <= i && j <= nhis[0]) || (nlos[1] <= i && j <= nhis[1]);
      }
    }
    PendingRefines(f, f', e, lo, hi, los, his, nlos, nhis);
  }

  /** A split leaves the smaller part on top, at most half the size of the popped one. */
  lemma SplitHalves(los: seq<int>, his: seq<int>, size: nat, n: int, m: int, nlos: seq<int>, nhis: seq<int>, lo: int,
                    hi: int)
    requires Parts(los, his, lo, hi) && |los| > 0 && Halving(los, his, size) && size < 0x8000_0000
    requires his[|los| - 1] - los[|los| - 1] >= 10
    requires los[|los| - 1] <= n + 1 < m <= his[|los| - 1] + 1
    requires OuterParts(nlos, nhis, los[|los| - 1], n, m, his[|los| - 1])
    ensures Halving(los[..|los| - 1] + nlos, his[..|los| - 1] + nhis, size)
    ensures |los| + 1 <= 30
    ensures 0 <= Total(los[..|los| - 1] + nlos, his[..|los| - 1] + nhis) < Total(los, his)
  {
    var t := |los| - 1;
    if t >= 28 {
      HalveBound(size, t);
    }
    var a, b := los[..t] + nlos, his[..t] + nhis;
    assert Halve(size, t + 1) == Halve(size, t) / 2;
    forall k | 0 <= k < |a|
      ensures b[k] - a[k] + 1 <= Halve(size, k)
    {
      assert k < t || k == t || k == t + 1;
    }
    TotalTwo(los[..t], his[..t], nlos, nhis);
    TotalNonNegative(los[..t], his[..t], lo, hi);
  }

  lemma {:induction false} TotalTwo(los: seq<int>, his: seq<int>, nlos: seq<int>, nhis: seq<int>)
    requires |los| == |his| && |nlos| == |nhis| == 2
    ensures Total(los + nlos, his + nhis) == Total(los, his) + (nhis[0] - nlos[0] + 1) + (nhis[1] - nlos[1] + 1)
  {
    TotalMore(los, his, nlos[0], nhis[0]);
    TotalMore(los + [nlos[0]], his + [nhis[0]], nlos[1], nhis[1]);
    assert los + nlos == los + [nlos[0]] + [nlos[1]] && his + nhis == his + [nhis[0]] + [nhis[1]];
  }

  lemma {:induction false} TotalMore(los: seq<int>, his: seq<int>, l: int, h: int)
    requires |los| == |his|
    ensures Total(los + [l], his + [h]) == Total(los, his) + h - l + 1
  {
    assert (los + [l])[..|los|] == los && (his + [h])[..|los|] == his;
  }

  lemma AfterSplit(f: seq<int>, f': seq<int>, e: seq<int>, med: int, lo: nat, hi: int, los: seq<int>, his: seq<int>,
                   n: int, m: int, nlos: seq<int>, nhis: seq<int>)
    requires hi < 0x7fff_ffff && StackInv(f, e, lo, hi, los, his) && |los| > 0
    requires his[|los| - 1] - los[|los| - 1] >= 10 && n + 1 < m
    requires Shuffles(f, f', los[|los| - 1], his[|los| - 1])
    requires ThreeWay(f', e, med, los[|los| - 1], n, m, his[|los| - 1])
    requires OuterParts(nlos, nhis, los[|los| - 1], n, m, his[|los| - 1])
    ensures StackInv(f', e, lo, hi, los[..|los| - 1] + nlos, his[..|los| - 1] + nhis)
    ensures 0 <= Total(los[..|los| - 1] + nlos, his[..|los| - 1] + nhis) < Total(los, his)
  {
    SplitPending(f, f', e, med, lo, hi, los, his, n, m, nlos, nhis);
    SplitHalves(los, his, hi - lo + 1, n, m, nlos, nhis, lo, hi);
  }

  /** Pushes the two outer parts, the larger first. */
  method PushOuter(stackLo: array<int>, stackHi: array<int>, sp: nat, lo: int, n: int, m: int, hi: int)
    returns (ghost nlos: seq<int>, ghost nhis: seq<int>)
    requires stackLo != stackHi && sp + 2 <= stackLo.Length == stackHi.Length
    modifies stackLo, stackHi
    ensures OuterParts(nlos, nhis, lo, n, m, hi)
    ensures stackLo[..sp + 2] == old(stackLo[..sp]) + nlos
    ensures stackHi[..sp + 2] == old(stackHi[..sp]) + nhis
  {
    if n - lo > hi - m {
      nlos, nhis := [lo, m], [n, hi];
      stackLo[sp], stackHi[sp] := lo, n;
      stackLo[sp + 1], stackHi[sp + 1] := m, hi;
    } else {
      nlos, nhis := [m, lo], [hi, n];
      stackLo[sp], stackHi[sp] := m, hi;
      stackLo[sp + 1], stackHi[sp + 1] := lo, n;
    }
  }

  lemma StackStart(f: seq<int>, e: seq<int>, lo: nat, hi: int)
    requires Indexes(f, e, lo, hi)
    ensures StackInv(f, e, lo, hi, [lo], [hi])
  {
    forall i, j | lo <= i < j <= hi
      ensures InOnePart([lo], [hi], i, j)
    {
      assert [lo][0] <= i && j <= [hi][0];
    }
  }

  /** One turn of the main loop: pops the top part and sorts or splits it. */
  method Turn(fmap: array<int>, eclass: array<int>, loSt: nat, hiSt: int, stackLo: array<int>, stackHi: array<int>,
              sp0: nat, r0: nat)
    returns (sp: nat, r: nat)
    requires stackLo != stackHi && fmap !in {eclass, stackLo, stackHi} && eclass !in {stackLo, stackHi}
    requires 0 < sp0 <= 30 && stackLo.Length == stackHi.Length == 100 && hiSt < 0x7fff_ffff
    requires StackInv(fmap[..], eclass[..], loSt, hiSt, stackLo[..sp0], stackHi[..sp0])
    modifies fmap, stackLo, stackHi
    ensures sp <= 30 && StackInv(fmap[..], eclass[..], loSt, hiSt, stackLo[..sp], stackHi[..sp])
    ensures Shuffles(old(fmap[..]), fmap[..], loSt, hiSt)
    ensures sp < sp0 || Total(stackLo[..sp], stackHi[..sp]) < old(Total(stackLo[..sp0], stackHi[..sp0]))
    ensures 0 <= Total(stackLo[..sp], stackHi[..sp]) <= old(Total(stackLo[..sp0], stackHi[..sp0]))
  {
    ghost var f, e, los, his := fmap[..], eclass[..], stackLo[..sp0], stackHi[..sp0];
    sp := sp0 - 1;
    var lo, hi := stackLo[sp], stackHi[sp];
    assert lo == los[sp] && hi == his[sp];
    var split, n, m;
    ghost var med;
    split, n, m, r, med := Step(fmap, eclass, lo, hi, r0);
    ShuffleRefl(f, loSt, hiSt);
    ShuffleTrans(f, f, fmap[..], loSt, hiSt, lo, hi);
    assert stackLo[..sp] == los[..sp] && stackHi[..sp] == his[..sp];
    if split {
      ghost var nlos, nhis := PushOuter(stackLo, stackHi, sp, lo, n, m, hi);
      AfterSplit(f, fmap[..], e, med, loSt, hiSt, los, his, n, m, nlos, nhis);
      sp := sp + 2;
    } else {
      AfterSorted(f, fmap[..], e, loSt, hiSt, los, his);
    }
  }

  /** `fallbackQSort3`: sorts fmap[loSt..hiSt] by class in place, with the pending
      parts on two hundred-entry stacks that never hold more than thirty. */
  method QSort3(fmap: array<int>, eclass: array<int>, loSt: nat, hiSt: int)
    requires fmap != eclass
    requires Indexes(fmap[..], eclass[..], loSt, hiSt) && hiSt < 0x7fff_ffff
    modifies fmap
    ensures Shuffles(old(fmap[..]), fmap[..], loSt, hiSt)
    ensures Indexes(fmap[..], eclass[..], loSt, hiSt)
    ensures Sorted(fmap[..], eclass[..], loSt, hiSt)
  {
    ghost var before, e := fmap[..], eclass[..];
    ShuffleRefl(before, loSt, hiSt);
    var stackLo, stackHi := new int[100], new int[100];
    var sp, r := 1, 0;
    stackLo[0], stackHi[0] := loSt, hiSt;
    StackStart(before, e, loSt, hiSt);
    assert stackLo[..1] == [loSt] && stackHi[..1] == [hiSt];
    while sp > 0
      invariant 0 <= sp <= 30 && 0 <= r
      invariant eclass[..] == e
      invariant StackInv(fmap[..], e, loSt, hiSt, stackLo[..sp], stackHi[..sp])
      invariant Shuffles(before, fmap[..], loSt, hiSt)
      decreases Total(stackLo[..sp], stackHi[..sp]), sp
    {
      ghost var f := fmap[..];
      sp, r := Turn(fmap, eclass, loSt, hiSt, stackLo, stackHi, sp, r);
      ShuffleTrans(before, f, fmap[..], loSt, hiSt, loSt, hiSt);
    }
  }
}
