/** The one-character radix sort that opens `fallbackSort`. */
module RadixSort {
  import opened Rotation
  import opened Bytes

  /** Occurrences of `c` among the first `m` bytes. */
  ghost function Count(s: seq<int>, c: int, m: nat): (r: nat)
    requires m <= |s|
    ensures r <= m
  {
    if m == 0 then 0 else Count(s, c, m - 1) + if s[m - 1] == c then 1 else 0
  }

  /** Bytes below `c` among the first `m`. */
  ghost function Below(s: seq<int>, c: nat, m: nat): (r: nat)
    requires m <= |s|
  {
    if c == 0 then 0 else Below(s, c - 1, m) + Count(s, c - 1, m)
  }

  /** Where the bucket of byte `c` starts in sorted order. */
  ghost function Start(s: seq<int>, c: nat): (r: nat) {
    Below(s, c, |s|)
  }

  lemma {:induction false} BelowStep(s: seq<int>, c: nat, m: nat)
    requires IsBytes(s) && m < |s|
    ensures Below(s, c, m + 1) == Below(s, c, m) + if s[m] < c then 1 else 0
    decreases c
  {
    if c > 0 {
      BelowStep(s, c - 1, m);
    }
  }

  lemma {:induction false} BelowAll(s: seq<int>, m: nat)
    requires IsBytes(s) && m <= |s|
    ensures Below(s, 256, m) == m
  {
    if m > 0 {
      BelowAll(s, m - 1);
      BelowStep(s, 256, m - 1);
    } else {
      BelowNone(s, 256);
    }
  }

  lemma {:induction false} BelowNone(s: seq<int>, c: nat)
    ensures Below(s, c, 0) == 0
  {
    if c > 0 {
      BelowNone(s, c - 1);
    }
  }

  lemma {:induction false} StartMono(s: seq<int>, c: nat, d: nat)
    requires c <= d
    ensures Start(s, c) <= Start(s, d)
    decreases d
  {
    if c < d {
      StartMono(s, c, d - 1);
    }
  }

  /** The bucket that holds sorted place `k`. */
  lemma {:induction false} BucketOf(s: seq<int>, k: nat, top: nat) returns (c: nat)
    requires k < Start(s, top)
    ensures c < top && Start(s, c) <= k < Start(s, c + 1)
  {
    if Start(s, top - 1) <= k {
      c := top - 1;
    } else {
      c := BucketOf(s, k, top - 1);
    }
  }

  lemma {:induction false} CountMono(s: seq<int>, c: int, m: nat, m': nat)
    requires m <= m' <= |s|
    ensures Count(s, c, m) <= Count(s, c, m')
    decreases m'
  {
    if m < m' {
      CountMono(s, c, m, m' - 1);
    }
  }

  /** Place `i` of `p` holds an index whose byte owns that place. */
  ghost predicate InBucket(s: seq<int>, p: seq<int>, i: nat)
    requires i < |p|
  {
    0 <= p[i] < |s| && 0 <= s[p[i]] < 256 && Start(s, s[p[i]]) <= i < Start(s, s[p[i]] + 1)
  }

  ghost predicate Bucketed(s: seq<int>, p: seq<int>) {
    forall i {:trigger p[i]} :: 0 <= i < |p| ==> InBucket(s, p, i)
  }

  lemma BucketUnique(s: seq<int>, i: nat, c: nat, d: nat)
    requires Start(s, c) <= i < Start(s, c + 1)
    requires Start(s, d) <= i < Start(s, d + 1)
    ensures c == d
  {
    if c < d {
      StartMono(s, c + 1, d);
    } else if d < c {
      StartMono(s, d + 1, c);
    }
  }

  /** Buckets list their bytes in order. */
  lemma BucketOrder(s: seq<int>, p: seq<int>, a: nat, b: nat)
    requires Bucketed(s, p) && a < b < |p|
    ensures 0 <= p[a] < |s| && 0 <= p[b] < |s| && s[p[a]] <= s[p[b]]
  {
    assert InBucket(s, p, a) && InBucket(s, p, b);
    if s[p[b]] < s[p[a]] {
      StartMono(s, s[p[b]] + 1, s[p[a]]);
    }
  }

  // ----- the loops -----

  method CountBytes(block: array<int>, nblock: nat, ftab: array<int>)
    requires nblock <= block.Length && ftab.Length == 257 && ftab != block
    requires IsBytes(block[..nblock])
    modifies ftab
    ensures forall c :: 0 <= c < 256 ==> ftab[c] == Count(block[..nblock], c, nblock)
    ensures ftab[256] == 0
  {
    ghost var s := block[..nblock];
    for i := 0 to 257
      invariant forall c :: 0 <= c < i ==> ftab[c] == 0
    {
      ftab[i] := 0;
    }
    for i := 0 to nblock
      invariant ftab[256] == 0 && block[..nblock] == s
      invariant forall c :: 0 <= c < 256 ==> ftab[c] == Count(s, c, i)
    {
      assert block[i] == s[i];
      ftab[block[i]] := ftab[block[i]] + 1;
    }
  }

  /** Turns counts into the ends of the buckets. */
  method Accumulate(ghost s: seq<int>, ftab: array<int>)
    requires ftab.Length == 257
    requires forall c :: 0 <= c < 256 ==> ftab[c] == Count(s, c, |s|)
    requires ftab[256] == 0
    modifies ftab
    ensures forall c :: 0 <= c < 256 ==> ftab[c] == Start(s, c + 1)
  {
    var j := ftab[0];
    assert Start(s, 1) == Start(s, 0) + Count(s, 0, |s|);
    var i := 1;
    while i < 257
      invariant 1 <= i <= 257
      invariant i <= 256 ==> j == Start(s, i)
      invariant forall c :: 0 <= c < i && c < 256 ==> ftab[c] == Start(s, c + 1)
      invariant forall c :: i <= c < 256 ==> ftab[c] == Count(s, c, |s|)
    {
      j := j + ftab[i];
      ftab[i] := j;
      i := i + 1;
    }
  }

  /** What filling the buckets keeps after the first `i` indices; `pos` remembers where each went. */
  ghost predicate Filled(s: seq<int>, ftab: seq<int>, f: seq<int>, pos: seq<int>, i: nat) {
    && |ftab| == 257 && i <= |s| <= |f| && |pos| == i
    && (forall c :: 0 <= c < 256 ==> ftab[c] == Start(s, c + 1) - Count(s, c, i))
    && (forall c, k :: 0 <= c < 256 && ftab[c] <= k < Start(s, c + 1) && 0 <= k < |f| ==>
          0 <= f[k] < i && s[f[k]] == c && pos[f[k]] == k)
  }

  lemma BucketRoom(s: seq<int>, c: nat, i: nat)
    requires IsBytes(s) && c < 256 && i < |s| && s[i] == c
    ensures 0 <= Start(s, c) <= Start(s, c + 1) - Count(s, c, i) - 1
    ensures Start(s, c + 1) <= |s|
  {
    CountMono(s, c, i + 1, |s|);
    StartMono(s, c + 1, 256);
    BelowAll(s, |s|);
  }

  /** Dropping index `i` into the next free place of its bucket. */
  lemma FilledStep(s: seq<int>, ftab: seq<int>, f: seq<int>, pos: seq<int>, i: nat)
    requires IsBytes(s) && Filled(s, ftab, f, pos, i) && i < |s|
    ensures var c := s[i]; var k := ftab[c] - 1;
            0 <= k < |s| && Filled(s, ftab[c := k], f[k := i], pos + [k], i + 1)
  {
    var c := s[i];
    var k := ftab[c] - 1;
    BucketRoom(s, c, i);
    var ftab', f', pos' := ftab[c := k], f[k := i], pos + [k];
    forall d, m | 0 <= d < 256 && ftab'[d] <= m < Start(s, d + 1) && 0 <= m < |f|
      ensures 0 <= f'[m] < i + 1 && s[f'[m]] == d && pos'[f'[m]] == m
    {
      CountMono(s, d, i, |s|);
      if m == k {
        BucketUnique(s, k, c, d);
      }
    }
  }

  /** Index `i`, whose byte is `j`, goes to the last free place of that byte's bucket. */
  method PlaceOne(j: int, i: nat, ftab: array<int>, fmap: array<int>, ghost s: seq<int>, ghost pos: seq<int>)
    returns (ghost k: int)
    requires ftab != fmap && IsBytes(s) && i < |s| && s[i] == j && Filled(s, ftab[..], fmap[..], pos, i)
    modifies ftab, fmap
    ensures Filled(s, ftab[..], fmap[..], pos + [k], i + 1)
  {
    FilledStep(s, ftab[..], fmap[..], pos, i);
    ghost var t, f := ftab[..], fmap[..];
    var last := ftab[j] - 1;
    k := last;
    ftab[j] := last;
    fmap[last] := i;
    assert ftab[..] == t[j := last] && fmap[..] == f[last := i];
  }

  method Place(block: array<int>, nblock: nat, ftab: array<int>, fmap: array<int>)
    requires nblock <= block.Length && nblock <= fmap.Length && ftab.Length == 257
    requires fmap != block && ftab != block && ftab != fmap
    requires IsBytes(block[..nblock])
    requires forall c :: 0 <= c < 256 ==> ftab[c] == Start(block[..nblock], c + 1)
    modifies ftab, fmap
    ensures forall c :: 0 <= c < 256 ==> ftab[c] == Start(block[..nblock], c)
    ensures IsPerm(fmap[..nblock], nblock) && Bucketed(block[..nblock], fmap[..nblock])
  {
    ghost var s, pos := block[..nblock], [];
    var i := 0;
    while i < nblock
      invariant 0 <= i <= nblock && block[..nblock] == s
      invariant Filled(s, ftab[..], fmap[..], pos, i)
    {
      assert block[..nblock][i] == block[i];
      ghost var k := PlaceOne(block[i], i, ftab, fmap, s, pos);
      pos := pos + [k];
      i := i + 1;
    }
    FilledDone(s, ftab[..], fmap[..], pos);
  }

  lemma FilledDone(s: seq<int>, ftab: seq<int>, f: seq<int>, pos: seq<int>)
    requires IsBytes(s) && Filled(s, ftab, f, pos, |s|)
    ensures forall c :: 0 <= c < 256 ==> ftab[c] == Start(s, c)
    ensures IsPerm(f[..|s|], |s|) && Bucketed(s, f[..|s|])
  {
    var n := |s|;
    BelowAll(s, n);
    forall k | 0 <= k < n
      ensures InBucket(s, f[..n], k) && pos[f[k]] == k
    {
      var c := BucketOf(s, k, 256);
      assert ftab[c] == Start(s, c);
    }
  }
}
