/** Counting over 0..n-1. */
module Counting {
  import opened Rotation

  ghost function Range(n: nat): (r: set<int>)
    ensures forall x :: x in r <==> 0 <= x < n
    ensures |r| == n
  {
    if n == 0 then {} else Range(n - 1) + {n - 1}
  }

  lemma SubsetSize(a: set<int>, b: set<int>)
    requires a <= b
    ensures |a| <= |b|
  {
    assert b == a + (b - a);
    assert |b| == |a| + |b - a|;
  }

  lemma {:induction false} SubsetFull(a: set<int>, b: set<int>)
    requires a <= b && |a| == |b|
    ensures a == b
  {
    assert b == a + (b - a);
    assert |b| == |a| + |b - a|;
  }

  ghost function Image(p: seq<int>): (r: set<int>) {
    set k | 0 <= k < |p| :: p[k]
  }

  lemma {:induction false} ImageSize(p: seq<int>)
    requires forall a, b :: 0 <= a < b < |p| ==> p[a] != p[b]
    ensures |Image(p)| == |p|
  {
    if |p| > 0 {
      var q := p[..|p| - 1];
      ImageSize(q);
      assert Image(p) == Image(q) + {p[|p| - 1]};
    }
  }

  /** A permutation of 0..n-1 hits every value. */
  lemma PermHits(p: seq<int>, n: nat, v: nat)
    requires IsPerm(p, n) && v < n
    ensures exists k :: 0 <= k < n && p[k] == v
  {
    ImageSize(p);
    SubsetFull(Image(p), Range(n));
    assert v in Image(p);
  }

  ghost function Preimage(p: seq<int>, s: set<int>): (r: set<int>) {
    set k | 0 <= k < |p| && p[k] in s
  }

  lemma PreimageAdd(p: seq<int>, n: nat, s: set<int>, v: int, k: nat)
    requires IsPerm(p, n) && v in s && k < n && p[k] == v
    ensures Preimage(p, s) == Preimage(p, s - {v}) + {k} && k !in Preimage(p, s - {v})
  {
  }

  /** A permutation preserves the size of every set it is pulled back along. */
  lemma {:induction false} PreimageSize(p: seq<int>, n: nat, s: set<int>)
    requires IsPerm(p, n) && s <= Range(n)
    ensures |Preimage(p, s)| == |s|
    decreases |s|
  {
    if s == {} {
      assert Preimage(p, s) == {};
    } else {
      var v :| v in s;
      PermHits(p, n, v);
      var k :| 0 <= k < n && p[k] == v;
      PreimageSize(p, n, s - {v});
      PreimageAdd(p, n, s, v, k);
    }
  }

  /** A downward closed subset of 0..n-1 is an initial segment. */
  lemma {:induction false} DownwardClosed(d: set<int>, n: nat)
    requires d <= Range(n)
    requires forall x, y :: 0 <= x < y && y in d ==> x in d
    ensures d == Range(|d|)
    decreases n
  {
    if n > 0 && n - 1 !in d {
      DownwardClosed(d, n - 1);
    } else {
      assert d == Range(n);
    }
  }
}

/** The Burrows-Wheeler column that `generateMTFValues` reads out of the sorted
    rotations, the decoder's walk back, and why any rotation sort will do. */
module Bwt {
  import opened Rotation
  import opened Counting

  /** The byte before each rotation, in sorted order, as read at the head of the MTF loop. */
  function LastColumn(s: seq<int>, p: seq<int>): (r: seq<int>)
    requires |p| == |s| && forall k :: 0 <= k < |p| ==> 0 <= p[k] < |s|
    ensures |r| == |s|
  {
    seq(|s|, k requires 0 <= k < |s| => s[Prev(|s|, p[k])])
  }

  // ----- the decoder -----

  /** Entries of the column that sort, stably, before entry `i`. */
  ghost function Below(column: seq<int>, i: nat): (r: set<int>)
    requires i < |column|
  {
    set j | 0 <= j < |column| && (column[j] < column[i] || (column[j] == column[i] && j < i))
  }

  /** Where a stable sort of the column puts entry `i`. */
  ghost function Rank(column: seq<int>, i: nat): (r: nat)
    requires i < |column|
  {
    |Below(column, i)|
  }

  ghost function Ranks(column: seq<int>): (r: seq<int>)
    ensures |r| == |column|
  {
    seq(|column|, i requires 0 <= i < |column| => Rank(column, i))
  }

  lemma RanksArePermutation(column: seq<int>)
    ensures IsPerm(Ranks(column), |column|)
  {
    var n, r := |column|, Ranks(column);
    forall i | 0 <= i < n
      ensures 0 <= r[i] < n
    {
      SubsetSize(Below(column, i) + {i}, Range(n));
    }
    forall a, b | 0 <= a < b < n
      ensures r[a] != r[b]
    {
      RanksDiffer(column, a, b);
    }
  }

  lemma RanksDiffer(column: seq<int>, a: nat, b: nat)
    requires a < b < |column|
    ensures Rank(column, a) != Rank(column, b)
  {
    if column[b] < column[a] {
      SubsetSize(Below(column, b) + {b}, Below(column, a));
    } else {
      SubsetSize(Below(column, a) + {a}, Below(column, b));
    }
  }

  /** The entry of the column that a stable sort puts at place `k`. */
  ghost function Successor(column: seq<int>, k: nat): (i: nat)
    requires k < |column|
    ensures i < |column| && Rank(column, i) == k
  {
    RanksArePermutation(column);
    PermHits(Ranks(column), |column|, k);
    var i :| 0 <= i < |column| && Ranks(column)[i] == k;
    i
  }

  /** `m` steps of the decoder's walk, starting after row `k`. */
  ghost function Walk(column: seq<int>, k: nat, m: nat): (r: seq<int>)
    requires k < |column|
    ensures |r| == m
    decreases m
  {
    if m == 0 then []
    else [column[Successor(column, k)]] + Walk(column, Successor(column, k), m - 1)
  }

  ghost function Decode(column: seq<int>, origPtr: nat): (r: seq<int>)
    requires origPtr < |column|
  {
    Walk(column, origPtr, |column|)
  }

  // ----- the column of a rotation sort -----

  /** Rotations that come strictly before (`strict`) or not after rotation `y`. */
  ghost function Before(s: seq<int>, y: nat, strict: bool): (r: set<int>)
    requires y < |s|
  {
    set x | 0 <= x < |s| && (if strict then Cmp(s, x, y, |s|) < 0 else Cmp(s, x, y, |s|) <= 0)
  }

  /** In a rotation sort the rotations before `y` fill the places below their number. */
  lemma PlacesBefore(s: seq<int>, p: seq<int>, y: nat, strict: bool, m: nat)
    requires SortsRotations(s, p) && y < |s| && m < |s|
    ensures p[m] in Before(s, y, strict) <==> m < |Before(s, y, strict)|
  {
    var n, b := |s|, Before(s, y, strict);
    var d := Preimage(p, b);
    PreimageSize(p, n, b);
    forall u, v | 0 <= u < v && v in d
      ensures u in d
    {
      CmpTrans(s, p[u], p[v], y, n);
    }
    DownwardClosed(d, n);
    assert p[m] in b <==> m in d;
  }

  /** A place between the two counts holds a rotation equal to `y`. */
  lemma PlaceOf(s: seq<int>, p: seq<int>, y: nat, m: nat)
    requires SortsRotations(s, p) && y < |s| && m < |s|
    requires |Before(s, y, true)| <= m < |Before(s, y, false)|
    ensures Cmp(s, p[m], y, |s|) == 0
  {
    PlacesBefore(s, p, y, true, m);
    PlacesBefore(s, p, y, false, m);
  }

  /** The rotation preceding each sorted rotation. */
  ghost function Preceding(s: seq<int>, p: seq<int>): (q: seq<int>)
    requires IsPerm(p, |s|)
    ensures IsPerm(q, |s|)
    ensures forall k :: 0 <= k < |s| ==> q[k] == Prev(|s|, p[k])
  {
    seq(|s|, k requires 0 <= k < |s| => Prev(|s|, p[k]))
  }

  /** Stepping both rotations back one character keeps the sorted order within one byte. */
  lemma PrecedingOrder(s: seq<int>, p: seq<int>, j: nat, i: nat)
    requires SortsRotations(s, p) && i < |s| && j < |s|
    ensures var a, b := Prev(|s|, p[j]), Prev(|s|, p[i]);
            && (Cmp(s, a, b, |s|) < 0 ==> s[a] < s[b] || (s[a] == s[b] && j < i))
            && (s[a] < s[b] || (s[a] == s[b] && j <= i) ==> Cmp(s, a, b, |s|) <= 0)
  {
    var n, a, b := |s|, Prev(|s|, p[j]), Prev(|s|, p[i]);
    if s[a] == s[b] {
      assert Cmp(s, a, b, n) == Cmp(s, p[j], p[i], n - 1);
      CmpSplit(s, p[j], p[i], n - 1, 1);
      if j == i {
        CmpRefl(s, p[j], n - 1);
      } else if i < j {
        CmpAntisym(s, p[i], p[j], n);
      }
    }
  }

  /** The decoder's stable rank of entry `i` is a place whose rotation equals the
      one preceding sorted rotation `i`, whatever order ties were left in. */
  lemma RankIsPreceding(s: seq<int>, p: seq<int>, i: nat)
    requires SortsRotations(s, p) && i < |s|
    ensures var m := Rank(LastColumn(s, p), i);
            m < |s| && Cmp(s, p[m], Prev(|s|, p[i]), |s|) == 0
  {
    RankAtLeast(s, p, i);
    RankBelow(s, p, i);
    PlaceOf(s, p, Prev(|s|, p[i]), Rank(LastColumn(s, p), i));
  }

  lemma RankAtLeast(s: seq<int>, p: seq<int>, i: nat)
    requires SortsRotations(s, p) && i < |s|
    ensures |Before(s, Prev(|s|, p[i]), true)| <= Rank(LastColumn(s, p), i)
  {
    var q, before := Preceding(s, p), Before(s, Prev(|s|, p[i]), true);
    PreimageSize(q, |s|, before);
    forall j | j in Preimage(q, before)
      ensures j in Below(LastColumn(s, p), i)
    {
      PrecedingOrder(s, p, j, i);
    }
    SubsetSize(Preimage(q, before), Below(LastColumn(s, p), i));
  }

  lemma RankBelow(s: seq<int>, p: seq<int>, i: nat)
    requires SortsRotations(s, p) && i < |s|
    ensures Rank(LastColumn(s, p), i) < |Before(s, Prev(|s|, p[i]), false)| <= |s|
  {
    var q, before := Preceding(s, p), Before(s, Prev(|s|, p[i]), false);
    var upTo := Below(LastColumn(s, p), i) + {i};
    PreimageSize(q, |s|, before);
    forall j | j in upTo
      ensures j in Preimage(q, before)
    {
      PrecedingOrder(s, p, j, i);
    }
    SubsetSize(upTo, Preimage(q, before));
    SubsetSize(before, Range(|s|));
  }

  lemma {:induction false} WalkReadsBlock(s: seq<int>, p: seq<int>, k: nat, t: nat)
    requires SortsRotations(s, p) && k < |s| && t <= |s|
    requires t < |s| ==> Cmp(s, p[k], t, |s|) == 0
    ensures Walk(LastColumn(s, p), k, |s| - t) == s[t..]
    decreases |s| - t
  {
    var n, column := |s|, LastColumn(s, p);
    if t < n {
      var i := Successor(column, k);
      RankIsPreceding(s, p, i);
      // rotation p[k] equals both Prev(p[i]) and t
      CmpAntisym(s, p[k], Prev(n, p[i]), n);
      CmpTrans(s, Prev(n, p[i]), p[k], t, n);
      EqualNext(s, Prev(n, p[i]), t);
      WalkReadsBlock(s, p, i, t + 1);
      assert s[t..] == [s[t]] + s[t + 1..];
    }
  }

  /** The decoder recovers the block from the column of ANY rotation sort of it. */
  lemma DecodeInvertsSort(s: seq<int>, p: seq<int>, origPtr: nat)
    requires SortsRotations(s, p) && origPtr < |s| && p[origPtr] == 0
    ensures Decode(LastColumn(s, p), origPtr) == s
  {
    CmpRefl(s, 0, |s|);
    WalkReadsBlock(s, p, origPtr, 0);
  }

  /** Two rotation sorts of one block give the same column, so choosing
      the main or the fallback sort cannot change the stream. */
  lemma ColumnIsUnique(s: seq<int>, p: seq<int>, p': seq<int>)
    requires SortsRotations(s, p) && SortsRotations(s, p')
    ensures LastColumn(s, p) == LastColumn(s, p')
  {
    var n := |s|;
    forall k | 0 <= k < n
      ensures LastColumn(s, p)[k] == LastColumn(s, p')[k]
    {
      CmpRefl(s, p[k], n);
      PlacesBefore(s, p, p[k], true, k);
      PlacesBefore(s, p, p[k], false, k);
      PlaceOf(s, p', p[k], k);
      EqualPrev(s, p'[k], p[k]);
    }
  }
}
