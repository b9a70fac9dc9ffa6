/** `mainGtU`: the rotation comparison of the main block sort, which reads past
    the end of the block into an overshoot and trusts the cached quadrants. */
module MainGtU {
  import opened Rotation

  const OVERSHOOT := 34

  function Wrap(n: nat, x: nat): (r: nat)
    requires x < 2 * n
    ensures r < n
  {
    if x >= n then x - n else x
  }

  /** The overshoot repeats the head of the block. */
  ghost predicate Overshot(s: seq<int>, block: seq<int>) {
    && |block| == |s| + OVERSHOOT
    && forall x :: 0 <= x < |block| && x < 2 * |s| ==> block[x] == s[Wrap(|s|, x)]
  }

  /** What `quadrant` promises: between rotations starting with one byte, a
      smaller quadrant means a rotation that is not larger. */
  ghost predicate QuadrantsHold(s: seq<int>, quadrant: seq<int>) {
    && |quadrant| == |s| + OVERSHOOT
    && (forall x :: |s| <= x < |quadrant| && x < 2 * |s| ==> quadrant[x] == quadrant[Wrap(|s|, x)])
    && (forall i, j :: 0 <= i < |s| && 0 <= j < |s| && s[i] == s[j] && quadrant[i] < quadrant[j] ==>
          Cmp(s, i, j, |s|) <= 0)
  }

  /** The `t` characters compared so far are equal, and `i1`, `i2` are that much further round. */
  ghost predicate Matched(s: seq<int>, a: nat, b: nat, t: nat, i1: nat, i2: nat)
    requires a < |s| && b < |s|
  {
    || Cmp(s, a, b, |s|) == 0
    || (&& t <= |s| && i1 < 2 * |s| && i2 < 2 * |s|
        && Wrap(|s|, i1) == Advance(|s|, a, t) && Wrap(|s|, i2) == Advance(|s|, b, t)
        && Cmp(s, a, b, t) == 0)
  }

  /** A byte difference after a match decides the rotations. */
  lemma ByteDecides(s: seq<int>, a: nat, b: nat, t: nat, i1: nat, i2: nat)
    requires a < |s| && b < |s| && Matched(s, a, b, t, i1, i2) && i1 < 2 * |s| && i2 < 2 * |s|
    ensures s[Wrap(|s|, i1)] > s[Wrap(|s|, i2)] ==> Cmp(s, a, b, |s|) >= 0
    ensures s[Wrap(|s|, i1)] < s[Wrap(|s|, i2)] ==> Cmp(s, a, b, |s|) <= 0
    ensures s[Wrap(|s|, i1)] == s[Wrap(|s|, i2)] && i1 + 1 < 2 * |s| && i2 + 1 < 2 * |s| ==>
              Matched(s, a, b, t + 1, i1 + 1, i2 + 1)
  {
    var n := |s|;
    if Cmp(s, a, b, n) != 0 && t < n {
      CmpSplit(s, a, b, t, 1);
      CmpSplit(s, a, b, t + 1, n - (t + 1));
    }
  }

  /** A quadrant difference after a match, on equal bytes, decides them too. */
  lemma QuadrantDecides(s: seq<int>, quadrant: seq<int>, a: nat, b: nat, t: nat, i1: nat, i2: nat)
    requires a < |s| && b < |s| && Matched(s, a, b, t, i1, i2) && i1 < 2 * |s| && i2 < 2 * |s|
    requires QuadrantsHold(s, quadrant) && s[Wrap(|s|, i1)] == s[Wrap(|s|, i2)]
    ensures quadrant[Wrap(|s|, i1)] > quadrant[Wrap(|s|, i2)] ==> Cmp(s, a, b, |s|) >= 0
    ensures quadrant[Wrap(|s|, i1)] < quadrant[Wrap(|s|, i2)] ==> Cmp(s, a, b, |s|) <= 0
  {
    var n := |s|;
    if Cmp(s, a, b, n) != 0 {
      CmpSplit(s, a, b, t, n);
      CmpPastTurn(s, a, b, t + n);
      CmpAntisym(s, Wrap(n, i1), Wrap(n, i2), n);
    }
  }

  /** The comparison has come down on one side. */
  ghost predicate Verdict(s: seq<int>, a: nat, b: nat, gt: bool)
    requires a < |s| && b < |s|
  {
    if gt then Cmp(s, a, b, |s|) >= 0 else Cmp(s, a, b, |s|) <= 0
  }

  /** Twelve byte comparisons. */
  method CompareBytes(ghost s: seq<int>, block: array<int>, i1: nat, i2: nat) returns (decided: bool, gt: bool)
    requires 35 <= |s| && Overshot(s, block[..]) && i1 <= |s| + 14 && i2 <= |s| + 14
    ensures decided ==> Verdict(s, Wrap(|s|, i1), Wrap(|s|, i2), gt)
    ensures !decided ==> Matched(s, Wrap(|s|, i1), Wrap(|s|, i2), 12, i1 + 12, i2 + 12)
  {
    ghost var n, a, b := |s|, Wrap(|s|, i1), Wrap(|s|, i2);
    for t := 0 to 12
      invariant Matched(s, a, b, t, i1 + t, i2 + t)
    {
      var c1, c2 := block[i1 + t], block[i2 + t];
      assert c1 == s[Wrap(n, i1 + t)] && c2 == s[Wrap(n, i2 + t)] by {
        assert block[..][i1 + t] == c1 && block[..][i2 + t] == c2;
      }
      ByteDecides(s, a, b, t, i1 + t, i2 + t);
      if c1 != c2 {
        return true, c1 > c2;
      }
    }
    return false, false;
  }

  /** One comparison of byte and quadrant. */
  method CompareOne(ghost s: seq<int>, block: array<int>, quadrant: array<int>, ghost a: nat, ghost b: nat,
                    ghost t: nat, i1: nat, i2: nat)
    returns (decided: bool, gt: bool)
    requires 35 <= |s| && Overshot(s, block[..]) && QuadrantsHold(s, quadrant[..])
    requires a < |s| && b < |s| && i1 < |s| + OVERSHOOT && i2 < |s| + OVERSHOOT && Matched(s, a, b, t, i1, i2)
    ensures decided ==> Verdict(s, a, b, gt)
    ensures !decided ==> Matched(s, a, b, t + 1, i1 + 1, i2 + 1)
  {
    ghost var w1, w2 := Wrap(|s|, i1), Wrap(|s|, i2);
    var c1, c2 := block[i1], block[i2];
    assert c1 == s[w1] && c2 == s[w2] by {
      assert block[..][i1] == c1 && block[..][i2] == c2;
    }
    ByteDecides(s, a, b, t, i1, i2);
    if c1 != c2 {
      return true, c1 > c2;
    }
    var s1, s2 := quadrant[i1], quadrant[i2];
    assert s1 == quadrant[w1] && s2 == quadrant[w2] by {
      assert quadrant[..][i1] == s1 && quadrant[..][i2] == s2;
    }
    QuadrantDecides(s, quadrant[..], a, b, t, i1, i2);
    if s1 != s2 {
      return true, s1 > s2;
    }
    return false, false;
  }

  /** Eight of them. */
  method CompareQuadrants(ghost s: seq<int>, block: array<int>, quadrant: array<int>, ghost a: nat, ghost b: nat,
                          ghost t: nat, i1: nat, i2: nat)
    returns (decided: bool, gt: bool)
    requires 35 <= |s| && Overshot(s, block[..]) && QuadrantsHold(s, quadrant[..])
    requires a < |s| && b < |s| && i1 <= |s| + 26 && i2 <= |s| + 26 && Matched(s, a, b, t, i1, i2)
    ensures decided ==> Verdict(s, a, b, gt)
    ensures !decided ==> Matched(s, a, b, t + 8, i1 + 8, i2 + 8)
  {
    var j1, j2 := i1, i2;
    ghost var tt := t;
    for u := 0 to 8
      invariant j1 == i1 + u && j2 == i2 + u && tt == t + u && Matched(s, a, b, tt, j1, j2)
    {
      decided, gt := CompareOne(s, block, quadrant, a, b, tt, j1, j2);
      if decided {
        return;
      }
      j1, j2, tt := j1 + 1, j2 + 1, tt + 1;
    }
    return false, false;
  }

  lemma MatchedWraps(s: seq<int>, a: nat, b: nat, t: nat, i1: nat, i2: nat)
    requires a < |s| && b < |s| && Matched(s, a, b, t, i1, i2) && i1 < 2 * |s| && i2 < 2 * |s|
    ensures Matched(s, a, b, t, Wrap(|s|, i1), Wrap(|s|, i2))
  {
  }

  /** `mainGtU`: never contradicts the order of the two rotations, and reads only
      the block and its overshoot for every starting offset up to nblock + 14. */
  method GtU(ghost s: seq<int>, block: array<int>, quadrant: array<int>, nblock: nat, i10: nat, i20: nat, budget0: int)
    returns (gt: bool, budget: int)
    requires nblock == |s| >= 35 && Overshot(s, block[..]) && QuadrantsHold(s, quadrant[..])
    requires i10 <= nblock + 14 && i20 <= nblock + 14
    ensures gt ==> Cmp(s, Wrap(nblock, i10), Wrap(nblock, i20), nblock) >= 0
    ensures !gt ==> Cmp(s, Wrap(nblock, i10), Wrap(nblock, i20), nblock) <= 0
    ensures budget <= budget0
  {
    ghost var a, b, t := Wrap(nblock, i10), Wrap(nblock, i20), 12;
    var decided;
    budget := budget0;
    decided, gt := CompareBytes(s, block, i10, i20);
    if decided {
      return;
    }
    var i1, i2 := i10 + 12, i20 + 12;
    var k := nblock + 8;
    while k >= 0
      invariant -8 <= k <= nblock + 8 && t == 12 + (nblock + 8 - k)
      invariant 0 <= i1 <= nblock + 26 && 0 <= i2 <= nblock + 26
      invariant Matched(s, a, b, t, i1, i2)
      invariant budget <= budget0
    {
      decided, gt := CompareQuadrants(s, block, quadrant, a, b, t, i1, i2);
      if decided {
        return;
      }
      i1, i2, t := i1 + 8, i2 + 8, t + 8;
      MatchedWraps(s, a, b, t, i1, i2);
      if i1 >= nblock {
        i1 := i1 - nblock;
      }
      if i2 >= nblock {
        i2 := i2 - nblock;
      }
      budget := budget - 1;
      k := k - 8;
    }
    gt := false;
  }
}
