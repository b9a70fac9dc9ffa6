/** The tables the improvement rounds of `sendMTFValues` start from: the alphabet is shared out into stretches of about
    equally many values, and each table favours one stretch. */
module FirstTables {
  import opened Occurrences
  import opened BzTables

  /** How many tables are used. */
  function GroupsFor(nMTF: nat): (r: nat)
    ensures 2 <= r <= MAX_GROUPS
  {
    2 + (if nMTF >= 200 then 1 else 0) + (if nMTF >= 600 then 1 else 0) + (if nMTF >= 1200 then 1 else 0)
        + (if nMTF >= 2400 then 1 else 0)
  }

  // ----- how often each value comes -----

  ghost function FreqOf(values: seq<int>, n: nat): (f: seq<int>)
    ensures |f| == n && forall v :: 0 <= v < n ==> f[v] == Count(values, v)
  {
    seq(n, v => Count(values, v))
  }

  lemma {:induction false} FreqTotal(values: seq<int>, n: nat)
    requires InAlphabet(values, n)
    ensures Sum(FreqOf(values, n), n) == |values|
    decreases |values|
  {
    if values == [] {
      SumZero(FreqOf(values, n), n);
    } else {
      var init, v := values[..|values| - 1], values[|values| - 1];
      FreqTotal(init, n);
      assert values == init + [v];
      var f, g := FreqOf(init, n), FreqOf(values, n);
      forall u | 0 <= u < n
        ensures g[u] == f[v := f[v] + 1][u]
      {
        CountMore(init, v, u);
      }
      assert g == f[v := f[v] + 1];
      SumBump(f, v, n);
    }
  }

  lemma {:induction false} SumMono(f: seq<int>, a: nat, b: nat)
    requires a <= b <= |f| && forall i :: 0 <= i < |f| ==> f[i] >= 0
    ensures Sum(f, a) <= Sum(f, b)
    decreases b
  {
    if a < b {
      SumMono(f, a, b - 1);
    }
  }

  // ----- one share -----

  /** The shortest stretch from `gs` on that holds `tFreq` values, or all that are left. */
  ghost predicate ShareEnds(f: seq<int>, gs: nat, tFreq: int, ge: nat) {
    && gs <= ge <= |f| && (Sum(f, ge) - Sum(f, gs) >= tFreq || ge == |f|)
    && forall e :: gs <= e < ge ==> Sum(f, e) - Sum(f, gs) < tFreq
  }

  /** How far the next share of about `tFreq` values reaches, and how many it holds. */
  method Share(mtfFreq: array<int>, n: nat, gs: nat, tFreq: int) returns (ge: nat, aFreq: int)
    requires gs <= n <= mtfFreq.Length
    ensures ShareEnds(mtfFreq[..n], gs, tFreq, ge)
    ensures aFreq == Sum(mtfFreq[..n], ge) - Sum(mtfFreq[..n], gs)
  {
    ghost var f: seq<int> := mtfFreq[..n];
    ge, aFreq := gs, 0;
    while aFreq < tFreq && ge < n
      invariant gs <= ge <= n && aFreq == Sum(f, ge) - Sum(f, gs)
      invariant forall e :: gs <= e < ge ==> Sum(f, e) - Sum(f, gs) < tFreq
      decreases n - ge
    {
      aFreq := aFreq + mtfFreq[ge];
      ge := ge + 1;
    }
  }

  /** Length 0 for the symbols of one share, 15 for the others. */
  function ShareLens(n: nat, gs: int, ge: int): (r: seq<nat>)
    ensures |r| == n && forall v :: 0 <= v < n ==> r[v] == if gs <= v < ge then 0 else 15
  {
    seq(n, v => if gs <= v < ge then 0 else 15)
  }

  /** Every other share but the first and the last gives up its last symbol, if it has two. */
  function GivesUp(i: nat, nGroups: nat, gs: nat, ge: nat): (r: bool) {
    ge > gs + 1 && 0 < i < nGroups - 1 && i % 2 == 1
  }

  // ----- all shares -----

  /** Share `i` is the symbols from `bounds[i]` up to `bounds[i + 1]`: as many values as each of the shares to come
      would
      have if they were equal. The table for it comes `i` before the last. */
  ghost predicate ShareIs(f: seq<int>, total: int, bounds: seq<nat>, tables: seq<seq<nat>>, nGroups: nat, i: nat,
                          ge: nat)
  {
    && i < nGroups == |tables| && i + 1 < |bounds| && bounds[i] <= |f|
    && ShareEnds(f, bounds[i], (total - Sum(f, bounds[i])) / (nGroups - i), ge)
    && bounds[i + 1] == (if GivesUp(i, nGroups, bounds[i], ge) then ge - 1 else ge)
    && tables[nGroups - 1 - i] == ShareLens(|f|, bounds[i], bounds[i + 1])
  }

  ghost predicate ShareAt(f: seq<int>, total: int, bounds: seq<nat>, tables: seq<seq<nat>>, nGroups: nat, i: nat) {
    exists ge: nat :: ShareIs(f, total, bounds, tables, nGroups, i, ge)
  }

  ghost predicate SharedTo(f: seq<int>, total: int, bounds: seq<nat>, tables: seq<seq<nat>>, nGroups: nat, m: nat) {
    && |bounds| == m + 1 && m <= nGroups && bounds[0] == 0
    && forall i :: 0 <= i < m ==> ShareAt(f, total, bounds, tables, nGroups, i)
  }

  /** The tables are those of the shares. */
  ghost predicate SharedOut(f: seq<int>, total: int, tables: seq<seq<nat>>) {
    exists bounds: seq<nat> :: SharedTo(f, total, bounds, tables, |tables|, |tables|)
  }

  lemma SharedMore(f: seq<int>, total: int, bounds: seq<nat>, tables: seq<seq<nat>>, nGroups: nat, m: nat, ge: nat,
                   end: nat, tables': seq<seq<nat>>)
    requires SharedTo(f, total, bounds, tables, nGroups, m) && m < nGroups == |tables| && bounds[m] <= |f|
    requires ShareEnds(f, bounds[m], (total - Sum(f, bounds[m])) / (nGroups - m), ge)
    requires end == if GivesUp(m, nGroups, bounds[m], ge) then ge - 1 else ge
    requires tables' == tables[nGroups - 1 - m := ShareLens(|f|, bounds[m], end)]
    ensures SharedTo(f, total, bounds + [end], tables', nGroups, m + 1)
  {
    var more := bounds + [end];
    forall i | 0 <= i < m + 1
      ensures ShareAt(f, total, more, tables', nGroups, i)
    {
      if i < m {
        assert ShareAt(f, total, bounds, tables, nGroups, i);
        var e: nat :| ShareIs(f, total, bounds, tables, nGroups, i, e);
        assert ShareIs(f, total, more, tables', nGroups, i, e);
      } else {
        assert ShareIs(f, total, more, tables', nGroups, i, ge);
      }
    }
  }

  /** The first tables. There are at least two values, so no unsigned number goes below zero. */
  method MakeFirst(mtfFreq: array<int>, nMTF: nat, n: nat) returns (tables: seq<seq<nat>>)
    requires 2 <= nMTF && n <= mtfFreq.Length && (forall v :: 0 <= v < n ==> mtfFreq[v] >= 0)
    requires Sum(mtfFreq[..n], n) == nMTF
    ensures |tables| == GroupsFor(nMTF) && Shaped(tables, n) && SharedOut(mtfFreq[..n], nMTF, tables)
  {
    ghost var f: seq<int> := mtfFreq[..n];
    var nGroups := GroupsFor(nMTF);
    tables := seq(nGroups, t => ShareLens(n, 0, 0));
    var nPart, remF, gs := nGroups, nMTF as int, 0;
    ghost var bounds: seq<nat> := [0];
    while nPart > 0
      invariant 0 <= nPart <= nGroups && gs <= n && |tables| == nGroups && Shaped(tables, n)
      invariant SharedTo(f, nMTF, bounds, tables, nGroups, nGroups - nPart) && bounds[nGroups - nPart] == gs
      invariant remF == nMTF - Sum(f, gs) >= 0
    {
      var ge, aFreq := Share(mtfFreq, n, gs, remF / nPart);
      ghost var stretch := ge;
      if ge - 1 > gs && nPart != nGroups && nPart != 1 && (nGroups - nPart) % 2 == 1 {
        aFreq := aFreq - mtfFreq[ge - 1];
        ge := ge - 1;
      }
      SharedMore(f, nMTF, bounds, tables, nGroups, nGroups - nPart, stretch, ge,
        tables[nPart - 1 := ShareLens(n, gs, ge)]);
      SumMono(f, ge, n);
      tables, bounds := tables[nPart - 1 := ShareLens(n, gs, ge)], bounds + [ge];
      nPart := nPart - 1;
      gs := ge;
      remF := remF - aFreq;
    }
  }

  /** Each share begins where the one before ends, and with the last value of the alphabet in use they cover it: every
      value is favoured by exactly one table. */
  lemma SharesCover(f: seq<int>, total: int, bounds: seq<nat>, tables: seq<seq<nat>>, v: nat)
    requires SharedTo(f, total, bounds, tables, |tables|, |tables|) && |tables| > 0 && v < |f|
    requires (forall i :: 0 <= i < |f| ==> f[i] >= 0) && f[|f| - 1] > 0 && total == Sum(f, |f|)
    ensures exists t :: 0 <= t < |tables| && |tables[t]| == |f| && tables[t][v] == 0
    ensures forall t, u :: 0 <= t < u < |tables| && |tables[t]| == |f| == |tables[u]| ==>
              tables[t][v] == 15 || tables[u][v] == 15
  {
    var m := |tables|;
    LastReaches(f, total, bounds, tables);
    var i := ShareWith(f, total, bounds, tables, v, m);
    assert ShareAt(f, total, bounds, tables, m, i);
    var t := m - 1 - i;
    assert tables[t][v] == 0;
    forall t, u | 0 <= t < u < m && |tables[t]| == |f| == |tables[u]|
      ensures tables[t][v] == 15 || tables[u][v] == 15
    {
      BoundsRise(f, total, bounds, tables, m - 1 - u + 1, m - 1 - t);
      assert ShareAt(f, total, bounds, tables, m, m - 1 - t) && ShareAt(f, total, bounds, tables, m, m - 1 - u);
    }
  }

  lemma {:induction false} BoundsRise(f: seq<int>, total: int, bounds: seq<nat>, tables: seq<seq<nat>>, i: nat, j: nat)
    requires SharedTo(f, total, bounds, tables, |tables|, |tables|) && i <= j <= |tables|
    ensures bounds[i] <= bounds[j]
    decreases j - i
  {
    if i < j {
      BoundsRise(f, total, bounds, tables, i, j - 1);
      assert ShareAt(f, total, bounds, tables, |tables|, j - 1);
    }
  }

  lemma LastReaches(f: seq<int>, total: int, bounds: seq<nat>, tables: seq<seq<nat>>)
    requires SharedTo(f, total, bounds, tables, |tables|, |tables|) && |tables| > 0 && |f| > 0
    requires (forall i :: 0 <= i < |f| ==> f[i] >= 0) && f[|f| - 1] > 0 && total == Sum(f, |f|)
    ensures bounds[|tables|] == |f|
  {
    var i := |tables| - 1;
    assert ShareAt(f, total, bounds, tables, |tables|, i);
    var ge: nat :| ShareIs(f, total, bounds, tables, |tables|, i, ge);
    if ge < |f| {
      SumMono(f, ge, |f| - 1);
    }
  }

  /** The share a value is in. */
  lemma {:induction false} ShareWith(f: seq<int>, total: int, bounds: seq<nat>, tables: seq<seq<nat>>, v: nat, m: nat)
    returns (i: nat)
    requires SharedTo(f, total, bounds, tables, |tables|, |tables|) && m <= |tables| && v < bounds[m]
    ensures i < m && bounds[i] <= v < bounds[i + 1]
    decreases m
  {
    if v < bounds[m - 1] {
      i := ShareWith(f, total, bounds, tables, v, m - 1);
    } else {
      i := m - 1;
    }
  }
}
