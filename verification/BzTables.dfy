/** The coding tables of `sendMTFValues`: which table each group of fifty values uses,
    and the code lengths and codes of each table. */
module BzTables {
  import opened PrefixCode
  import opened BzFormat
  import opened Occurrences
  import HC = HbCodes
  import F = Fibonacci

  const MAX_GROUPS := 6
  const N_ITERS := 4
  const MAX_LEN := 17

  /** Tables of one size. */
  ghost predicate Shaped(tables: seq<seq<nat>>, n: nat) {
    forall t :: 0 <= t < |tables| ==> |tables[t]| == n
  }

  ghost predicate InAlphabet(values: seq<int>, n: nat) {
    forall k :: 0 <= k < |values| ==> 0 <= values[k] < n
  }

  /** Bits that `values[gs..ge]` take with one table. */
  ghost function GroupCost(values: seq<int>, lens: seq<nat>, gs: nat, ge: nat): (r: nat)
    requires gs <= ge <= |values| && InAlphabet(values, |lens|)
  {
    if gs == ge then 0 else GroupCost(values, lens, gs, ge - 1) + lens[values[ge - 1]]
  }

  method GroupCosts(values: seq<int>, tables: seq<seq<nat>>, n: nat, gs: nat, ge: nat) returns (cost: array<nat>)
    requires gs <= ge <= |values| && InAlphabet(values, n) && Shaped(tables, n) && |tables| <= MAX_GROUPS
    ensures fresh(cost) && cost.Length == MAX_GROUPS
    ensures forall t :: 0 <= t < |tables| ==> cost[t] == GroupCost(values, tables[t], gs, ge)
  {
    cost := new nat[MAX_GROUPS];
    for t := 0 to |tables|
      invariant forall u :: 0 <= u < t ==> cost[u] == 0
    {
      cost[t] := 0;
    }
    for i := gs to ge
      invariant forall t :: 0 <= t < |tables| ==> cost[t] == GroupCost(values, tables[t], gs, i)
    {
      for t := 0 to |tables|
        invariant forall u :: 0 <= u < t ==> cost[u] == GroupCost(values, tables[u], gs, i + 1)
        invariant forall u :: t <= u < |tables| ==> cost[u] == GroupCost(values, tables[u], gs, i)
      {
        cost[t] := cost[t] + tables[t][values[i]];
      }
    }
  }

  /** The first cheapest table. */
  method Cheapest(cost: array<nat>, nGroups: nat) returns (bt: nat)
    requires 1 <= nGroups <= cost.Length
    ensures bt < nGroups && forall t :: 0 <= t < nGroups ==> cost[bt] <= cost[t]
    ensures forall t :: 0 <= t < bt ==> cost[bt] < cost[t]
  {
    var bc := cost[0];
    bt := 0;
    for t := 1 to nGroups
      invariant bt < t && bc == cost[bt] && forall u :: 0 <= u < t ==> cost[bt] <= cost[u]
      invariant forall u :: 0 <= u < bt ==> cost[bt] < cost[u]
    {
      if cost[t] < bc {
        bc := cost[t];
        bt := t;
      }
    }
  }

  // ----- counting what each table is used for -----

  ghost function Sum(f: seq<int>, m: nat): int
    requires m <= |f|
  {
    if m == 0 then 0 else Sum(f, m - 1) + f[m - 1]
  }

  lemma {:induction false} SumBump(f: seq<int>, v: nat, m: nat)
    requires v < |f| && m <= |f|
    ensures Sum(f[v := f[v] + 1], m) == Sum(f, m) + if v < m then 1 else 0
  {
    if m > 0 {
      SumBump(f, v, m - 1);
    }
  }

  lemma {:induction false} SumZero(f: seq<int>, m: nat)
    requires m <= |f| && forall i :: 0 <= i < |f| ==> f[i] == 0
    ensures Sum(f, m) == 0
  {
    if m > 0 {
      SumZero(f, m - 1);
    }
  }

  lemma {:induction false} TotalBound(f: seq<int>, m: nat)
    requires m <= |f| && forall i :: 0 <= i < |f| ==> f[i] >= 0
    ensures HC.FreqTotal(f, m) <= Sum(f, m) + m
  {
    if m > 0 {
      TotalBound(f, m - 1);
    }
  }

  /** Counts over the alphabet, no more than `m` in all. */
  ghost predicate CountRow(f: seq<int>, n: nat, m: nat) {
    |f| == n && (forall i :: 0 <= i < |f| ==> f[i] >= 0) && Sum(f, |f|) <= m
  }

  ghost predicate CountRows(rfreq: seq<seq<int>>, n: nat, m: nat) {
    forall t :: 0 <= t < |rfreq| ==> CountRow(rfreq[t], n, m)
  }

  lemma RowBumped(rfreq: seq<seq<int>>, n: nat, m: nat, t: nat, v: nat)
    requires CountRows(rfreq, n, m) && t < |rfreq| && v < n
    ensures |rfreq[t]| == n && CountRows(rfreq[t := rfreq[t][v := rfreq[t][v] + 1]], n, m + 1)
  {
    assert CountRow(rfreq[t], n, m);
    SumBump(rfreq[t], v, n);
  }

  lemma ZeroRow(n: nat)
    ensures CountRow(seq(n, i => 0), n, 0)
  {
    SumZero(seq(n, i => 0), n);
  }

  /** Group `g` of fifty values uses the first table that is cheapest for it. */
  ghost predicate CheapestAt(values: seq<int>, tables: seq<seq<nat>>, n: nat, selectors: seq<int>, g: nat) {
    && InAlphabet(values, n) && Shaped(tables, n) && g < |selectors| && GROUP_SIZE * g < |values|
    && 0 <= selectors[g] < |tables|
    && var ge := GroupEnd(values, g);
    forall t :: 0 <= t < |tables| ==>
      FirstOf(GroupCost(values, tables[selectors[g]], GROUP_SIZE * g, ge),
        GroupCost(values, tables[t], GROUP_SIZE * g, ge), selectors[g], t)
  }

  /** The cost of table `bt` is less than that of an earlier table `t`, and not more than that of a later one. */
  ghost predicate FirstOf(best: nat, cost: nat, bt: int, t: int) {
    if t < bt then best < cost else best <= cost
  }

  ghost function GroupEnd(values: seq<int>, g: nat): (r: nat)
    requires GROUP_SIZE * g < |values|
    ensures GROUP_SIZE * g < r <= |values|
  {
    if GROUP_SIZE * g + GROUP_SIZE < |values| then GROUP_SIZE * g + GROUP_SIZE else |values|
  }

  ghost predicate AllCheapest(values: seq<int>, tables: seq<seq<nat>>, n: nat, selectors: seq<int>) {
    forall g :: 0 <= g < |selectors| ==> CheapestAt(values, tables, n, selectors, g)
  }

  /** How often `v` occurs in those of the groups that use table `t`. */
  ghost function Uses(values: seq<int>, selectors: seq<int>, t: int, v: int): (r: nat)
    decreases |selectors|
  {
    if selectors == [] then 0
    else
      var g := |selectors| - 1;
      Uses(values, selectors[..g], t, v) +
        if selectors[g] == t && GROUP_SIZE * g < |values|
          then Count(values[GROUP_SIZE * g..GroupEnd(values, g)], v) else 0
  }

  /** The frequencies table `t` is made for. */
  ghost function UseRow(values: seq<int>, selectors: seq<int>, t: int, n: nat): (f: seq<int>)
    ensures |f| == n && forall v :: 0 <= v < n ==> f[v] == Uses(values, selectors, t, v)
  {
    seq(n, v => Uses(values, selectors, t, v))
  }

  ghost predicate ExactRows(rfreq: seq<seq<int>>, values: seq<int>, selectors: seq<int>, n: nat) {
    forall t :: 0 <= t < |rfreq| ==> rfreq[t] == UseRow(values, selectors, t, n)
  }

  /** Counts one group for the table it uses, and nothing for the others. */
  method CountGroup(values: seq<int>, rfreq0: seq<seq<int>>, n: nat, bt: nat, gs: nat, ge: nat)
    returns (rfreq: seq<seq<int>>)
    requires gs <= ge <= |values| && InAlphabet(values, n) && bt < |rfreq0| && CountRows(rfreq0, n, gs)
    ensures |rfreq| == |rfreq0| && CountRows(rfreq, n, ge)
    ensures forall t :: 0 <= t < |rfreq| && t != bt ==> rfreq[t] == rfreq0[t]
    ensures |rfreq[bt]| == n <= |rfreq0[bt]|
    ensures forall v :: 0 <= v < n ==> rfreq[bt][v] == rfreq0[bt][v] + Count(values[gs..ge], v)
  {
    rfreq := rfreq0;
    assert CountRow(rfreq[bt], n, gs);
    for i := gs to ge
      invariant |rfreq| == |rfreq0| && CountRows(rfreq, n, i)
      invariant forall t :: 0 <= t < |rfreq| && t != bt ==> rfreq[t] == rfreq0[t]
      invariant |rfreq[bt]| == n == |rfreq0[bt]|
      invariant forall v :: 0 <= v < n ==> rfreq[bt][v] == rfreq0[bt][v] + Count(values[gs..i], v)
    {
      RowBumped(rfreq, n, i, bt, values[i]);
      assert values[gs..i + 1] == values[gs..i] + [values[i]];
      rfreq := rfreq[bt := rfreq[bt][values[i] := rfreq[bt][values[i]] + 1]];
    }
  }

  /** With one more group counted, the rows are exact for one more selector. */
  lemma RowsMore(rfreq: seq<seq<int>>, rfreq': seq<seq<int>>, values: seq<int>, selectors: seq<int>, bt: nat, n: nat)
    requires ExactRows(rfreq, values, selectors, n) && |rfreq'| == |rfreq| && bt < |rfreq|
    requires GROUP_SIZE * |selectors| < |values| && |rfreq'[bt]| == n
    requires forall t :: 0 <= t < |rfreq| && t != bt ==> rfreq'[t] == rfreq[t]
    requires |rfreq[bt]| == n
    requires forall v :: 0 <= v < n ==>
             rfreq'[bt][v] == rfreq[bt][v] + Count(values[GROUP_SIZE * |selectors|..GroupEnd(values, |selectors|)], v)
    ensures ExactRows(rfreq', values, selectors + [bt], n)
  {
    var s := selectors + [bt];
    assert s[..|selectors|] == selectors;
    forall t | 0 <= t < |rfreq'|
      ensures rfreq'[t] == UseRow(values, s, t, n)
    {
      assert rfreq[t] == UseRow(values, selectors, t, n);
      forall v | 0 <= v < n
        ensures rfreq'[t][v] == Uses(values, s, t, v)
      {
      }
    }
  }

  method ChooseTable(values: seq<int>, tables: seq<seq<nat>>, n: nat, gs: nat, ge: nat) returns (bt: nat)
    requires gs <= ge <= |values| && InAlphabet(values, n) && Shaped(tables, n) && 1 <= |tables| <= MAX_GROUPS
    ensures bt < |tables|
    ensures forall t :: 0 <= t < |tables| ==>
              FirstOf(GroupCost(values, tables[bt], gs, ge), GroupCost(values, tables[t], gs, ge), bt, t)
  {
    var cost := GroupCosts(values, tables, n, gs, ge);
    bt := Cheapest(cost, |tables|);
  }

  lemma CheapestMore(values: seq<int>, tables: seq<seq<nat>>, n: nat, selectors: seq<int>, bt: int)
    requires AllCheapest(values, tables, n, selectors) && CheapestAt(values, tables, n, selectors + [bt], |selectors|)
    ensures AllCheapest(values, tables, n, selectors + [bt])
  {
    forall g | 0 <= g < |selectors + [bt]|
      ensures CheapestAt(values, tables, n, selectors + [bt], g)
    {
      assert g < |selectors| ==> CheapestAt(values, tables, n, selectors, g);
    }
  }

  /** One pass over the values: a selector for every group, and for every table the values of the groups that use it,
      counted. */
  method Select(values: seq<int>, tables: seq<seq<nat>>, n: nat) returns (selectors: seq<int>, rfreq: seq<seq<int>>)
    requires InAlphabet(values, n) && Shaped(tables, n) && 1 <= |tables| <= MAX_GROUPS
    ensures GROUP_SIZE * |selectors| >= |values| && GROUP_SIZE * (|selectors| - 1) < |values|
    ensures AllCheapest(values, tables, n, selectors)
    ensures |rfreq| == |tables| && CountRows(rfreq, n, |values|) && ExactRows(rfreq, values, selectors, n)
  {
    ZeroRow(n);
    rfreq := seq(|tables|, t => seq(n, i => 0));
    selectors := [];
    var gs := 0;
    while gs < |values|
      invariant 0 <= gs <= |values| && |rfreq| == |tables| && CountRows(rfreq, n, gs)
      invariant GROUP_SIZE * (|selectors| - 1) < |values|
      invariant gs == if GROUP_SIZE * |selectors| < |values| then GROUP_SIZE * |selectors| else |values|
      invariant AllCheapest(values, tables, n, selectors) && ExactRows(rfreq, values, selectors, n)
      decreases |values| - gs
    {
      var ge := gs + GROUP_SIZE - 1;
      if ge >= |values| {
        ge := |values| - 1;
      }
      var bt := ChooseTable(values, tables, n, gs, ge + 1);
      assert ge + 1 == GroupEnd(values, |selectors|);
      assert CheapestAt(values, tables, n, selectors + [bt], |selectors|);
      CheapestMore(values, tables, n, selectors, bt);
      var more := CountGroup(values, rfreq, n, bt, gs, ge + 1);
      RowsMore(rfreq, more, values, selectors, bt, n);
      selectors, rfreq := selectors + [bt], more;
      gs := ge + 1;
    }
  }

  // ----- the lengths -----

  ghost predicate GoodTable(lens: seq<nat>, n: nat) {
    |lens| == n && Complete(lens, MAX_LEN) && forall i :: 0 <= i < |lens| ==> 1 <= lens[i] <= MAX_LEN
  }

  ghost predicate GoodTables(tables: seq<seq<nat>>, n: nat) {
    forall t :: 0 <= t < |tables| ==> GoodTable(tables[t], n)
  }

  method CopyRow(rfreq: seq<int>, n: nat) returns (freq: array<int>)
    requires n <= |rfreq| && n <= 258
    ensures fresh(freq) && freq.Length == 258 && forall j :: 0 <= j < n ==> freq[j] == rfreq[j]
  {
    freq := new int[258];
    for i := 0 to n
      invariant forall j :: 0 <= j < i ==> freq[j] == rfreq[j]
    {
      freq[i] := rfreq[i];
    }
  }

  /** No code beats the lengths for these frequencies after the fewest rescalings that let a cheapest code fit the
      limit, and there are none if the frequencies add up to less than 6765. */
  ghost predicate FitFor(lens: seq<nat>, freq: seq<int>, n: nat) {
    && n <= |freq|
    && exists r: nat :: HC.Settles(freq, lens, n, MAX_LEN, r) && (HC.FreqTotal(freq, n) < 6765 ==> r == 0)
  }

  ghost predicate AllFitFor(tables: seq<seq<nat>>, rfreq: seq<seq<int>>, n: nat) {
    |tables| == |rfreq| && forall t :: 0 <= t < |tables| ==> FitFor(tables[t], rfreq[t], n)
  }

  lemma {:induction false} RescaledSame(a: seq<int>, b: seq<int>, m: nat, r: nat)
    requires m <= |a| && m <= |b| && forall i :: 0 <= i < m ==> a[i] == b[i] >= 0
    ensures HC.Rescaled(a, m, r) == HC.Rescaled(b, m, r)
  {
    if r > 0 {
      RescaledSame(a, b, m, r - 1);
    }
  }

  lemma SettlesSame(a: seq<int>, b: seq<int>, lens: seq<nat>, m: nat, r: nat)
    requires m <= |a| && m <= |b| && (forall i :: 0 <= i < m ==> a[i] == b[i] >= 0)
    requires HC.Settles(a, lens, m, MAX_LEN, r)
    ensures HC.Settles(b, lens, m, MAX_LEN, r)
  {
    RescaledSame(a, b, m, r);
    forall q | 0 <= q < r
      ensures HC.Rescaled(a, m, q) == HC.Rescaled(b, m, q)
    {
      RescaledSame(a, b, m, q);
    }
  }

  method MakeTable(rfreq: seq<int>, n: nat) returns (lens: seq<nat>)
    requires 2 <= n <= 258 && CountRow(rfreq, n, 0x40_0000)
    ensures GoodTable(lens, n) && FitFor(lens, rfreq, n)
  {
    var freq := CopyRow(rfreq, n);
    var len := new nat[258](i => 0);
    var heap, weight, parent := new int[260], new int[516], new int[516];
    TotalBound(rfreq, n);
    TotalSame(freq[..], rfreq, n);
    HC.SeventeenEnds(n);
    ghost var rescalings := HC.MakeCodeLengths(heap, weight, parent, len, freq, n, MAX_LEN);
    lens := len[..n];
    SettlesSame(freq[..], rfreq, lens, n, rescalings);
    F.FibAt18();
  }

  lemma {:induction false} TotalSame(a: seq<int>, b: seq<int>, m: nat)
    requires m <= |a| && m <= |b| && forall i :: 0 <= i < m ==> a[i] == b[i]
    ensures HC.FreqTotal(a, m) == HC.FreqTotal(b, m)
  {
    if m > 0 {
      TotalSame(a, b, m - 1);
    }
  }

  method MakeTables(rfreq: seq<seq<int>>, n: nat) returns (tables: seq<seq<nat>>)
    requires 2 <= n <= 258 && CountRows(rfreq, n, 0x40_0000)
    ensures GoodTables(tables, n) && AllFitFor(tables, rfreq, n)
  {
    tables := [];
    for t := 0 to |rfreq|
      invariant |tables| == t && GoodTables(tables, n)
      invariant forall u :: 0 <= u < t ==> FitFor(tables[u], rfreq[u], n)
    {
      assert CountRow(rfreq[t], n, 0x40_0000);
      var lens := MakeTable(rfreq[t], n);
      tables := tables + [lens];
    }
  }

  lemma RowsLoosen(rfreq: seq<seq<int>>, n: nat, m: nat, m': nat)
    requires CountRows(rfreq, n, m) && m <= m'
    ensures CountRows(rfreq, n, m')
  {
    forall t | 0 <= t < |rfreq|
      ensures CountRow(rfreq[t], n, m')
    {
      assert CountRow(rfreq[t], n, m);
    }
  }

  lemma GoodIsShaped(tables: seq<seq<nat>>, n: nat)
    requires GoodTables(tables, n)
    ensures Shaped(tables, n)
  {
    forall t | 0 <= t < |tables|
      ensures |tables[t]| == n
    {
      assert GoodTable(tables[t], n);
    }
  }

  /** Every table is fit for the values of the groups that use it. */
  ghost predicate TablesFit(tables: seq<seq<nat>>, values: seq<int>, selectors: seq<int>, n: nat) {
    forall t :: 0 <= t < |tables| ==> FitFor(tables[t], UseRow(values, selectors, t, n), n)
  }

  lemma FitForUses(tables: seq<seq<nat>>, rfreq: seq<seq<int>>, values: seq<int>, selectors: seq<int>, n: nat)
    requires AllFitFor(tables, rfreq, n) && ExactRows(rfreq, values, selectors, n)
    ensures TablesFit(tables, values, selectors, n)
  {
    forall t | 0 <= t < |tables|
      ensures FitFor(tables[t], UseRow(values, selectors, t, n), n)
    {
      assert FitFor(tables[t], rfreq[t], n);
    }
  }

  /** A selector for every group. */
  ghost predicate OnePerGroup(values: seq<int>, selectors: seq<int>) {
    GROUP_SIZE * |selectors| >= |values| && GROUP_SIZE * (|selectors| - 1) < |values|
  }

  /** What one round of improvement leaves. */
  datatype Pass = Pass(selectors: seq<int>, tables: seq<seq<nat>>)

  /** A round: every group takes the first of the tables that is cheapest for it, and new tables are made that are fit
      for the groups that took them. */
  ghost predicate Round(values: seq<int>, n: nat, tables: seq<seq<nat>>, x: Pass) {
    && OnePerGroup(values, x.selectors) && AllCheapest(values, tables, n, x.selectors)
    && |x.tables| == |tables| && TablesFit(x.tables, values, x.selectors, n)
  }

  ghost predicate RoundAt(values: seq<int>, n: nat, tables0: seq<seq<nat>>, log: seq<Pass>, i: nat)
    requires i < |log|
  {
    Round(values, n, if i == 0 then tables0 else log[i - 1].tables, log[i])
  }

  ghost predicate Rounds(values: seq<int>, n: nat, tables0: seq<seq<nat>>, log: seq<Pass>) {
    forall i :: 0 <= i < |log| ==> RoundAt(values, n, tables0, log, i)
  }

  /** Four rounds lead from the first tables to the last. */
  ghost predicate Improved(values: seq<int>, n: nat, tables0: seq<seq<nat>>, selectors: seq<int>,
                           tables: seq<seq<nat>>)
  {
    exists log: seq<Pass> :: |log| == 4 && log[3] == Pass(selectors, tables) && Rounds(values, n, tables0, log)
  }

  lemma RoundsMore(values: seq<int>, n: nat, tables0: seq<seq<nat>>, log: seq<Pass>, x: Pass)
    requires Rounds(values, n, tables0, log)
    requires Round(values, n, if log == [] then tables0 else log[|log| - 1].tables, x)
    ensures Rounds(values, n, tables0, log + [x])
  {
    forall i | 0 <= i < |log + [x]|
      ensures RoundAt(values, n, tables0, log + [x], i)
    {
      if i < |log| {
        assert RoundAt(values, n, tables0, log, i);
      }
    }
  }

  method ImproveOnce(values: seq<int>, tables0: seq<seq<nat>>, n: nat)
    returns (selectors: seq<int>, tables: seq<seq<nat>>)
    requires InAlphabet(values, n) && Shaped(tables0, n) && 1 <= |tables0| <= MAX_GROUPS
    requires 2 <= n <= 258 && |values| <= 0x40_0000
    ensures Round(values, n, tables0, Pass(selectors, tables)) && GoodTables(tables, n)
    ensures forall g :: 0 <= g < |selectors| ==> 0 <= selectors[g] < |tables|
  {
    var rfreq;
    selectors, rfreq := Select(values, tables0, n);
    forall g | 0 <= g < |selectors|
      ensures 0 <= selectors[g] < |tables0|
    {
      assert CheapestAt(values, tables0, n, selectors, g);
    }
    RowsLoosen(rfreq, n, |values|, 0x40_0000);
    tables := MakeTables(rfreq, n);
    FitForUses(tables, rfreq, values, selectors, n);
  }

  /** The four rounds of improvement, from whatever tables they start with. */
  method Improve(values: seq<int>, tables0: seq<seq<nat>>, n: nat) returns (selectors: seq<int>, tables: seq<seq<nat>>)
    requires InAlphabet(values, n) && Shaped(tables0, n) && 1 <= |tables0| <= MAX_GROUPS
    requires 2 <= n <= 258 && |values| <= 0x40_0000
    ensures |tables| == |tables0| && GoodTables(tables, n) && Improved(values, n, tables0, selectors, tables)
    ensures OnePerGroup(values, selectors) && TablesFit(tables, values, selectors, n)
    ensures forall g :: 0 <= g < |selectors| ==> 0 <= selectors[g] < |tables|
  {
    tables, selectors := tables0, [];
    ghost var log: seq<Pass> := [];
    for iter := 0 to N_ITERS
      invariant |tables| == |tables0| && Shaped(tables, n) && |log| == iter && Rounds(values, n, tables0, log)
      invariant if iter == 0 then tables == tables0 else log[iter - 1] == Pass(selectors, tables)
      invariant iter > 0 ==>
                GoodTables(tables, n) && Round(values, n, if iter == 1 then tables0 else log[iter - 2].tables,
                  Pass(selectors, tables))
      invariant forall g :: 0 <= g < |selectors| ==> 0 <= selectors[g] < |tables|
    {
      selectors, tables := ImproveOnce(values, tables, n);
      GoodIsShaped(tables, n);
      RoundsMore(values, n, tables0, log, Pass(selectors, tables));
      log := log + [Pass(selectors, tables)];
    }
  }

  // ----- the codes -----

  ghost predicate CodesOf(codes: seq<nat>, lens: seq<nat>) {
    |codes| == |lens| && forall i :: 0 <= i < |lens| ==> codes[i] == Code(lens, i)
  }

  method Spread(lens: seq<nat>) returns (minLen: nat, maxLen: nat)
    requires forall i :: 0 <= i < |lens| ==> 1 <= lens[i] <= 32
    ensures 0 < minLen && forall i :: 0 <= i < |lens| ==> minLen <= lens[i] <= maxLen
  {
    minLen, maxLen := 32, 0;
    for i := 0 to |lens|
      invariant 0 < minLen <= 32 && forall j :: 0 <= j < i ==> minLen <= lens[j] <= maxLen
    {
      if lens[i] > maxLen {
        maxLen := lens[i];
      }
      if lens[i] < minLen {
        minLen := lens[i];
      }
    }
  }

  method MakeCodes(lens: seq<nat>, n: nat) returns (codes: seq<nat>)
    requires GoodTable(lens, n)
    ensures CodesOf(codes, lens)
  {
    var minLen, maxLen := Spread(lens);
    var code := new nat[n](i => 0);
    var length := new nat[n](i requires 0 <= i < n => lens[i]);
    assert length[..n] == lens;
    HC.AssignCodes(code, length, minLen, maxLen, n);
    codes := code[..];
  }

  ghost predicate AllCodes(codes: seq<seq<nat>>, tables: seq<seq<nat>>) {
    |codes| == |tables| && forall t :: 0 <= t < |codes| ==> CodesOf(codes[t], tables[t])
  }

  method MakeAllCodes(tables: seq<seq<nat>>, n: nat) returns (codes: seq<seq<nat>>)
    requires GoodTables(tables, n)
    ensures AllCodes(codes, tables)
  {
    codes := [];
    for t := 0 to |tables|
      invariant |codes| == t && forall u :: 0 <= u < t ==> CodesOf(codes[u], tables[u])
    {
      assert GoodTable(tables[t], n);
      var c := MakeCodes(tables[t], n);
      codes := codes + [c];
    }
  }
}
