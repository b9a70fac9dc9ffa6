/** Which blocks a text is cut into, said of the text alone. Its runs are as long as they can be, up to 255 bytes, and a
    block takes runs until it is full; so however the text arrives, the blocks are the same. */
module BlockCut {
  import opened MtfDecoder
  import opened RunLength

  // ----- the runs of a text -----

  /** A run of fewer than 255 bytes ends because another byte follows. */
  ghost predicate EndsThere(runs: seq<Run>, i: nat) {
    i + 1 < |runs| ==> runs[i].ch != runs[i + 1].ch || runs[i].len == 255
  }

  ghost predicate Greedy(runs: seq<Run>) {
    forall i :: 0 <= i < |runs| ==> IsRun(runs[i]) && EndsThere(runs, i)
  }

  /** Those runs, and perhaps one more that is still growing. */
  ghost predicate GreedySoFar(runs: seq<Run>, ch: int) {
    Greedy(runs) && (ch < 256 && runs != [] ==> runs[|runs| - 1].ch != ch || runs[|runs| - 1].len == 255)
  }

  lemma GreedyMore(runs: seq<Run>, r: Run)
    requires GreedySoFar(runs, r.ch) && IsRun(r)
    ensures Greedy(runs + [r])
  {
    var more := runs + [r];
    forall i | 0 <= i < |more|
      ensures IsRun(more[i]) && EndsThere(more, i)
    {
      if i < |runs| {
        assert IsRun(runs[i]) && EndsThere(runs, i);
      }
    }
  }

  lemma GreedyTail(runs: seq<Run>)
    requires Greedy(runs) && runs != []
    ensures Greedy(runs[1..])
  {
    forall i | 0 <= i < |runs| - 1
      ensures IsRun(runs[1..][i]) && EndsThere(runs[1..], i)
    {
      assert IsRun(runs[i + 1]) && EndsThere(runs, i + 1);
    }
  }

  lemma MeaningFirst(runs: seq<Run>)
    requires Greedy(runs) && runs != []
    ensures |Meaning(runs)| >= runs[0].len >= 1 && forall k :: 0 <= k < runs[0].len ==> Meaning(runs)[k] == runs[0].ch
    ensures Meaning(runs)[runs[0].len..] == Meaning(runs[1..])
  {
    assert IsRun(runs[0]);
  }

  /** What comes after the first run, unless that has 255 bytes, is another byte. */
  lemma AfterFirst(runs: seq<Run>)
    requires Greedy(runs) && runs != [] && runs[0].len < 255 && |Meaning(runs)| > runs[0].len
    ensures Meaning(runs)[runs[0].len] != runs[0].ch
  {
    MeaningFirst(runs);
    var rest := runs[1..];
    assert rest != [] && EndsThere(runs, 0);
    GreedyTail(runs);
    MeaningFirst(rest);
    assert Meaning(runs)[runs[0].len..][0] == rest[0].ch;
  }

  lemma FirstNotLonger(a: seq<Run>, b: seq<Run>)
    requires Greedy(a) && Greedy(b) && a != [] && b != [] && Meaning(a) == Meaning(b)
    ensures a[0].ch == b[0].ch && a[0].len >= b[0].len
  {
    MeaningFirst(a);
    MeaningFirst(b);
    assert IsRun(b[0]) && Meaning(a)[0] == a[0].ch && Meaning(b)[0] == b[0].ch;
    if a[0].len < b[0].len {
      AfterFirst(a);
    }
  }

  /** The runs of a text are determined by it. */
  lemma {:induction false} GreedyUnique(a: seq<Run>, b: seq<Run>)
    requires Greedy(a) && Greedy(b) && Meaning(a) == Meaning(b)
    ensures a == b
    decreases |a|
  {
    if a == [] || b == [] {
      if a != [] {
        MeaningFirst(a);
      }
      if b != [] {
        MeaningFirst(b);
      }
    } else {
      FirstNotLonger(a, b);
      FirstNotLonger(b, a);
      MeaningFirst(a);
      MeaningFirst(b);
      GreedyTail(a);
      GreedyTail(b);
      GreedyUnique(a[1..], b[1..]);
      assert a == [a[0]] + a[1..] && b == [b[0]] + b[1..];
    }
  }

  // ----- the cut into blocks -----

  /** Without its last run the block is not full. */
  ghost predicate Needed(max: nat, runs: seq<Run>) {
    runs != [] && |StoredAll(runs[..|runs| - 1])| < max
  }

  ghost predicate Full(max: nat, runs: seq<Run>) {
    Needed(max, runs) && |StoredAll(runs)| >= max
  }

  ghost predicate AllFull(max: nat, cut: seq<seq<Run>>) {
    forall i :: 0 <= i < |cut| ==> Full(max, cut[i])
  }

  ghost function AllRuns(cut: seq<seq<Run>>): (r: seq<Run>) {
    if cut == [] then [] else AllRuns(cut[..|cut| - 1]) + cut[|cut| - 1]
  }

  lemma AllRunsMore(cut: seq<seq<Run>>, runs: seq<Run>)
    ensures AllRuns(cut + [runs]) == AllRuns(cut) + runs
  {
    assert (cut + [runs])[..|cut|] == cut;
  }

  /** Every block but the last is full, and none goes on when it is. */
  ghost predicate CutInto(max: nat, cut: seq<seq<Run>>) {
    cut != [] ==> AllFull(max, cut[..|cut| - 1]) && Needed(max, cut[|cut| - 1])
  }

  /** The blocks of this text. */
  ghost predicate CutsText(max: nat, text: seq<int>, blocks: seq<seq<int>>) {
    exists cut: seq<seq<Run>> :: CutsAs(max, text, blocks, cut)
  }

  ghost predicate CutsAs(max: nat, text: seq<int>, blocks: seq<seq<int>>, cut: seq<seq<Run>>) {
    Greedy(AllRuns(cut)) && Meaning(AllRuns(cut)) == text && CutInto(max, cut) && StoredIn(blocks, cut)
  }

  ghost predicate StoredIn(blocks: seq<seq<int>>, cut: seq<seq<Run>>) {
    |blocks| == |cut| && forall i :: 0 <= i < |cut| ==> blocks[i] == StoredAll(cut[i])
  }

  lemma {:induction false} StoredGrows(runs: seq<Run>, k: nat)
    requires k <= |runs|
    ensures |StoredAll(runs[..k])| <= |StoredAll(runs)|
    decreases |runs| - k
  {
    if k < |runs| {
      StoredMore(runs[..k], runs[k]);
      assert runs[..k + 1] == runs[..k] + [runs[k]];
      StoredGrows(runs, k + 1);
    } else {
      assert runs[..k] == runs;
    }
  }

  /** From the front: the first block and the rest. */
  lemma {:induction false} AllRunsFront(cut: seq<seq<Run>>)
    requires cut != []
    ensures AllRuns(cut) == cut[0] + AllRuns(cut[1..])
    decreases |cut|
  {
    var init, last := cut[..|cut| - 1], cut[|cut| - 1];
    if |cut| == 1 {
      assert init == [] && cut[1..] == [];
      assert AllRuns(init) == [];
    } else {
      AllRunsFront(init);
      assert cut[1..][..|cut| - 2] == init[1..] && cut[1..][|cut| - 2] == last;
    }
  }

  /** A block that goes on past where it is full has more runs than it needs. */
  lemma NotPastFull(max: nat, a: seq<Run>, b: seq<Run>)
    requires Full(max, a) && |a| < |b| && b[..|a|] == a
    ensures !Needed(max, b)
  {
    var init := b[..|b| - 1];
    StoredGrows(init, |a|);
    assert init[..|a|] == a;
  }

  lemma FirstNeeded(max: nat, cut: seq<seq<Run>>)
    requires CutInto(max, cut) && cut != []
    ensures Needed(max, cut[0]) && (|cut| > 1 ==> Full(max, cut[0]))
    ensures |cut| == 1 ==> AllRuns(cut) == cut[0]
  {
    if |cut| > 1 {
      assert cut[..|cut| - 1][0] == cut[0];
    } else {
      assert cut[..0] == [] && AllRuns([]) == [];
    }
  }

  lemma FirstBlock(max: nat, a: seq<seq<Run>>, b: seq<seq<Run>>)
    requires CutInto(max, a) && CutInto(max, b) && AllRuns(a) == AllRuns(b) && a != [] && b != []
    ensures |a[0]| >= |b[0]|
  {
    AllRunsFront(a);
    AllRunsFront(b);
    FirstNeeded(max, a);
    FirstNeeded(max, b);
    var all := AllRuns(a);
    assert all[..|b[0]|] == b[0] && all[..|a[0]|] == a[0];
    if |a[0]| < |b[0]| {
      NotPastFull(max, a[0], b[0]);
    }
  }

  lemma CutTail(max: nat, cut: seq<seq<Run>>)
    requires CutInto(max, cut) && cut != []
    ensures CutInto(max, cut[1..]) && cut[0] != []
  {
    var rest := cut[1..];
    if rest != [] {
      forall i | 0 <= i < |rest| - 1
        ensures Full(max, rest[i])
      {
        assert cut[..|cut| - 1][i + 1] == rest[i];
      }
      assert cut[..|cut| - 1][0] == cut[0];
    }
  }

  /** The cut is determined by the runs. */
  lemma {:induction false} CutUnique(max: nat, a: seq<seq<Run>>, b: seq<seq<Run>>)
    requires CutInto(max, a) && CutInto(max, b) && AllRuns(a) == AllRuns(b)
    ensures a == b
    decreases |a|
  {
    if a == [] || b == [] {
      if a != [] {
        AllRunsFront(a);
        CutTail(max, a);
      }
      if b != [] {
        AllRunsFront(b);
        CutTail(max, b);
      }
    } else {
      FirstBlock(max, a, b);
      FirstBlock(max, b, a);
      AllRunsFront(a);
      AllRunsFront(b);
      CutTail(max, a);
      CutTail(max, b);
      var all, n := AllRuns(a), |a[0]|;
      assert all[..n] == a[0] && all[..n] == b[0] && all[n..] == AllRuns(a[1..]) && all[n..] == AllRuns(b[1..]);
      CutUnique(max, a[1..], b[1..]);
      assert a == [a[0]] + a[1..] && b == [b[0]] + b[1..];
    }
  }

  /** The blocks depend on the text and the limit alone. */
  lemma BlocksUnique(max: nat, text: seq<int>, a: seq<seq<int>>, b: seq<seq<int>>)
    requires CutsText(max, text, a) && CutsText(max, text, b)
    ensures a == b
  {
    var c: seq<seq<Run>> :| CutsAs(max, text, a, c);
    var d: seq<seq<Run>> :| CutsAs(max, text, b, d);
    GreedyUnique(AllRuns(c), AllRuns(d));
    CutUnique(max, c, d);
  }

  lemma NeededSize(max: nat, runs: seq<Run>)
    requires Needed(max, runs) && IsRun(runs[|runs| - 1])
    ensures 0 < |StoredAll(runs)| <= max + 4
  {
    var init, r := runs[..|runs| - 1], runs[|runs| - 1];
    StoredMore(init, r);
    assert runs == init + [r];
  }

  /** Every block but the last has at least `max` bytes, and none has more than four more. */
  lemma BlockSizes(max: nat, text: seq<int>, blocks: seq<seq<int>>, i: nat)
    requires CutsText(max, text, blocks) && i < |blocks|
    ensures i < |blocks| - 1 ==> |blocks[i]| >= max
    ensures 0 < |blocks[i]| <= max + 4
  {
    var cut: seq<seq<Run>> :| CutsAs(max, text, blocks, cut);
    if i < |cut| - 1 {
      assert cut[..|cut| - 1][i] == cut[i];
    }
    InAllRuns(cut, i, |cut[i]| - 1);
    NeededSize(max, cut[i]);
  }

  lemma {:induction false} InAllRuns(cut: seq<seq<Run>>, i: nat, k: nat)
    requires i < |cut| && k < |cut[i]| && Greedy(AllRuns(cut))
    ensures IsRun(cut[i][k])
    decreases |cut|
  {
    var init, last := cut[..|cut| - 1], cut[|cut| - 1];
    var all := AllRuns(cut);
    if i == |cut| - 1 {
      assert all[|AllRuns(init)| + k] == last[k];
      assert IsRun(all[|AllRuns(init)| + k]);
    } else {
      GreedyPart(AllRuns(init), last);
      InAllRuns(init, i, k);
    }
  }

  lemma GreedyPart(a: seq<Run>, b: seq<Run>)
    requires Greedy(a + b)
    ensures Greedy(a)
  {
    var all := a + b;
    forall i | 0 <= i < |a|
      ensures IsRun(a[i]) && EndsThere(a, i)
    {
      assert IsRun(all[i]) && EndsThere(all, i);
    }
  }
}
