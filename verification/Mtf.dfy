/** The decoder for the values `generateMTFValues` writes: runs of the front byte in
    bijective base 2 (RUNA, RUNB), other bytes by their place in the list of recently used ones. */
module MtfDecoder {

  const RUNA := 0
  const RUNB := 1

  datatype Decoder = Decoder(out: seq<int>, list: seq<int>, run: nat, weight: nat)

  function Repeat(c: int, n: nat): (r: seq<int>)
    ensures |r| == n && forall k :: 0 <= k < n ==> r[k] == c
  {
    seq(n, k => c)
  }

  function ToFront(list: seq<int>, k: nat): (r: seq<int>)
    requires k < |list|
    ensures |r| == |list|
  {
    [list[k]] + list[..k] + list[k + 1..]
  }

  /** One value read. Only values that name a place in the list, or are part of a run, are meant to be. */
  function Step(d: Decoder, v: int): Decoder {
    if v == RUNA || v == RUNB then d.(run := d.run + (v + 1) * d.weight, weight := 2 * d.weight)
    else if 2 <= v <= |d.list| then
      Decoder(d.out + Repeat(d.list[0], d.run) + [d.list[v - 1]], ToFront(d.list, v - 1), 0, 1)
    else d
  }

  function Decoded(list: seq<int>, values: seq<int>): (r: Decoder)
    ensures |r.list| == |list|
  {
    if values == [] then Decoder([], list, 0, 1)
    else Step(Decoded(list, values[..|values| - 1]), values[|values| - 1])
  }

  lemma DecodedMore(list: seq<int>, values: seq<int>, v: int)
    ensures Decoded(list, values + [v]) == Step(Decoded(list, values), v)
  {
    assert (values + [v])[..|values|] == values;
  }

  /** The bytes a list of values stands for, up to the end-of-block value. */
  function Column(list: seq<int>, values: seq<int>): (r: seq<int>)
    requires |list| > 0
  {
    var d := Decoded(list, values);
    d.out + Repeat(d.list[0], d.run)
  }

  /** The bytes in use, in increasing order: the list the decoder starts with. */
  function UsedBytes(inUse: seq<bool>, m: nat): (r: seq<int>)
    requires m <= |inUse|
    ensures |r| <= m && forall k :: 0 <= k < |r| ==> 0 <= r[k] < m && inUse[r[k]]
  {
    if m == 0 then [] else UsedBytes(inUse, m - 1) + if inUse[m - 1] then [m - 1] else []
  }
}

/** `makeMaps_e`, `inner_loop` and `generateMTFValues`. The array `arr1` holds the sorted
    pointers as 32-bit words and, from its start, the 16-bit values written over them. */
module Mtf {
  import opened Occurrences
  import opened Arith
  import opened Rotation
  import opened Bwt
  import opened MtfDecoder

  /** The bytes a recency list of indexes stands for. */
  ghost function Named(used: seq<int>, yy: seq<int>): (r: seq<int>)
    requires forall k :: 0 <= k < |yy| ==> 0 <= yy[k] < |used|
    ensures |r| == |yy|
  {
    seq(|yy|, k requires 0 <= k < |yy| => used[yy[k]])
  }

  ghost predicate IsList(used: seq<int>, yy: seq<int>) {
    |yy| == |used| > 0 && IsPerm(yy, |used|)
  }

  lemma ToFrontPerm(yy: seq<int>, j: nat, n: nat)
    requires IsPerm(yy, n) && j < n
    ensures IsPerm(ToFront(yy, j), n)
  {
    var r := ToFront(yy, j);
    forall a, b | 0 <= a < b < n
      ensures r[a] != r[b]
    {
      var a', b' := if a == 0 then j else if a <= j then a - 1 else a, if b <= j then b - 1 else b;
      assert r[a] == yy[a'] && r[b] == yy[b'];
    }
  }

  lemma NamedToFront(used: seq<int>, yy: seq<int>, j: nat)
    requires IsList(used, yy) && j < |yy|
    ensures IsList(used, ToFront(yy, j)) && Named(used, ToFront(yy, j)) == ToFront(Named(used, yy), j)
  {
    ToFrontPerm(yy, j, |yy|);
    var a, b := Named(used, ToFront(yy, j)), ToFront(Named(used, yy), j);
    forall k | 0 <= k < |yy|
      ensures a[k] == b[k]
    {
    }
  }

  /** What is written so far, with `zPend` more front bytes pending, decodes to `column`. */
  ghost predicate Encodes(used: seq<int>, values: seq<int>, yy: seq<int>, run: nat, zPend: nat, column: seq<int>) {
    && IsList(used, yy)
    && var d := Decoded(used, values);
    && d.list == Named(used, yy) && d.run == run
    && d.out + Repeat(d.list[0], run + zPend) == column
  }

  ghost predicate Fresh(used: seq<int>, values: seq<int>) {
    Decoded(used, values).weight == 1
  }

  lemma FrontAgain(used: seq<int>, values: seq<int>, yy: seq<int>, zPend: nat, column: seq<int>)
    requires Encodes(used, values, yy, 0, zPend, column)
    ensures Encodes(used, values, yy, 0, zPend + 1, column + [used[yy[0]]])
  {
    var c := used[yy[0]];
    assert Repeat(c, zPend + 1) == Repeat(c, zPend) + [c];
  }

  /** One digit of a run. */
  lemma DigitStep(used: seq<int>, values: seq<int>, v: int)
    requires v == RUNA || v == RUNB
    ensures var d, d' := Decoded(used, values), Decoded(used, values + [v]);
            d'.out == d.out && d'.list == d.list && d'.run == d.run + (v + 1) * d.weight && d'.weight == 2 * d.weight
  {
    DecodedMore(used, values, v);
  }

  /** The value of the digit written and of the digits to come. */
  lemma DigitSplit(z: nat, w: nat)
    ensures z >= 2 ==> (z + 1) * w == (z % 2 + 1) * w + ((z - 2) / 2 + 1) * (2 * w)
    ensures z < 2 ==> (z + 1) * w == (z % 2 + 1) * w
  {
    if z >= 2 {
      var q := (z - 2) / 2 + 1;
      Associate(q, 2, w);
      Distribute(z % 2 + 1, q * 2, w);
      assert z % 2 + 1 + q * 2 == z + 1;
    }
  }

  lemma RunWritten(used: seq<int>, values: seq<int>, values': seq<int>, yy: seq<int>, zPend: nat, column: seq<int>)
    requires Encodes(used, values, yy, 0, zPend, column)
    requires var d, d' := Decoded(used, values), Decoded(used, values');
             d'.out == d.out && d'.list == d.list && d'.run == zPend
    ensures Encodes(used, values', yy, zPend, 0, column)
  {
  }

  lemma MoveStep(used: seq<int>, values: seq<int>, j: nat)
    requires 1 <= j < |used|
    ensures var d, d' := Decoded(used, values), Decoded(used, values + [j + 1]);
            && d'.out == d.out + Repeat(d.list[0], d.run) + [d.list[j]]
            && d'.list == ToFront(d.list, j) && d'.run == 0 && d'.weight == 1
  {
    DecodedMore(used, values, j + 1);
  }

  lemma NothingPending(out: seq<int>, c: int)
    ensures out + Repeat(c, 0) == out
  {
  }

  /** A byte found at place `j` and moved to the front. */
  lemma MoveWritten(used: seq<int>, values: seq<int>, yy: seq<int>, run: nat, column: seq<int>, j: nat)
    requires Encodes(used, values, yy, run, 0, column) && 1 <= j < |yy|
    ensures Encodes(used, values + [j + 1], ToFront(yy, j), 0, 0, column + [used[yy[j]]])
    ensures Fresh(used, values + [j + 1])
  {
    MoveStep(used, values, j);
    NamedToFront(used, yy, j);
    var d' := Decoded(used, values + [j + 1]);
    NothingPending(d'.out, d'.list[0]);
  }

  // ----- the storage -----

  /** The pointer stored in word `i`, on a machine of either byte order. */
  function Word(halves: seq<int>, i: nat, big: bool): int
    requires 2 * i + 1 < |halves|
  {
    if big then 65536 * halves[2 * i] + halves[2 * i + 1] else halves[2 * i] + 65536 * halves[2 * i + 1]
  }

  ghost predicate HoldsFrom(halves: seq<int>, p: seq<int>, big: bool, i: nat) {
    2 * |p| <= |halves| && forall k :: i <= k < |p| ==> Word(halves, k, big) == p[k]
  }

  lemma HoldsFrame(h: seq<int>, h': seq<int>, p: seq<int>, big: bool, i: nat, wr: nat)
    requires HoldsFrom(h, p, big, i) && |h| == |h'| && wr <= 2 * i && forall k :: wr <= k < |h| ==> h[k] == h'[k]
    ensures HoldsFrom(h', p, big, i)
  {
  }

  ghost predicate Counts(freq: seq<int>, values: seq<int>, last: int) {
    && 0 <= last < |freq|
    && (forall k :: 0 <= k < |values| ==> 0 <= values[k] <= last)
    && forall v :: 0 <= v <= last ==> freq[v] == Count(values, v)
  }

  lemma OneMore(freq: seq<int>, values: seq<int>, last: int, v: nat)
    requires Counts(freq, values, last) && v <= last
    ensures Counts(freq[v := freq[v] + 1], values + [v], last)
  {
    assert (values + [v])[..|values|] == values;
  }

  method PutValue(halves: array<int>, mtfFreq: array<int>, wr: nat, v: nat, ghost last: int)
    requires halves != mtfFreq && wr < halves.Length && Counts(mtfFreq[..], halves[..wr], last) && v <= last
    modifies halves, mtfFreq
    ensures halves[..wr + 1] == old(halves[..wr]) + [v]
    ensures forall k :: wr < k < halves.Length ==> halves[k] == old(halves[k])
    ensures Counts(mtfFreq[..], halves[..wr + 1], last)
  {
    OneMore(mtfFreq[..], halves[..wr], last, v);
    halves[wr] := v;
    mtfFreq[v] := mtfFreq[v] + 1;
    assert halves[..wr + 1] == old(halves[..wr]) + [v];
    assert mtfFreq[..] == old(mtfFreq[..])[v := old(mtfFreq[v]) + 1];
  }

  /** After some digits of a run, `z` + 1 more units of the present weight are due. */
  ghost predicate RunDue(used: seq<int>, values0: seq<int>, values: seq<int>, due: nat, total: nat) {
    && |values0| <= |values| && values[..|values0|] == values0
    && (forall k :: |values0| <= k < |values| ==> values[k] <= RUNB)
    && var d0, d := Decoded(used, values0), Decoded(used, values);
    && d.out == d0.out && d.list == d0.list && d.run + due * d.weight == total
  }

  lemma RunStep(used: seq<int>, values0: seq<int>, values: seq<int>, z: nat, total: nat)
    requires RunDue(used, values0, values, z + 1, total)
    ensures RunDue(used, values0, values + [z % 2], if z < 2 then 0 else (z - 2) / 2 + 1, total)
  {
    DigitStep(used, values, z % 2);
    DigitSplit(z, Decoded(used, values).weight);
  }

  /** Writes a run of `zPend0` front bytes, least digit first. */
  method PutRun(halves: array<int>, mtfFreq: array<int>, wr0: nat, zPend0: nat, ghost last: int, ghost used: seq<int>)
    returns (wr: nat)
    requires halves != mtfFreq && 0 < zPend0 && wr0 + zPend0 <= halves.Length && last >= 1
    requires Counts(mtfFreq[..], halves[..wr0], last)
    requires var d := Decoded(used, halves[..wr0]); d.run == 0 && d.weight == 1
    modifies halves, mtfFreq
    ensures wr0 <= wr <= wr0 + zPend0 && Counts(mtfFreq[..], halves[..wr], last)
    ensures forall k :: wr <= k < halves.Length ==> halves[k] == old(halves[k])
    ensures RunDue(used, old(halves[..wr0]), halves[..wr], 0, zPend0)
  {
    ghost var values0: seq<int> := halves[..wr0];
    ghost var values: seq<int> := values0;
    wr := wr0;
    var z: int := zPend0 - 1;
    while true
      invariant 0 <= z && wr0 <= wr && wr + z + 1 <= wr0 + zPend0
      invariant values == halves[..wr] && Counts(mtfFreq[..], values, last)
      invariant forall k :: wr <= k < halves.Length ==> halves[k] == old(halves[k])
      invariant RunDue(used, values0, values, z + 1, zPend0)
      decreases z
    {
      var run := z % 2;
      RunStep(used, values0, values, z, zPend0);
      PutValue(halves, mtfFreq, wr, run, last);
      values := values + [run];
      wr := wr + 1;
      z := z - 2;
      if z < 0 {
        break;
      }
      z := z / 2;
    }
  }

  // ----- the tables -----

  lemma {:induction false} UsedAt(inUse: seq<bool>, m: nat, b: nat)
    requires b < m <= |inUse| && inUse[b]
    ensures var k := |UsedBytes(inUse, b)|; k < |UsedBytes(inUse, m)| && UsedBytes(inUse, m)[k] == b
  {
    if b < m - 1 {
      UsedAt(inUse, m - 1, b);
    }
  }

  /** The bytes of the block are marked in use. */
  ghost predicate AllUsed(block: seq<int>, inUse: seq<bool>) {
    |inUse| == 256 && forall j :: 0 <= j < |block| ==> 0 <= block[j] < 256 && inUse[block[j]]
  }

  /** Every byte in use has an index that names it. */
  ghost predicate Indexes(inUse: seq<bool>, unseqToSeq: seq<int>, used: seq<int>) {
    && |inUse| == |unseqToSeq| == 256
    && forall b :: 0 <= b < 256 && inUse[b] ==> 0 <= unseqToSeq[b] < |used| && used[unseqToSeq[b]] == b
  }

  lemma BlockMaps(block: seq<int>, inUse: seq<bool>, unseqToSeq: seq<int>, used: seq<int>)
    requires AllUsed(block, inUse) && Indexes(inUse, unseqToSeq, used)
    ensures Maps(block, unseqToSeq, used) && (|block| > 0 ==> |used| > 0)
  {
    forall j | 0 <= j < |block|
      ensures MapsAt(block, unseqToSeq, used, j)
    {
    }
    assert |block| > 0 ==> MapsAt(block, unseqToSeq, used, 0);
  }

  /** `makeMaps_e`. */
  method MakeMaps(inUse: array<bool>, unseqToSeq: array<int>) returns (nInUse: nat)
    requires inUse.Length == unseqToSeq.Length == 256
    modifies unseqToSeq
    ensures nInUse == |UsedBytes(inUse[..], 256)| <= 256
    ensures Indexes(inUse[..], unseqToSeq[..], UsedBytes(inUse[..], 256))
  {
    ghost var flags := inUse[..];
    nInUse := 0;
    for i := 0 to 256
      invariant nInUse == |UsedBytes(flags, i)| && inUse[..] == flags
      invariant forall b :: 0 <= b < i && flags[b] ==> unseqToSeq[b] == |UsedBytes(flags, b)|
    {
      if inUse[i] {
        unseqToSeq[i] := nInUse;
        nInUse := nInUse + 1;
      }
    }
    forall b | 0 <= b < 256 && inUse[b]
      ensures 0 <= unseqToSeq[b] < nInUse && UsedBytes(flags, 256)[unseqToSeq[b]] == b
    {
      UsedAt(flags, 256, b);
    }
  }

  /** The list with its first `j` entries one place further back. */
  ghost function ShiftedBack(list: seq<int>, j: nat): (r: seq<int>)
    requires j < |list|
    ensures |r| == |list|
  {
    [list[0]] + list[..j] + list[j + 1..]
  }

  lemma ShiftedMore(list: seq<int>, j: nat)
    requires j + 1 < |list|
    ensures ShiftedBack(list, j)[j + 1] == list[j + 1]
    ensures ShiftedBack(list, j)[j + 1 := list[j]] == ShiftedBack(list, j + 1)
  {
  }

  lemma FrontFilled(list: seq<int>, list': seq<int>, n: nat, j: nat)
    requires j < n <= |list| && list' == ShiftedBack(list, j)[0 := list[j]]
    ensures list'[..n] == ToFront(list[..n], j) && forall k :: n <= k < |list| ==> list'[k] == list[k]
  {
    assert list' == ToFront(list, j);
  }

  /** `inner_loop`: moves `ll` from its place `j` to the front, shifting the others back. */
  method MoveToFront(yy: array<int>, ll: int, ghost n: nat) returns (j: nat)
    requires n <= yy.Length && ll in yy[..n] && yy[0] != ll
    modifies yy
    ensures 1 <= j < n && old(yy[j]) == ll && yy[..n] == ToFront(old(yy[..n]), j)
    ensures forall k :: n <= k < yy.Length ==> yy[k] == old(yy[k])
  {
    ghost var list: seq<int> := yy[..];
    ghost var p := PlaceOf(yy[..n], ll);
    assert list[p] == ll;
    var rtmp := yy[1];
    yy[1] := yy[0];
    j := 1;
    assert yy[..] == ShiftedBack(list, 1);
    while ll != rtmp
      invariant 1 <= j <= p && rtmp == list[j] && yy[..] == ShiftedBack(list, j)
      decreases p - j
    {
      ghost var was := yy[..];
      ShiftedMore(list, j);
      j := j + 1;
      var rtmp2 := rtmp;
      rtmp := yy[j];
      yy[j] := rtmp2;
      assert yy[..] == was[j := list[j - 1]];
    }
    yy[0] := rtmp;
    FrontFilled(list, yy[..], n, j);
  }

  lemma PlaceOf(s: seq<int>, c: int) returns (p: nat)
    requires c in s
    ensures p < |s| && s[p] == c
  {
    p :| 0 <= p < |s| && s[p] == c;
  }

  // ----- the whole transformation -----

  /** `i` entries of the column are read, and all but `zPend` of them written. */
  ghost predicate Going(h: seq<int>, freq: seq<int>, yy: seq<int>, used: seq<int>, p: seq<int>, big: bool,
                        wr: nat, zPend: nat, i: nat, column: seq<int>) {
    && wr + zPend <= i <= |column| == |p| && 2 * |p| <= |h| && 0 < |used| <= 256
    && Encodes(used, h[..wr], yy, 0, zPend, column[..i]) && Fresh(used, h[..wr])
    && Written(h, freq, |used| + 1, wr)
    && HoldsFrom(h, p, big, i)
  }

  /** The values written, none of them the end-of-block value `last`, and their counts. */
  ghost predicate Written(h: seq<int>, freq: seq<int>, last: nat, wr: nat) {
    && wr <= |h| && |freq| == 258 && Counts(freq, h[..wr], last)
    && forall k :: 0 <= k < wr ==> h[k] < last
  }

  /** The pending run is written before anything else is. */
  method PutPending(halves: array<int>, mtfFreq: array<int>, wr0: nat, zPend: nat, ghost yy: seq<int>,
                    ghost used: seq<int>, ghost p: seq<int>, ghost big: bool, ghost i: nat, ghost column: seq<int>)
    returns (wr: nat)
    requires halves != mtfFreq && Going(halves[..], mtfFreq[..], yy, used, p, big, wr0, zPend, i, column)
    modifies halves, mtfFreq
    ensures wr <= i && Written(halves[..], mtfFreq[..], |used| + 1, wr)
    ensures Encodes(used, halves[..wr], yy, zPend, 0, column[..i]) && HoldsFrom(halves[..], p, big, i)
  {
    wr := wr0;
    ghost var h := halves[..];
    assert halves[..wr0] == h[..wr0];
    if zPend > 0 {
      wr := PutRun(halves, mtfFreq, wr0, zPend, |used| + 1, used);
      RunWritten(used, h[..wr0], halves[..wr], yy, zPend, column[..i]);
      HoldsFrame(h, halves[..], p, big, i, wr);
      assert halves[..][..wr] == halves[..wr];
      forall k | 0 <= k < wr
        ensures halves[k] < |used| + 1
      {
        if k < wr0 {
          assert halves[k] == halves[..wr][..wr0][k] == h[..wr0][k] == h[k];
        } else {
          assert halves[..wr][k] <= RUNB;
        }
      }
    }
  }

  /** Writes the place of a byte just moved to the front. */
  method WritePlace(halves: array<int>, mtfFreq: array<int>, wr: nat, j: nat, ghost list: seq<int>, ghost run: nat,
                    ghost used: seq<int>, ghost p: seq<int>, ghost big: bool, ghost i: nat, ghost column: seq<int>)
    requires halves != mtfFreq && wr <= i < |column| == |p| && 2 * |p| <= halves.Length && |used| <= 256
    requires 1 <= j < |list|
    requires Written(halves[..], mtfFreq[..], |used| + 1, wr) && HoldsFrom(halves[..], p, big, i)
    requires Encodes(used, halves[..wr], list, run, 0, column[..i]) && used[list[j]] == column[i]
    modifies halves, mtfFreq
    ensures Going(halves[..], mtfFreq[..], ToFront(list, j), used, p, big, wr + 1, 0, i + 1, column)
  {
    ghost var h: seq<int> := halves[..];
    assert halves[..wr] == h[..wr];
    PutValue(halves, mtfFreq, wr, j + 1, |used| + 1);
    assert halves[..][..wr + 1] == halves[..wr + 1];
    PlaceWritten(h, halves[..], mtfFreq[..], list, used, p, big, wr, run, i, column, j);
  }

  /** A byte that is not at the front: the pending run, then its place. */
  method PutPlace(halves: array<int>, mtfFreq: array<int>, yy: array<int>, ll: int, wr0: nat, zPend: nat,
                  ghost used: seq<int>, ghost p: seq<int>, ghost big: bool, ghost i: nat, ghost column: seq<int>)
    returns (wr: nat)
    requires halves != mtfFreq && halves != yy && mtfFreq != yy && |used| <= yy.Length
    requires i < |column| && 0 <= ll < |used| && used[ll] == column[i] && yy.Length > 0 && yy[0] != ll
    requires Going(halves[..], mtfFreq[..], yy[..|used|], used, p, big, wr0, zPend, i, column)
    modifies halves, mtfFreq, yy
    ensures Going(halves[..], mtfFreq[..], yy[..|used|], used, p, big, wr, 0, i + 1, column)
  {
    ghost var n := |used|;
    ghost var list: seq<int> := yy[..n];
    wr := PutPending(halves, mtfFreq, wr0, zPend, list, used, p, big, i, column);
    Counting.PermHits(list, n, ll);
    assert yy[..n] == list;
    var j := MoveToFront(yy, ll, n);
    assert list[j] == ll;
    WritePlace(halves, mtfFreq, wr, j, list, zPend, used, p, big, i, column);
    wr := wr + 1;
  }

  lemma PlaceWritten(h: seq<int>, h': seq<int>, freq: seq<int>, list: seq<int>, used: seq<int>, p: seq<int>, big: bool,
                     wr: nat, run: nat, i: nat, column: seq<int>, j: nat)
    requires wr <= i < |column| == |p| && 2 * |p| <= |h| == |h'| && |used| <= 256 && |freq| == 258 && 1 <= j < |list|
    requires Encodes(used, h[..wr], list, run, 0, column[..i]) && used[list[j]] == column[i]
    requires HoldsFrom(h, p, big, i) && (forall k :: 0 <= k < wr ==> h[k] < |used| + 1)
    requires h'[..wr + 1] == h[..wr] + [j + 1] && (forall k :: wr < k < |h| ==> h[k] == h'[k])
    requires Counts(freq, h'[..wr + 1], |used| + 1)
    ensures Going(h', freq, ToFront(list, j), used, p, big, wr + 1, 0, i + 1, column)
  {
    MoveWritten(used, h[..wr], list, run, column[..i], j);
    assert column[..i + 1] == column[..i] + [used[list[j]]];
    ValuesBelow(h, h', wr, j + 1, |used| + 1);
    HoldsFrame(h, h', p, big, i + 1, wr + 1);
  }

  lemma ValuesBelow(h: seq<int>, h': seq<int>, wr: nat, v: int, last: nat)
    requires wr < |h| == |h'| && h'[..wr + 1] == h[..wr] + [v] && v < last && forall k :: 0 <= k < wr ==> h[k] < last
    ensures forall k :: 0 <= k < wr + 1 ==> h'[k] < last
  {
    forall k | 0 <= k < wr + 1
      ensures h'[k] < last
    {
      assert h'[k] == h'[..wr + 1][k];
      assert k < wr ==> h[..wr][k] == h[k];
    }
  }

  /** One entry: read its pointer, take the byte before, and write or defer. */
  method PutEntry(halves: array<int>, mtfFreq: array<int>, yy: array<int>, block: array<int>, unseqToSeq: array<int>,
                  big: bool,
                  i: nat, wr0: nat, zPend0: nat, ghost used: seq<int>, ghost p: seq<int>)
    returns (wr: nat, zPend: nat)
    requires halves != mtfFreq && halves != yy && mtfFreq != yy && |used| <= yy.Length
    requires block != halves && block != mtfFreq && block != yy && unseqToSeq != halves && unseqToSeq != mtfFreq
    requires unseqToSeq != yy
    requires i < |p| == block.Length && IsPerm(p, |p|) && unseqToSeq.Length == 256
    requires Maps(block[..], unseqToSeq[..], used)
    requires Going(halves[..], mtfFreq[..], yy[..|used|], used, p, big, wr0, zPend0, i, LastColumn(block[..], p))
    modifies halves, mtfFreq, yy
    ensures Going(halves[..], mtfFreq[..], yy[..|used|], used, p, big, wr, zPend, i + 1, LastColumn(block[..], p))
  {
    ghost var column: seq<int> := LastColumn(block[..], p);
    var j := Word(halves[..], i, big) - 1;
    if j < 0 {
      j := j + block.Length;
    }
    assert block[j] == column[i];
    assert MapsAt(block[..], unseqToSeq[..], used, j);
    var ll := unseqToSeq[block[j]];
    if yy[0] == ll {
      wr, zPend := wr0, zPend0 + 1;
      FrontAgain(used, halves[..][..wr0], yy[..|used|], zPend0, column[..i]);
      assert column[..i + 1] == column[..i] + [used[ll]];
    } else {
      wr := PutPlace(halves, mtfFreq, yy, ll, wr0, zPend0, used, p, big, i, column);
      zPend := 0;
    }
  }

  /** Every byte of the block has an index that names it. */
  ghost predicate Maps(block: seq<int>, unseqToSeq: seq<int>, used: seq<int>) {
    |unseqToSeq| == 256 && forall j :: 0 <= j < |block| ==> MapsAt(block, unseqToSeq, used, j)
  }

  ghost predicate MapsAt(block: seq<int>, unseqToSeq: seq<int>, used: seq<int>, j: nat)
    requires |unseqToSeq| == 256 && j < |block|
  {
    0 <= block[j] < 256 && 0 <= unseqToSeq[block[j]] < |used| && used[unseqToSeq[block[j]]] == block[j]
  }

  method ClearCounts(mtfFreq: array<int>, last: nat)
    requires mtfFreq.Length == 258 && last < 258
    modifies mtfFreq
    ensures Counts(mtfFreq[..], [], last)
  {
    for i := 0 to last + 1
      invariant forall v :: 0 <= v < i ==> mtfFreq[v] == 0
    {
      mtfFreq[i] := 0;
    }
  }

  method FirstList(n: nat) returns (yy: array<int>)
    requires n <= 256
    ensures fresh(yy) && yy.Length == 256 && yy[..n] == Identity(n)
  {
    yy := new int[256];
    for i := 0 to n
      invariant forall k :: 0 <= k < i ==> yy[k] == k
    {
      yy[i] := i;
    }
  }

  lemma StartsEncoded(used: seq<int>)
    requires |used| > 0
    ensures Encodes(used, [], Identity(|used|), 0, 0, []) && Fresh(used, [])
  {
    assert Named(used, Identity(|used|)) == used;
  }

  /** The tables and the list before the first entry. */
  method Prepare(halves: array<int>, block: array<int>, inUse: array<bool>, unseqToSeq: array<int>, mtfFreq: array<int>,
                 big: bool, ghost p: seq<int>)
    returns (nInUse: nat, yy: array<int>)
    requires halves != mtfFreq && block != mtfFreq && unseqToSeq != halves && unseqToSeq != mtfFreq
    requires unseqToSeq != block
    requires 0 < block.Length == |p| && IsPerm(p, |p|) && 2 * |p| <= halves.Length && HoldsFrom(halves[..], p, big, 0)
    requires inUse.Length == unseqToSeq.Length == 256 && mtfFreq.Length == 258
    requires AllUsed(block[..], inUse[..])
    modifies unseqToSeq, mtfFreq
    ensures nInUse == |UsedBytes(inUse[..], 256)| && 1 <= nInUse <= 256 && fresh(yy) && yy.Length == 256
    ensures Maps(block[..], unseqToSeq[..], UsedBytes(inUse[..], 256))
    ensures Going(halves[..], mtfFreq[..], yy[..nInUse], UsedBytes(inUse[..], 256), p, big, 0, 0, 0,
            LastColumn(block[..], p))
  {
    nInUse := MakeMaps(inUse, unseqToSeq);
    ghost var used: seq<int> := UsedBytes(inUse[..], 256);
    BlockMaps(block[..], inUse[..], unseqToSeq[..], used);
    ClearCounts(mtfFreq, nInUse + 1);
    yy := FirstList(nInUse);
    StartsEncoded(used);
    assert halves[..][..0] == [] && LastColumn(block[..], p)[..0] == [];
  }

  /** Values ending in the only end-of-block value, which decode to `column` and are counted exactly. */
  ghost predicate Generated(values: seq<int>, freq: seq<int>, used: seq<int>, column: seq<int>) {
    && |used| > 0 && |values| > 0 && values[|values| - 1] == |used| + 1
    && (forall k :: 0 <= k < |values| - 1 ==> 0 <= values[k] <= |used|)
    && Column(used, values[..|values| - 1]) == column
    && Counts(freq, values, |used| + 1)
  }

  /** The last pending run and the end-of-block value. */
  method PutEnd(halves: array<int>, mtfFreq: array<int>, wr0: nat, zPend: nat, nInUse: nat, ghost yy: seq<int>,
                ghost used: seq<int>, ghost p: seq<int>, ghost big: bool, ghost column: seq<int>)
    returns (nMTF: nat)
    requires halves != mtfFreq && nInUse == |used| && |p| > 0
    requires Going(halves[..], mtfFreq[..], yy, used, p, big, wr0, zPend, |p|, column)
    modifies halves, mtfFreq
    ensures 1 <= nMTF <= |p| + 1 && nMTF <= halves.Length
    ensures Generated(halves[..nMTF], mtfFreq[..], used, column)
  {
    assert column[..|p|] == column;
    var wr := PutPending(halves, mtfFreq, wr0, zPend, yy, used, p, big, |p|, column);
    ghost var values: seq<int> := halves[..wr];
    assert halves[..][..wr] == values;
    PutValue(halves, mtfFreq, wr, nInUse + 1, nInUse + 1);
    nMTF := wr + 1;
    assert halves[..nMTF][..wr] == values;
    forall k | 0 <= k < wr
      ensures 0 <= halves[k] <= nInUse
    {
      assert halves[k] == halves[..nMTF][k] == values[k];
    }
  }

  /** All entries, then the end. */
  method PutColumn(halves: array<int>, mtfFreq: array<int>, yy: array<int>, block: array<int>, unseqToSeq: array<int>,
                   big: bool,
                   nInUse: nat, ghost used: seq<int>, ghost p: seq<int>)
    returns (nMTF: nat)
    requires halves != mtfFreq && halves != yy && mtfFreq != yy && nInUse == |used| <= yy.Length
    requires block != halves && block != mtfFreq && block != yy && unseqToSeq != halves && unseqToSeq != mtfFreq
    requires unseqToSeq != yy
    requires 0 < |p| == block.Length && IsPerm(p, |p|) && unseqToSeq.Length == 256
    requires Maps(block[..], unseqToSeq[..], used)
    requires Going(halves[..], mtfFreq[..], yy[..nInUse], used, p, big, 0, 0, 0, LastColumn(block[..], p))
    modifies halves, mtfFreq, yy
    ensures 1 <= nMTF <= block.Length + 1 && nMTF <= halves.Length
    ensures Generated(halves[..nMTF], mtfFreq[..], used, LastColumn(block[..], p))
  {
    ghost var s: seq<int>, maps: seq<int> := block[..], unseqToSeq[..];
    var wr: nat, zPend: nat := 0, 0;
    for i := 0 to block.Length
      invariant block[..] == s && unseqToSeq[..] == maps
      invariant Going(halves[..], mtfFreq[..], yy[..nInUse], used, p, big, wr, zPend, i, LastColumn(s, p))
    {
      wr, zPend := PutEntry(halves, mtfFreq, yy, block, unseqToSeq, big, i, wr, zPend, used, p);
      assert block[..] == s && unseqToSeq[..] == maps;
    }
    nMTF := PutEnd(halves, mtfFreq, wr, zPend, nInUse, yy[..nInUse], used, p, big, LastColumn(s, p));
  }

  /** `generateMTFValues`: the values written decode to the last column, whatever the
      byte order; they fit the space of pointers already read; and they are counted exactly. */
  method GenerateMTFValues(halves: array<int>, block: array<int>, inUse: array<bool>, unseqToSeq: array<int>,
                           mtfFreq: array<int>,
                           big: bool, ghost p: seq<int>)
    returns (nInUse: nat, nMTF: nat)
    requires halves != mtfFreq && block != halves && block != mtfFreq && unseqToSeq != halves && unseqToSeq != mtfFreq
    requires unseqToSeq != block
    requires 0 < block.Length == |p| && IsPerm(p, |p|) && 2 * |p| <= halves.Length && HoldsFrom(halves[..], p, big, 0)
    requires inUse.Length == unseqToSeq.Length == 256 && mtfFreq.Length == 258
    requires AllUsed(block[..], inUse[..])
    modifies halves, unseqToSeq, mtfFreq
    ensures nInUse == |UsedBytes(inUse[..], 256)| && 1 <= nInUse <= 256 && 1 <= nMTF <= block.Length + 1
    ensures nMTF <= halves.Length
    ensures Generated(halves[..nMTF], mtfFreq[..], UsedBytes(inUse[..], 256), LastColumn(block[..], p))
  {
    var yy;
    nInUse, yy := Prepare(halves, block, inUse, unseqToSeq, mtfFreq, big, p);
    nMTF := PutColumn(halves, mtfFreq, yy, block, unseqToSeq, big, nInUse, UsedBytes(inUse[..], 256), p);
  }
}
