/** The body of a bzip2 block as bits: bytes in use, selectors, code tables, data. */
module BzFormat {
  import opened Powers
  import opened PrefixCode
  import opened BitOps
  import opened BitStrings
  import opened MtfDecoder

  // ----- the bytes in use -----

  ghost predicate RowUsed(inUse: seq<bool>, i: nat)
    requires 16 * i + 16 <= |inUse|
  {
    exists j :: 0 <= j < 16 && Row(inUse, i)[j]
  }

  ghost function Row(inUse: seq<bool>, i: nat): (r: seq<bool>)
    requires 16 * i + 16 <= |inUse|
    ensures |r| == 16
  {
    inUse[16 * i..16 * i + 16]
  }

  /** Sixteen rows of sixteen flags, one bit for each row that has any, then those rows. */
  ghost function RowFlags(inUse: seq<bool>): (r: seq<bool>)
    requires |inUse| == 256
    ensures |r| == 16
  {
    seq(16, i requires 0 <= i < 16 => RowUsed(inUse, i))
  }

  ghost function RowParts(inUse: seq<bool>): (r: seq<seq<bool>>)
    requires |inUse| == 256
    ensures |r| == 16
  {
    seq(16, i requires 0 <= i < 16 => if RowUsed(inUse, i) then Row(inUse, i) else [])
  }

  ghost function MapBits(inUse: seq<bool>): (r: seq<bool>)
    requires |inUse| == 256
  {
    RowFlags(inUse) + Flat(RowParts(inUse))
  }

  ghost function ReadRows(flags: seq<bool>, bits: seq<bool>): (r: Option<(seq<bool>, seq<bool>)>)
    ensures r.Some? ==> |r.value.0| == 16 * |flags|
  {
    if flags == [] then Some(([], bits))
    else if flags[0] && |bits| < 16 then None
    else
      var row, more := if flags[0] then bits[..16] else Zeros(16), if flags[0] then bits[16..] else bits;
      match ReadRows(flags[1..], more)
      case None => None
      case Some(r) => Some((row + r.0, r.1))
  }

  ghost function ReadMap(bits: seq<bool>): (r: Option<(seq<bool>, seq<bool>)>)
    ensures r.Some? ==> |r.value.0| == 256
  {
    if |bits| < 16 then None else ReadRows(bits[..16], bits[16..])
  }

  lemma UnusedRow(inUse: seq<bool>, i: nat)
    requires 16 * i + 16 <= |inUse| && !RowUsed(inUse, i)
    ensures Row(inUse, i) == Zeros(16)
  {
    assert forall j :: 0 <= j < 16 ==> Row(inUse, i)[j] == Zeros(16)[j];
  }

  lemma {:induction false} ReadsRows(inUse: seq<bool>, i: nat, rest: seq<bool>)
    requires |inUse| == 256 && i <= 16
    ensures ReadRows(RowFlags(inUse)[i..], Flat(RowParts(inUse)[i..]) + rest) == Some((inUse[16 * i..], rest))
    decreases 16 - i
  {
    var flags, parts := RowFlags(inUse), RowParts(inUse);
    if i < 16 {
      ReadsRows(inUse, i + 1, rest);
      FlatFrom(parts, i);
      var more := Flat(parts[i + 1..]) + rest;
      var bits := Flat(parts[i..]) + rest;
      Regroup(parts[i], Flat(parts[i + 1..]), rest);
      assert bits == parts[i] + more;
      assert flags[i..][1..] == flags[i + 1..];
      assert inUse[16 * i..] == Row(inUse, i) + inUse[16 * (i + 1)..];
      if RowUsed(inUse, i) {
        assert bits[..16] == Row(inUse, i) && bits[16..] == more;
      } else {
        UnusedRow(inUse, i);
        assert bits == more;
      }
    } else {
      NothingLeft(parts, i, rest);
      assert flags[16..] == [] && inUse[16 * 16..] == [];
    }
  }

  lemma ReadsMap(inUse: seq<bool>, rest: seq<bool>)
    requires |inUse| == 256
    ensures ReadMap(MapBits(inUse) + rest) == Some((inUse, rest))
  {
    ReadsRows(inUse, 0, rest);
    var flags, parts := RowFlags(inUse), RowParts(inUse);
    Regroup(flags, Flat(parts), rest);
    assert flags[0..] == flags && parts[0..] == parts && inUse[16 * 0..] == inUse;
    assert (flags + (Flat(parts) + rest))[..16] == flags;
  }

  // ----- the selectors -----

  function Ones(n: nat): (r: seq<bool>)
    ensures |r| == n && forall k :: 0 <= k < n ==> r[k]
  {
    seq(n, k => true)
  }

  function Unary(j: nat): (r: seq<bool>) {
    Ones(j) + [false]
  }

  ghost function ReadUnary(bits: seq<bool>): (r: Option<(nat, seq<bool>)>)
    ensures r.Some? ==> |r.value.1| < |bits|
  {
    if bits == [] then None
    else if !bits[0] then Some((0, bits[1..]))
    else match ReadUnary(bits[1..])
      case None => None
      case Some(r) => Some((r.0 + 1, r.1))
  }

  lemma {:induction false} ReadsUnary(j: nat, rest: seq<bool>)
    ensures ReadUnary(Unary(j) + rest) == Some((j, rest))
  {
    if j > 0 {
      ReadsUnary(j - 1, rest);
      assert (Unary(j) + rest)[1..] == Unary(j - 1) + rest;
    }
  }

  ghost function ReadUnaries(bits: seq<bool>, n: nat): (r: Option<(seq<nat>, seq<bool>)>)
    ensures r.Some? ==> |r.value.0| == n
    decreases n
  {
    if n == 0 then Some(([], bits))
    else match ReadUnary(bits)
      case None => None
      case Some(j) =>
        match ReadUnaries(j.1, n - 1)
        case None => None
        case Some(r) => Some(([j.0] + r.0, r.1))
  }

  ghost function UnaryParts(places: seq<nat>): (r: seq<seq<bool>>)
    ensures |r| == |places|
  {
    seq(|places|, i requires 0 <= i < |places| => Unary(places[i]))
  }

  lemma {:induction false} ReadsUnaries(places: seq<nat>, i: nat, rest: seq<bool>)
    requires i <= |places|
    ensures ReadUnaries(Flat(UnaryParts(places)[i..]) + rest, |places| - i) == Some((places[i..], rest))
    decreases |places| - i
  {
    var parts := UnaryParts(places);
    if i < |places| {
      ReadsUnaries(places, i + 1, rest);
      FlatFrom(parts, i);
      Regroup(parts[i], Flat(parts[i + 1..]), rest);
      ReadsUnary(places[i], Flat(parts[i + 1..]) + rest);
      assert places[i..] == [places[i]] + places[i + 1..];
    } else {
      NothingLeft(parts, i, rest);
      assert places[i..] == [];
    }
  }

  /** Undoes move-to-front on the selectors: the selectors and the list afterwards. */
  ghost function Selected(places: seq<nat>, list: seq<int>): (r: Option<(seq<int>, seq<int>)>)
    ensures r.Some? ==> |r.value.0| == |places| && |r.value.1| == |list|
  {
    if places == [] then Some(([], list))
    else
      var j := places[|places| - 1];
      match Selected(places[..|places| - 1], list)
      case None => None
      case Some(r) => if j < |r.1| then Some((r.0 + [r.1[j]], ToFront(r.1, j))) else None
  }

  lemma SelectedMore(places: seq<nat>, list: seq<int>, j: nat)
    requires Selected(places, list).Some? && j < |list|
    ensures var r := Selected(places, list).value;
            Selected(places + [j], list) == Some((r.0 + [r.1[j]], ToFront(r.1, j)))
  {
    assert (places + [j])[..|places|] == places;
  }

  // ----- the code tables -----

  function DeltaBits(curr: nat, target: nat): (r: seq<bool>)
    decreases if curr < target then target - curr else curr - target
  {
    if curr < target then [true, false] + DeltaBits(curr + 1, target)
    else if curr > target then [true, true] + DeltaBits(curr - 1, target)
    else [false]
  }

  /** The shortest and the longest code the format allows. */
  predicate AllowedLen(len: nat) { 1 <= len <= 20 }

  /** One length, by steps from the last; none of them may leave the allowed range. */
  ghost function ReadDelta(bits: seq<bool>, curr: nat): (r: Option<(nat, seq<bool>)>) {
    if bits == [] || !AllowedLen(curr) then None
    else if !bits[0] then Some((curr, bits[1..]))
    else if |bits| < 2 then None
    else ReadDelta(bits[2..], if bits[1] then curr - 1 else curr + 1)
  }

  lemma {:induction false} ReadsDelta(curr: nat, target: nat, rest: seq<bool>)
    requires AllowedLen(curr) && AllowedLen(target)
    ensures ReadDelta(DeltaBits(curr, target) + rest, curr) == Some((target, rest))
    decreases if curr < target then target - curr else curr - target
  {
    var bits := DeltaBits(curr, target) + rest;
    if curr < target {
      ReadsDelta(curr + 1, target, rest);
      assert bits[2..] == DeltaBits(curr + 1, target) + rest;
    } else if curr > target {
      ReadsDelta(curr - 1, target, rest);
      assert bits[2..] == DeltaBits(curr - 1, target) + rest;
    }
  }

  function Prior(lens: seq<nat>, i: nat): nat
    requires i < |lens|
  {
    if i == 0 then lens[0] else lens[i - 1]
  }

  ghost function DeltaParts(lens: seq<nat>): (r: seq<seq<bool>>)
    ensures |r| == |lens|
  {
    seq(|lens|, i requires 0 <= i < |lens| => DeltaBits(Prior(lens, i), lens[i]))
  }

  ghost function ReadLens(bits: seq<bool>, n: nat, curr: nat): (r: Option<(seq<nat>, seq<bool>)>)
    ensures r.Some? ==> |r.value.0| == n
    decreases n
  {
    if n == 0 then Some(([], bits))
    else match ReadDelta(bits, curr)
      case None => None
      case Some(c) =>
        match ReadLens(c.1, n - 1, c.0)
        case None => None
        case Some(r) => Some(([c.0] + r.0, r.1))
  }

  lemma {:induction false} ReadsLens(lens: seq<nat>, i: nat, rest: seq<bool>)
    requires i < |lens| && forall j :: 0 <= j < |lens| ==> AllowedLen(lens[j])
    ensures ReadLens(Flat(DeltaParts(lens)[i..]) + rest, |lens| - i, Prior(lens, i)) == Some((lens[i..], rest))
    decreases |lens| - i
  {
    var parts := DeltaParts(lens);
    FlatFrom(parts, i);
    var more := Flat(parts[i + 1..]) + rest;
    Regroup(parts[i], Flat(parts[i + 1..]), rest);
    ReadsDelta(Prior(lens, i), lens[i], more);
    assert lens[i..] == [lens[i]] + lens[i + 1..];
    if i + 1 < |lens| {
      ReadsLens(lens, i + 1, rest);
    } else {
      NothingLeft(parts, i + 1, rest);
      assert ReadLens(more, 0, lens[i]) == Some(([], rest));
    }
  }

  ghost function TableBits(lens: seq<nat>): (r: seq<bool>)
    requires |lens| > 0
  {
    Bits(lens[0], 5) + Flat(DeltaParts(lens))
  }

  ghost function ReadTable(bits: seq<bool>, n: nat): (r: Option<(seq<nat>, seq<bool>)>)
    ensures r.Some? ==> |r.value.0| == n
  {
    match ReadNum(bits, 5)
    case None => None
    case Some(c) => ReadLens(c.1, n, c.0)
  }

  lemma ReadsTable(lens: seq<nat>, rest: seq<bool>)
    requires |lens| > 0 && forall j :: 0 <= j < |lens| ==> AllowedLen(lens[j])
    ensures ReadTable(TableBits(lens) + rest, |lens|) == Some((lens, rest))
  {
    var parts := DeltaParts(lens);
    Pow2Values();
    Regroup(Bits(lens[0], 5), Flat(parts), rest);
    ReadsNum(lens[0], 5, Flat(parts) + rest);
    ReadsLens(lens, 0, rest);
    assert parts[0..] == parts && lens[0..] == lens;
  }

  ghost function ReadTables(bits: seq<bool>, nGroups: nat, n: nat): (r: Option<(seq<seq<nat>>, seq<bool>)>)
    ensures r.Some? ==> |r.value.0| == nGroups
    decreases nGroups
  {
    if nGroups == 0 then Some(([], bits))
    else match ReadTable(bits, n)
      case None => None
      case Some(t) =>
        match ReadTables(t.1, nGroups - 1, n)
        case None => None
        case Some(r) => Some(([t.0] + r.0, r.1))
  }

  /** Tables of one size with allowed lengths. */
  ghost predicate AreTables(tables: seq<seq<nat>>, n: nat) {
    n > 0 && forall t :: 0 <= t < |tables| ==> IsTable(tables[t], n)
  }

  ghost predicate IsTable(lens: seq<nat>, n: nat) {
    |lens| == n && forall j :: 0 <= j < n ==> AllowedLen(lens[j])
  }

  ghost function TableParts(tables: seq<seq<nat>>, n: nat): (r: seq<seq<bool>>)
    requires AreTables(tables, n)
    ensures |r| == |tables|
  {
    seq(|tables|, t requires 0 <= t < |tables| => assert IsTable(tables[t], n); TableBits(tables[t]))
  }

  lemma {:induction false} ReadsTables(tables: seq<seq<nat>>, n: nat, t: nat, rest: seq<bool>)
    requires AreTables(tables, n) && t <= |tables|
    ensures ReadTables(Flat(TableParts(tables, n)[t..]) + rest, |tables| - t, n) == Some((tables[t..], rest))
    decreases |tables| - t
  {
    var parts := TableParts(tables, n);
    if t < |tables| {
      FlatFrom(parts, t);
      var more := Flat(parts[t + 1..]) + rest;
      Regroup(parts[t], Flat(parts[t + 1..]), rest);
      assert IsTable(tables[t], n);
      ReadsTable(tables[t], more);
      ReadsTables(tables, n, t + 1, rest);
      assert tables[t..] == [tables[t]] + tables[t + 1..];
    } else {
      NothingLeft(parts, t, rest);
      assert tables[t..] == [];
    }
  }

  // ----- the data -----

  const GROUP_SIZE := 50

  /** Value `k` is coded with the table its group of fifty selects. */
  ghost function TableFor(tables: seq<seq<nat>>, selectors: seq<int>, k: nat): (r: seq<nat>) {
    var g := k / GROUP_SIZE;
    if g < |selectors| && 0 <= selectors[g] < |tables| then tables[selectors[g]] else []
  }

  ghost predicate Sendable(values: seq<int>, tables: seq<seq<nat>>, selectors: seq<int>, top: nat) {
    forall k :: 0 <= k < |values| ==> SendableAt(values, tables, selectors, top, k)
  }

  ghost predicate SendableAt(values: seq<int>, tables: seq<seq<nat>>, selectors: seq<int>, top: nat, k: nat)
    requires k < |values|
  {
    var lens := TableFor(tables, selectors, k);
    0 <= values[k] < |lens| && 0 < lens[values[k]] && Fits(lens, top)
  }

  ghost function DataParts(values: seq<int>, tables: seq<seq<nat>>, selectors: seq<int>, top: nat): (r: seq<seq<bool>>)
    requires Sendable(values, tables, selectors, top)
    ensures |r| == |values|
  {
    seq(|values|, k requires 0 <= k < |values| =>
      assert SendableAt(values, tables, selectors, top, k);
      Encode(TableFor(tables, selectors, k), values[k]))
  }

  /** Values from the `k`th on, up to and including the end-of-block value. */
  ghost function ReadData(bits: seq<bool>, tables: seq<seq<nat>>, selectors: seq<int>, last: int,
                          k: nat): (r: Option<(seq<int>, seq<bool>)>)
    decreases |bits|
  {
    match DecodeSym(TableFor(tables, selectors, k), bits)
    case None => None
    case Some(v) =>
      if v.0 == last then Some(([v.0], v.1))
      else match ReadData(v.1, tables, selectors, last, k + 1)
        case None => None
        case Some(r) => Some(([v.0] + r.0, r.1))
  }

  lemma ReadStep(bits: seq<bool>, tables: seq<seq<nat>>, selectors: seq<int>, last: int, k: nat, v: nat,
                 more: seq<bool>,
                 values: seq<int>, rest: seq<bool>)
    requires DecodeSym(TableFor(tables, selectors, k), bits) == Some((v, more))
    requires if v == last then values == [] && rest == more
             else ReadData(more, tables, selectors, last, k + 1) == Some((values, rest))
    ensures ReadData(bits, tables, selectors, last, k) == Some(([v] + values, rest))
  {
    if v == last {
      assert [v] + values == [v];
    }
  }

  lemma {:induction false} ReadsData(values: seq<int>, tables: seq<seq<nat>>, selectors: seq<int>, top: nat, last: int,
                                     k: nat, rest: seq<bool>)
    requires Sendable(values, tables, selectors, top) && k < |values|
    requires values[|values| - 1] == last && forall j :: 0 <= j < |values| - 1 ==> values[j] != last
    ensures ReadData(Flat(DataParts(values, tables, selectors, top)[k..]) + rest, tables, selectors, last, k) ==
            Some((values[k..], rest))
    decreases |values| - k
  {
    var parts := DataParts(values, tables, selectors, top);
    FlatFrom(parts, k);
    var more := Flat(parts[k + 1..]) + rest;
    Regroup(parts[k], Flat(parts[k + 1..]), rest);
    assert SendableAt(values, tables, selectors, top, k);
    DecodeEncode(TableFor(tables, selectors, k), top, values[k], more);
    TailFrom(values, k);
    if k + 1 < |values| {
      ReadsData(values, tables, selectors, top, last, k + 1, rest);
    } else {
      NothingLeft(parts, k + 1, rest);
    }
    ReadStep(parts[k] + more, tables, selectors, last, k, values[k], more, values[k + 1..], rest);
  }

  lemma TailFrom(values: seq<int>, k: nat)
    requires k < |values|
    ensures values[k..] == [values[k]] + values[k + 1..] && (k + 1 == |values| ==> values[k + 1..] == [])
  {
  }
}

/** A whole block as bits, and its reader: from the block CRC to the end of the data. */
module BzBlock {
  import opened Powers
  import opened PrefixCode
  import opened BitStrings
  import opened MtfDecoder
  import opened BzFormat
  import opened Rotation
  import opened Bwt

  const TOP := 17

  /** What is sent for one block besides the sort's origin. */
  datatype Body = Body(inUse: seq<bool>, nGroups: nat, places: seq<nat>, selectors: seq<int>, tables: seq<seq<nat>>,
                       values: seq<int>)

  ghost predicate Sound(b: Body) {
    && |b.inUse| == 256 && 2 <= |b.tables| == b.nGroups <= 6 && 0 < |b.places| == |b.selectors| < 0x8000
    && AreTables(b.tables, |UsedBytes(b.inUse, 256)| + 2)
    && Selected(b.places, Identity(b.nGroups)).Some?
    && Selected(b.places, Identity(b.nGroups)).value.0 == b.selectors
    && Sendable(b.values, b.tables, b.selectors, TOP)
    && EndsOnce(b.values, |UsedBytes(b.inUse, 256)| + 1)
  }

  /** The end-of-block value stands at the end and nowhere else. */
  ghost predicate EndsOnce(values: seq<int>, last: int) {
    && |values| > 0 && values[|values| - 1] == last
    && forall j :: 0 <= j < |values| - 1 ==> values[j] != last
  }

  ghost function SelectorBits(b: Body): (r: seq<bool>) {
    Bits(b.nGroups, 3) + Bits(|b.places|, 15) + Flat(UnaryParts(b.places))
  }

  ghost function CodedBits(b: Body): (r: seq<bool>)
    requires Sound(b)
  {
    Flat(TableParts(b.tables, |UsedBytes(b.inUse, 256)| + 2)) + Flat(DataParts(b.values, b.tables, b.selectors, TOP))
  }

  ghost function BodyBits(b: Body): (r: seq<bool>)
    requires Sound(b)
  {
    MapBits(b.inUse) + SelectorBits(b) + CodedBits(b)
  }

  // ----- reading -----

  /** The number of tables, two to six, and the selectors, at least one. */
  ghost function ReadSelectors(bits: seq<bool>): (r: Option<((nat, seq<int>), seq<bool>)>) {
    match ReadNum(bits, 3)
    case None => None
    case Some(g) =>
      match ReadNum(g.1, 15)
      case None => None
      case Some(n) =>
        if !(2 <= g.0 <= 6) || n.0 == 0 then None
        else match ReadUnaries(n.1, n.0)
        case None => None
        case Some(p) =>
          match Selected(p.0, Identity(g.0))
          case None => None
          case Some(s) => Some(((g.0, s.0), p.1))
  }

  /** The values, given how many bytes are in use. */
  ghost function ReadCoded(bits: seq<bool>, nGroups: nat, selectors: seq<int>,
                           nInUse: nat): (r: Option<(seq<int>, seq<bool>)>) {
    match ReadTables(bits, nGroups, nInUse + 2)
    case None => None
    case Some(t) => ReadData(t.1, t.0, selectors, nInUse + 1, 0)
  }

  /** The column of the sorted rotations. */
  ghost function ReadBody(bits: seq<bool>): (r: Option<(seq<int>, seq<bool>)>) {
    match ReadMap(bits)
    case None => None
    case Some(m) =>
      var used := UsedBytes(m.0, 256);
      match ReadSelectors(m.1)
      case None => None
      case Some(s) =>
        match ReadCoded(s.1, s.0.0, s.0.1, |used|)
        case None => None
        case Some(v) =>
          if |used| == 0 || |v.0| == 0 || !AllPlaces(v.0[..|v.0| - 1], |used|) then None
          else Some((Column(used, v.0[..|v.0| - 1]), v.1))
  }

  /** Every value is part of a run or names a place in the list of `n` bytes. */
  ghost predicate AllPlaces(values: seq<int>, n: nat) {
    forall i :: 0 <= i < |values| ==> 0 <= values[i] <= n
  }

  lemma SentArePlaces(b: Body)
    requires Sound(b)
    ensures AllPlaces(b.values[..|b.values| - 1], |UsedBytes(b.inUse, 256)|)
  {
    var n := |UsedBytes(b.inUse, 256)|;
    forall i | 0 <= i < |b.values| - 1
      ensures 0 <= b.values[i] <= n
    {
      assert SendableAt(b.values, b.tables, b.selectors, TOP, i);
      assert b.values[i] != n + 1;
      var g := b.selectors[i / GROUP_SIZE];
      assert IsTable(b.tables[g], n + 2);
    }
  }

  lemma ReadsSelectors(b: Body, rest: seq<bool>)
    requires Sound(b)
    ensures ReadSelectors(SelectorBits(b) + rest) == Some(((b.nGroups, b.selectors), rest))
  {
    var n, unary := |b.places|, Flat(UnaryParts(b.places));
    Pow2Values();
    Regroup(Bits(b.nGroups, 3) + Bits(n, 15), unary, rest);
    Regroup(Bits(b.nGroups, 3), Bits(n, 15), unary + rest);
    ReadsNum(b.nGroups, 3, Bits(n, 15) + (unary + rest));
    ReadsNum(n, 15, unary + rest);
    ReadsAllUnaries(b.places, rest);
  }

  lemma ReadsAllUnaries(places: seq<nat>, rest: seq<bool>)
    ensures ReadUnaries(Flat(UnaryParts(places)) + rest, |places|) == Some((places, rest))
  {
    ReadsUnaries(places, 0, rest);
    assert UnaryParts(places)[0..] == UnaryParts(places) && places[0..] == places;
  }

  lemma ReadsCoded(b: Body, rest: seq<bool>)
    requires Sound(b)
    ensures ReadCoded(CodedBits(b) + rest, b.nGroups, b.selectors, |UsedBytes(b.inUse, 256)|) == Some((b.values, rest))
  {
    var n := |UsedBytes(b.inUse, 256)|;
    var tables, data := TableParts(b.tables, n + 2), DataParts(b.values, b.tables, b.selectors, TOP);
    Regroup(Flat(tables), Flat(data), rest);
    ReadsAllTables(b.tables, n + 2, Flat(data) + rest);
    ReadsAllData(b.values, b.tables, b.selectors, n + 1, rest);
  }

  lemma ReadsAllTables(tables: seq<seq<nat>>, n: nat, rest: seq<bool>)
    requires AreTables(tables, n)
    ensures ReadTables(Flat(TableParts(tables, n)) + rest, |tables|, n) == Some((tables, rest))
  {
    ReadsTables(tables, n, 0, rest);
    assert TableParts(tables, n)[0..] == TableParts(tables, n) && tables[0..] == tables;
  }

  lemma ReadsAllData(values: seq<int>, tables: seq<seq<nat>>, selectors: seq<int>, last: int, rest: seq<bool>)
    requires Sendable(values, tables, selectors, TOP) && EndsOnce(values, last)
    ensures ReadData(Flat(DataParts(values, tables, selectors, TOP)) + rest, tables, selectors, last, 0) ==
            Some((values, rest))
  {
    ReadsData(values, tables, selectors, TOP, last, 0, rest);
    assert DataParts(values, tables, selectors, TOP)[0..] == DataParts(values, tables, selectors, TOP)
           && values[0..] == values;
  }

  /** Reading what is sent for a block gives the column its values stand for. */
  lemma ReadsBody(b: Body, rest: seq<bool>)
    requires Sound(b) && |UsedBytes(b.inUse, 256)| > 0
    ensures ReadBody(BodyBits(b) + rest) == Some((Column(UsedBytes(b.inUse, 256), b.values[..|b.values| - 1]), rest))
  {
    Regroup(MapBits(b.inUse) + SelectorBits(b), CodedBits(b), rest);
    Regroup(MapBits(b.inUse), SelectorBits(b), CodedBits(b) + rest);
    ReadsMap(b.inUse, SelectorBits(b) + (CodedBits(b) + rest));
    ReadsSelectors(b, CodedBits(b) + rest);
    ReadsCoded(b, rest);
    SentArePlaces(b);
  }

  /** A block's head after its magic number: CRC, the randomised bit (off), the origin. */
  ghost function ReadHead(bits: seq<bool>): (r: Option<((nat, nat), seq<bool>)>) {
    match ReadNum(bits, 32)
    case None => None
    case Some(c) =>
      if c.1 == [] || c.1[0] then None
      else match ReadNum(c.1[1..], 24)
        case None => None
        case Some(o) => Some(((c.0, o.0), o.1))
  }

  ghost function HeadBits(crc: nat, origPtr: nat): (r: seq<bool>) {
    Bits(crc, 32) + [false] + Bits(origPtr, 24)
  }

  lemma ReadsHead(crc: nat, origPtr: nat, rest: seq<bool>)
    requires crc < 0x1_0000_0000 && origPtr < 0x100_0000
    ensures ReadHead(HeadBits(crc, origPtr) + rest) == Some(((crc, origPtr), rest))
  {
    Pow2Values();
    Pow2Add(8, 16);
    var more := [false] + (Bits(origPtr, 24) + rest);
    assert HeadBits(crc, origPtr) + rest == Bits(crc, 32) + more;
    ReadsNum(crc, 32, more);
    assert more[1..] == Bits(origPtr, 24) + rest;
    ReadsNum(origPtr, 24, rest);
  }

  /** The CRC and the bytes of a block. */
  ghost function ReadBlock(bits: seq<bool>): (r: Option<((nat, seq<int>), seq<bool>)>) {
    match ReadHead(bits)
    case None => None
    case Some(h) =>
      match ReadBody(h.1)
      case None => None
      case Some(d) =>
        if h.0.1 < |d.0| then Some(((h.0.0, Decode(d.0, h.0.1)), d.1)) else None
  }

  ghost function BlockBits(crc: nat, origPtr: nat, b: Body): (r: seq<bool>)
    requires Sound(b)
  {
    HeadBits(crc, origPtr) + BodyBits(b)
  }

  /** A block sent from ANY sort of its rotations reads back as the block, with its CRC. */
  lemma ReadsBlock(crc: nat, origPtr: nat, b: Body, block: seq<int>, p: seq<int>, rest: seq<bool>)
    requires Sound(b) && |UsedBytes(b.inUse, 256)| > 0 && crc < 0x1_0000_0000 && |block| <= 0x100_0000
    requires SortsRotations(block, p) && origPtr < |block| && p[origPtr] == 0
    requires Column(UsedBytes(b.inUse, 256), b.values[..|b.values| - 1]) == LastColumn(block, p)
    ensures ReadBlock(BlockBits(crc, origPtr, b) + rest) == Some(((crc, block), rest))
  {
    Regroup(HeadBits(crc, origPtr), BodyBits(b), rest);
    ReadsHead(crc, origPtr, BodyBits(b) + rest);
    ReadsBody(b, rest);
    DecodeInvertsSort(block, p, origPtr);
  }
}
