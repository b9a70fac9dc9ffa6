/** The transmitting half of `sendMTFValues`: every method appends to the stream exactly
    the bits the format describes. */
module BzSend {
  import opened Powers
  import opened PrefixCode
  import opened BitOps
  import opened BitStrings
  import opened MsbWriter
  import opened BzFormat
  import opened BzTables

  // ----- the bytes in use -----

  lemma FlagAdded(x: nat, n: nat, f: bool, flags: seq<bool>)
    requires x < Pow2(n) && Bits(x, n) == flags
    ensures var x' := 2 * x + (if f then 1 else 0); x' < Pow2(n + 1) && Bits(x', n + 1) == flags + [f]
  {
    var x' := 2 * x + if f then 1 else 0;
    assert x' / 2 == x;
  }

  /** The number whose bits are the first `j` flags. */
  ghost predicate Packed(v: nat, flags: seq<bool>, j: nat) {
    j <= |flags| && v < Pow2(j) && Bits(v, j) == flags[..j]
  }

  lemma PackedMore(v: nat, flags: seq<bool>, j: nat)
    requires Packed(v, flags, j) && j < |flags|
    ensures Packed(2 * v + if flags[j] then 1 else 0, flags, j + 1)
  {
    FlagAdded(v, j, flags[j], flags[..j]);
    assert flags[..j + 1] == flags[..j] + [flags[j]];
  }

  lemma PackedAll(v: nat, flags: seq<bool>)
    requires Packed(v, flags, 16) && |flags| == 16
    ensures v < 0x1_0000 && Bits(v, 16) == flags
  {
    Pow2Values();
    assert flags[..16] == flags;
  }

  /** Sixteen flags as a number. */
  method PackRow(inUse: array<bool>, i: nat) returns (v16: nat)
    requires inUse.Length == 256 && i < 16
    ensures v16 < 0x1_0000 && Bits(v16, 16) == Row(inUse[..], i)
  {
    ghost var flags: seq<bool> := Row(inUse[..], i);
    v16 := 0;
    for j := 0 to 16
      invariant Packed(v16, flags, j)
    {
      PackedMore(v16, flags, j);
      assert flags[j] == inUse[16 * i + j];
      v16 := 2 * v16 + if inUse[16 * i + j] then 1 else 0;
    }
    PackedAll(v16, flags);
  }

  method AnyInRow(inUse: array<bool>, i: nat) returns (any: bool)
    requires inUse.Length == 256 && i < 16
    ensures any == RowUsed(inUse[..], i)
  {
    ghost var row: seq<bool> := Row(inUse[..], i);
    any := false;
    for j := 0 to 16
      invariant any <==> exists q :: 0 <= q < j && row[q]
    {
      assert row[j] == inUse[16 * i + j];
      any := any || inUse[16 * i + j];
    }
  }

  /** One bit for each row that has any byte in use. */
  method PackRowFlags(inUse: array<bool>) returns (inUse16: nat)
    requires inUse.Length == 256
    ensures inUse16 < 0x1_0000 && Bits(inUse16, 16) == RowFlags(inUse[..])
  {
    ghost var flags: seq<bool> := RowFlags(inUse[..]);
    inUse16 := 0;
    for i := 0 to 16
      invariant Packed(inUse16, flags, i)
    {
      var any := AnyInRow(inUse, i);
      PackedMore(inUse16, flags, i);
      inUse16 := inUse16 * 2 + if any then 1 else 0;
    }
    PackedAll(inUse16, flags);
  }

  /** The sign bit of a 32-bit word, and the next one shifted into its place. */
  lemma SignBit(x: nat)
    requires x < 0x1_0000_0000
    ensures (x >= 0x8000_0000) == Bits(x, 32)[0]
    ensures Bits(Shl(x, 1, 32), 32) == Bits(x, 32)[1..] + [false]
  {
    Pow2Values();
    TopBit(x, 31);
    BitsModulo(x * Pow2(1), 32, 32);
    BitsShifted(x, 31, 1);
    BitsSuffix(x, 1, 31);
    assert Zeros(1) == [false];
  }

  lemma TopBit(x: nat, n: nat)
    requires x < Pow2(n + 1)
    ensures Bits(x, n + 1)[0] == (x >= Pow2(n))
  {
    BitsPrefix(x, n + 1, 1);
    LeadingDigits(x, n + 1, 1);
    var q: nat := x / Pow2(n);
    assert Bits(x, n + 1)[0] == Bits(x, n + 1)[..1][0] == Bits(q, 1)[0];
    assert Pow2(1) == 2;
    HighOrNot(x, Pow2(n), q);
  }

  lemma HighOrNot(x: nat, d: nat, q: nat)
    requires d > 0 && q == x / d < 2
    ensures (q == 1) == (x >= d)
  {
  }

  method SendMap(w: BitWriter, inUse: array<bool>)
    requires w.Valid() && inUse.Length == 256
    modifies w
    ensures w.Valid() && w.stream == old(w.stream) + MapBits(inUse[..]) && old(w.out) <= w.out
  {
    ghost var use: seq<bool> := inUse[..];
    ghost var flags, parts := RowFlags(use), RowParts(use);
    var inUse16 := PackRowFlags(inUse);
    w.Write16(inUse16);
    ghost var s0 := w.stream;
    SignStart(inUse16);
    var x := Shl(inUse16, 16, 32);
    for i := 0 to 16
      invariant w.Valid() && inUse[..] == use && x < 0x1_0000_0000
      invariant Bits(x, 32)[..16 - i] == flags[i..]
      invariant w.stream == s0 + Flat(parts[..i]) && old(w.out) <= w.out
    {
      FlatMore(parts, i);
      SignNext(x, flags, i);
      Regroup(s0, Flat(parts[..i]), parts[i]);
      if x >= 0x8000_0000 {
        var v16 := PackRow(inUse, i);
        w.Write16(v16);
      }
      x := Shl(x, 1, 32);
    }
    assert parts[..16] == parts;
    Regroup(old(w.stream), flags, Flat(parts));
  }

  lemma SignStart(inUse16: nat)
    requires inUse16 < 0x1_0000
    ensures Shl(inUse16, 16, 32) < 0x1_0000_0000 && Bits(Shl(inUse16, 16, 32), 32)[..16] == Bits(inUse16, 16)
  {
    Pow2Values();
    BitsModulo(inUse16 * Pow2(16), 32, 32);
    BitsShifted(inUse16, 16, 16);
  }

  lemma SignNext(x: nat, flags: seq<bool>, i: nat)
    requires x < 0x1_0000_0000 && i < 16 == |flags| && Bits(x, 32)[..16 - i] == flags[i..]
    ensures (x >= 0x8000_0000) == flags[i]
    ensures Shl(x, 1, 32) < 0x1_0000_0000 && Bits(Shl(x, 1, 32), 32)[..16 - (i + 1)] == flags[i + 1..]
  {
    SignBit(x);
    Pow2Values();
    ShiftedPrefix(Bits(x, 32), Bits(Shl(x, 1, 32), 32), flags, i);
  }

  lemma ShiftedPrefix(a: seq<bool>, b: seq<bool>, flags: seq<bool>, i: nat)
    requires |a| == |b| == 32 && i < 16 == |flags| && a[..16 - i] == flags[i..] && b == a[1..] + [false]
    ensures a[0] == flags[i] && b[..15 - i] == flags[i + 1..]
  {
    assert a[0] == a[..16 - i][0];
    assert b[..15 - i] == a[..16 - i][1..];
  }

  // ----- the selectors -----

  lemma OnesMore(j: nat)
    ensures Ones(j) + [true] == Ones(j + 1)
  {
  }

  method SendUnary(w: BitWriter, n: nat)
    requires w.Valid()
    modifies w
    ensures w.Valid() && w.stream == old(w.stream) + Unary(n) && old(w.out) <= w.out
  {
    for j := 0 to n
      invariant w.Valid() && w.stream == old(w.stream) + Ones(j) && old(w.out) <= w.out
    {
      OnesMore(j);
      w.WriteOne();
    }
    w.WriteZero();
  }

  method SendPlaces(w: BitWriter, places: seq<nat>)
    requires w.Valid()
    modifies w
    ensures w.Valid() && w.stream == old(w.stream) + Flat(UnaryParts(places)) && old(w.out) <= w.out
  {
    ghost var s0, parts := w.stream, UnaryParts(places);
    for i := 0 to |places|
      invariant w.Valid() && w.stream == s0 + Flat(parts[..i]) && old(w.out) <= w.out
    {
      FlatMore(parts, i);
      Regroup(s0, Flat(parts[..i]), parts[i]);
      SendUnary(w, places[i]);
    }
    assert parts[..|places|] == parts;
  }

  method SendSelectors(w: BitWriter, nGroups: nat, places: seq<nat>)
    requires w.Valid() && nGroups < 8 && |places| < 0x8000
    modifies w
    ensures w.Valid() && old(w.out) <= w.out
    ensures w.stream == old(w.stream) + (Bits(nGroups, 3) + Bits(|places|, 15) + Flat(UnaryParts(places)))
  {
    Pow2Values();
    w.Write(3, nGroups);
    w.Write(15, |places|);
    SendPlaces(w, places);
    RegroupFour(old(w.stream), Bits(nGroups, 3), Bits(|places|, 15), Flat(UnaryParts(places)));
  }

  // ----- the tables -----

  lemma TwoBits()
    ensures Pow2(2) == 4 && Bits(2, 2) == [true, false] && Bits(3, 2) == [true, true]
  {
  }

  method SendTwo(w: BitWriter, down: bool)
    requires w.Valid()
    modifies w
    ensures w.Valid() && w.stream == old(w.stream) + [true, down] && old(w.out) <= w.out
  {
    TwoBits();
    w.Write(2, if down then 3 else 2);
  }

  lemma DeltaStep(s: seq<bool>, curr: nat, target: nat)
    requires curr != target
    ensures curr < target ==> s + [true, false] + DeltaBits(curr + 1, target) == s + DeltaBits(curr, target)
    ensures curr > target ==> s + [true, true] + DeltaBits(curr - 1, target) == s + DeltaBits(curr, target)
  {
    if curr < target {
      Regroup(s, [true, false], DeltaBits(curr + 1, target));
    } else {
      Regroup(s, [true, true], DeltaBits(curr - 1, target));
    }
  }

  method SendDelta(w: BitWriter, curr0: nat, target: nat) returns (curr: nat)
    requires w.Valid()
    modifies w
    ensures w.Valid() && w.stream == old(w.stream) + DeltaBits(curr0, target) && curr == target && old(w.out) <= w.out
  {
    curr := curr0;
    ghost var whole := w.stream + DeltaBits(curr0, target);
    while curr < target
      invariant w.Valid() && old(w.out) <= w.out
      invariant w.stream + DeltaBits(curr, target) == whole
    {
      DeltaStep(w.stream, curr, target);
      SendTwo(w, false);
      curr := curr + 1;
    }
    while curr > target
      invariant w.Valid() && old(w.out) <= w.out && curr >= target
      invariant w.stream + DeltaBits(curr, target) == whole
    {
      DeltaStep(w.stream, curr, target);
      SendTwo(w, true);
      curr := curr - 1;
    }
    w.WriteZero();
  }

  method SendTable(w: BitWriter, lens: seq<nat>)
    requires w.Valid() && |lens| > 0 && lens[0] < 32
    modifies w
    ensures w.Valid() && w.stream == old(w.stream) + TableBits(lens) && old(w.out) <= w.out
  {
    Pow2Values();
    var curr := lens[0];
    w.Write(5, curr);
    ghost var s0, parts := w.stream, DeltaParts(lens);
    for i := 0 to |lens|
      invariant w.Valid() && w.stream == s0 + Flat(parts[..i]) && old(w.out) <= w.out
      invariant i < |lens| ==> curr == Prior(lens, i)
    {
      FlatMore(parts, i);
      Regroup(s0, Flat(parts[..i]), parts[i]);
      curr := SendDelta(w, curr, lens[i]);
    }
    assert parts[..|lens|] == parts;
    Regroup(old(w.stream), Bits(lens[0], 5), Flat(parts));
  }

  method SendTables(w: BitWriter, tables: seq<seq<nat>>, n: nat)
    requires w.Valid() && AreTables(tables, n)
    modifies w
    ensures w.Valid() && w.stream == old(w.stream) + Flat(TableParts(tables, n)) && old(w.out) <= w.out
  {
    ghost var parts := TableParts(tables, n);
    for t := 0 to |tables|
      invariant w.Valid() && w.stream == old(w.stream) + Flat(parts[..t]) && old(w.out) <= w.out
    {
      FlatMore(parts, t);
      Regroup(old(w.stream), Flat(parts[..t]), parts[t]);
      assert IsTable(tables[t], n);
      SendTable(w, tables[t]);
    }
    assert parts[..|tables|] == parts;
  }

  // ----- the data -----

  ghost predicate Selects(selectors: seq<int>, nGroups: nat, n: nat) {
    && GROUP_SIZE * |selectors| >= n
    && forall g :: 0 <= g < |selectors| ==> 0 <= selectors[g] < nGroups
  }

  lemma AllSendable(values: seq<int>, tables: seq<seq<nat>>, selectors: seq<int>, n: nat)
    requires InAlphabet(values, n) && GoodTables(tables, n) && Selects(selectors, |tables|, |values|)
    ensures Sendable(values, tables, selectors, MAX_LEN)
  {
    forall k | 0 <= k < |values|
      ensures SendableAt(values, tables, selectors, MAX_LEN, k)
    {
      assert 0 <= selectors[k / GROUP_SIZE] < |tables|;
      assert GoodTable(tables[selectors[k / GROUP_SIZE]], n);
    }
  }

  /** One value with its group's table. */
  method SendValue(w: BitWriter, values: seq<int>, tables: seq<seq<nat>>, codes: seq<seq<nat>>, selectors: seq<int>,
                   k: nat, sel: nat, ghost n: nat)
    requires w.Valid() && Sendable(values, tables, selectors, MAX_LEN) && AllCodes(codes, tables)
    requires GoodTables(tables, n)
    requires k < |values| && sel == k / GROUP_SIZE && sel < |selectors| && 0 <= selectors[sel] < |tables|
    modifies w
    ensures w.Valid() && old(w.out) <= w.out
    ensures w.stream == old(w.stream) + DataParts(values, tables, selectors, MAX_LEN)[k]
  {
    assert SendableAt(values, tables, selectors, MAX_LEN, k);
    var t := selectors[sel];
    assert GoodTable(tables[t], n) && CodesOf(codes[t], tables[t]);
    CodeFits(tables[t], MAX_LEN, values[k]);
    w.Write(tables[t][values[k]], codes[t][values[k]]);
  }

  /** One value more. */
  method SendNext(w: BitWriter, values: seq<int>, tables: seq<seq<nat>>, codes: seq<seq<nat>>, selectors: seq<int>,
                  sel: nat, k: nat, ghost n: nat, ghost s0: seq<bool>)
    requires w.Valid() && Sendable(values, tables, selectors, MAX_LEN) && AllCodes(codes, tables)
    requires GoodTables(tables, n)
    requires k < |values| && sel == k / GROUP_SIZE && sel < |selectors| && 0 <= selectors[sel] < |tables|
    requires w.stream == s0 + Flat(DataParts(values, tables, selectors, MAX_LEN)[..k])
    modifies w
    ensures w.Valid() && old(w.out) <= w.out
    ensures w.stream == s0 + Flat(DataParts(values, tables, selectors, MAX_LEN)[..k + 1])
  {
    ghost var parts := DataParts(values, tables, selectors, MAX_LEN);
    FlatMore(parts, k);
    Regroup(s0, Flat(parts[..k]), parts[k]);
    SendValue(w, values, tables, codes, selectors, k, sel, n);
  }

  /** Up to fifty values with one table. */
  method SendGroup(w: BitWriter, values: seq<int>, tables: seq<seq<nat>>, codes: seq<seq<nat>>, selectors: seq<int>,
                   sel: nat,
                   gs: nat, ge: nat, ghost n: nat, ghost s0: seq<bool>)
    requires w.Valid() && Sendable(values, tables, selectors, MAX_LEN) && AllCodes(codes, tables)
    requires GoodTables(tables, n)
    requires gs == GROUP_SIZE * sel && gs <= ge < |values| && ge < gs + GROUP_SIZE && sel < |selectors|
    requires 0 <= selectors[sel] < |tables|
    requires w.stream == s0 + Flat(DataParts(values, tables, selectors, MAX_LEN)[..gs])
    modifies w
    ensures w.Valid() && old(w.out) <= w.out
    ensures w.stream == s0 + Flat(DataParts(values, tables, selectors, MAX_LEN)[..ge + 1])
  {
    for k := gs to ge + 1
      invariant w.Valid() && old(w.out) <= w.out
      invariant w.stream == s0 + Flat(DataParts(values, tables, selectors, MAX_LEN)[..k])
    {
      SendNext(w, values, tables, codes, selectors, sel, k, n, s0);
    }
  }

  method SendData(w: BitWriter, values: seq<int>, tables: seq<seq<nat>>, codes: seq<seq<nat>>, selectors: seq<int>,
                  ghost n: nat)
    requires w.Valid() && Sendable(values, tables, selectors, MAX_LEN) && AllCodes(codes, tables)
    requires GoodTables(tables, n)
    requires Selects(selectors, |tables|, |values|)
    modifies w
    ensures w.Valid() && old(w.out) <= w.out
    ensures w.stream == old(w.stream) + Flat(DataParts(values, tables, selectors, MAX_LEN))
  {
    ghost var s0, parts := w.stream, DataParts(values, tables, selectors, MAX_LEN);
    assert parts[..0] == [] && Flat([]) == [];
    var selCtr, gs := 0, 0;
    while gs < |values|
      invariant 0 <= gs <= |values| && 0 <= selCtr && w.Valid() && old(w.out) <= w.out
      invariant gs == if GROUP_SIZE * selCtr < |values| then GROUP_SIZE * selCtr else |values|
      invariant w.stream == s0 + Flat(parts[..gs])
    {
      var ge := gs + GROUP_SIZE - 1;
      if ge >= |values| {
        ge := |values| - 1;
      }
      SendGroup(w, values, tables, codes, selectors, selCtr, gs, ge, n, s0);
      gs := ge + 1;
      selCtr := selCtr + 1;
    }
    assert parts[..|values|] == parts;
  }
}
