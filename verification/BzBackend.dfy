/** `sendMTFValues` as a whole, and the back end of `BZ2_compressBlock` for one block. */
module BzBackend {
  import opened Powers
  import opened Bytes
  import opened PrefixCode
  import opened Rotation
  import opened Bwt
  import opened MtfDecoder
  import opened MsbWriter
  import opened BitStrings
  import opened BzFormat
  import opened BzBlock
  import opened BzTables
  import opened FirstTables
  import opened BzSend
  import opened BzSize
  import M = Mtf
  import FS = FallbackSort

  // ----- the selectors as places in a list -----

  /** Moves `ll` from its place `j`, possibly the front, to the front. */
  method SelectorToFront(pos: array<int>, ll: int, ghost n: nat) returns (j: nat)
    requires n <= pos.Length && ll in pos[..n]
    modifies pos
    ensures j < n && old(pos[j]) == ll && pos[..n] == ToFront(old(pos[..n]), j)
  {
    ghost var list: seq<int> := pos[..];
    ghost var p := M.PlaceOf(pos[..n], ll);
    assert list[p] == ll;
    j := 0;
    var tmp := pos[0];
    assert pos[..] == M.ShiftedBack(list, 0);
    while ll != tmp
      invariant 0 <= j <= p && tmp == list[j] && pos[..] == M.ShiftedBack(list, j)
      decreases p - j
    {
      ghost var was := pos[..];
      M.ShiftedMore(list, j);
      j := j + 1;
      var tmp2 := tmp;
      tmp := pos[j];
      pos[j] := tmp2;
      assert pos[..] == was[j := list[j - 1]];
    }
    pos[0] := tmp;
    M.FrontFilled(list, pos[..], n, j);
  }

  ghost predicate PlacesOf(places: seq<nat>, selectors: seq<int>, list: seq<int>, nGroups: nat) {
    IsPerm(list, nGroups) && Selected(places, Identity(nGroups)) == Some((selectors, list))
  }

  lemma PlaceAdded(places: seq<nat>, selectors: seq<int>, list: seq<int>, nGroups: nat, j: nat)
    requires PlacesOf(places, selectors, list, nGroups) && j < nGroups
    ensures PlacesOf(places + [j], selectors + [list[j]], ToFront(list, j), nGroups)
  {
    SelectedMore(places, Identity(nGroups), j);
    M.ToFrontPerm(list, j, nGroups);
  }

  /** The place of one more selector. */
  method NextPlace(pos: array<int>, sel: int, nGroups: nat, ghost places: seq<nat>, ghost selectors: seq<int>)
    returns (j: nat)
    requires nGroups <= pos.Length && 0 <= sel < nGroups && PlacesOf(places, selectors, pos[..nGroups], nGroups)
    modifies pos
    ensures PlacesOf(places + [j], selectors + [sel], pos[..nGroups], nGroups)
  {
    ghost var list: seq<int> := pos[..nGroups];
    Counting.PermHits(list, nGroups, sel);
    j := SelectorToFront(pos, sel, nGroups);
    PlaceAdded(places, selectors, list, nGroups, j);
    assert list[j] == sel;
  }

  method SelectorPlaces(selectors: seq<int>, nGroups: nat) returns (places: seq<nat>)
    requires nGroups <= MAX_GROUPS && forall g :: 0 <= g < |selectors| ==> 0 <= selectors[g] < nGroups
    ensures Selected(places, Identity(nGroups)).Some? && Selected(places, Identity(nGroups)).value.0 == selectors
  {
    var pos := new int[MAX_GROUPS];
    for i := 0 to nGroups
      invariant forall k :: 0 <= k < i ==> pos[k] == k
    {
      pos[i] := i;
    }
    assert pos[..nGroups] == Identity(nGroups) && selectors[..0] == [];
    places := [];
    for i := 0 to |selectors|
      invariant PlacesOf(places, selectors[..i], pos[..nGroups], nGroups)
    {
      var j := NextPlace(pos, selectors[i], nGroups, places, selectors[..i]);
      assert selectors[..i + 1] == selectors[..i] + [selectors[i]];
      places := places + [j];
    }
    assert selectors[..|selectors|] == selectors;
  }

  // ----- one block's values -----

  lemma GoodAreTables(tables: seq<seq<nat>>, n: nat)
    requires GoodTables(tables, n) && n > 0
    ensures AreTables(tables, n)
  {
    forall t | 0 <= t < |tables|
      ensures IsTable(tables[t], n)
    {
      assert GoodTable(tables[t], n);
    }
  }

  /** `sendMTFValues`, whatever tables its improvement rounds start from. */
  method SendMTFValues(w: BitWriter, inUse: array<bool>, nInUse: nat, values: seq<int>, tables0: seq<seq<nat>>)
    returns (ghost b: Body)
    requires w.Valid() && inUse.Length == 256 && nInUse == |UsedBytes(inUse[..], 256)|
    requires InAlphabet(values, nInUse + 2) && EndsOnce(values, nInUse + 1) && |values| <= 900_000
    requires |tables0| == GroupsFor(|values|) && Shaped(tables0, nInUse + 2)
    modifies w
    ensures w.Valid() && old(w.out) <= w.out
    ensures Sound(b) && b.inUse == inUse[..] && b.values == values
    ensures Improved(values, nInUse + 2, tables0, b.selectors, b.tables)
    ensures w.stream == old(w.stream) + BodyBits(b)
  {
    var n := nInUse + 2;
    var nGroups := GroupsFor(|values|);
    var selectors, tables := Improve(values, tables0, n);
    var places := SelectorPlaces(selectors, nGroups);
    var codes := MakeAllCodes(tables, n);
    b := Body(inUse[..], nGroups, places, selectors, tables, values);
    GoodAreTables(tables, n);
    AllSendable(values, tables, selectors, n);
    SendMap(w, inUse);
    SendSelectors(w, nGroups, places);
    SendTables(w, tables, n);
    SendData(w, values, tables, codes, selectors, n);
    BodyParts(old(w.stream), b);
  }

  lemma BodyParts(s: seq<bool>, b: Body)
    requires Sound(b)
    ensures s + MapBits(b.inUse) + SelectorBits(b) + Flat(TableParts(b.tables, |UsedBytes(b.inUse, 256)| + 2))
              + Flat(DataParts(b.values, b.tables, b.selectors, TOP)) == s + BodyBits(b)
  {
    RegroupFive(s, MapBits(b.inUse), SelectorBits(b), Flat(TableParts(b.tables, |UsedBytes(b.inUse, 256)| + 2)),
                Flat(DataParts(b.values, b.tables, b.selectors, TOP)));
  }

  // ----- one block -----

  /** Sorts the rotations of the block and finds the unrotated one. */
  method SortBlock(block: array<int>, nblock: nat) returns (data: array<int>, fmap: array<int>, origPtr: nat)
    requires 0 < nblock <= block.Length && nblock <= 900_000 && IsBytes(block[..nblock])
    ensures fresh(data) && fresh(fmap) && data != fmap && data[..] == block[..nblock]
    ensures SortsRotations(data[..], fmap[..]) && origPtr < nblock == fmap.Length == data.Length && fmap[origPtr] == 0
  {
    data := new int[nblock](i requires 0 <= i < nblock reads block => block[i]);
    ghost var s: seq<int> := block[..nblock];
    assert data[..] == s;
    fmap := new int[nblock];
    var eclass, bhtab := new int[nblock], new bool[nblock + 64];
    FS.Sort(data, fmap, eclass, bhtab);
    origPtr := FS.FindOrigin(fmap);
  }

  /** The pointers as the 16-bit halves that `mtfv` overlays. */
  method HalvesOf(ptr: array<int>, big: bool) returns (halves: array<int>)
    requires forall i :: 0 <= i < ptr.Length ==> 0 <= ptr[i] < 0x1_0000_0000
    ensures fresh(halves) && halves.Length == 2 * ptr.Length && M.HoldsFrom(halves[..], ptr[..], big, 0)
  {
    halves := new int[2 * ptr.Length];
    for i := 0 to ptr.Length
      invariant forall k :: 0 <= k < i ==> M.Word(halves[..], k, big) == ptr[k]
    {
      var lo, hi := ptr[i] % 65536, ptr[i] / 65536;
      halves[2 * i], halves[2 * i + 1] := if big then hi else lo, if big then lo else hi;
    }
  }

  /** The bits read back as a block with this CRC, whatever follows. */
  ghost predicate ReadsAs(bits: seq<bool>, crc: nat, bytes: seq<int>) {
    forall rest :: ReadBlock(bits + rest) == Some(((crc, bytes), rest))
  }

  lemma BlockReads(crc: nat, origPtr: nat, b: Body, bytes: seq<int>, p: seq<int>)
    requires Sound(b) && |UsedBytes(b.inUse, 256)| > 0 && crc < 0x1_0000_0000 && |bytes| <= 0x100_0000
    requires SortsRotations(bytes, p) && origPtr < |bytes| && p[origPtr] == 0
    requires Column(UsedBytes(b.inUse, 256), b.values[..|b.values| - 1]) == LastColumn(bytes, p)
    ensures ReadsAs(BlockBits(crc, origPtr, b), crc, bytes)
  {
    forall rest
      ensures ReadBlock(BlockBits(crc, origPtr, b) + rest) == Some(((crc, bytes), rest))
    {
      ReadsBlock(crc, origPtr, b, bytes, p, rest);
    }
  }

  lemma SomeValue(used: seq<int>, values: seq<int>)
    requires |used| > 0 && Column(used, values) != []
    ensures values != []
  {
    assert Column(used, []) == [];
  }

  method FirstFor(mtfFreq: array<int>, values: seq<int>, n: nat) returns (tables0: seq<seq<nat>>)
    requires mtfFreq.Length == 258 && 1 <= n <= 258 && M.Counts(mtfFreq[..], values, n - 1) && |values| >= 2
    ensures |tables0| == GroupsFor(|values|) && Shaped(tables0, n) && SharedOut(FreqOf(values, n), |values|, tables0)
  {
    assert mtfFreq[..n] == FreqOf(values, n);
    FreqTotal(values, n);
    tables0 := MakeFirst(mtfFreq, |values|, n);
  }

  /** The values of a block: they stand for the last column of its sort. */
  method BlockValues(data: array<int>, fmap: array<int>, inUse: array<bool>, big: bool)
    returns (nInUse: nat, values: seq<int>, tables0: seq<seq<nat>>)
    requires 0 < data.Length == fmap.Length <= 899_999 && SortsRotations(data[..], fmap[..])
    requires inUse.Length == 256 && M.AllUsed(data[..], inUse[..])
    ensures nInUse == |UsedBytes(inUse[..], 256)| > 0 && nInUse <= 256 && |values| <= data.Length + 1
    ensures InAlphabet(values, nInUse + 2) && EndsOnce(values, nInUse + 1)
    ensures Column(UsedBytes(inUse[..], 256), values[..|values| - 1]) == LastColumn(data[..], fmap[..])
    ensures |tables0| == GroupsFor(|values|) && Shaped(tables0, nInUse + 2)
    ensures SharedOut(FreqOf(values, nInUse + 2), |values|, tables0)
  {
    var halves := HalvesOf(fmap, big);
    var unseqToSeq, mtfFreq := new int[256], new int[258];
    ghost var s: seq<int>, p: seq<int> := data[..], fmap[..];
    var nMTF;
    nInUse, nMTF := M.GenerateMTFValues(halves, data, inUse, unseqToSeq, mtfFreq, big, p);
    values := halves[..nMTF];
    SomeValue(UsedBytes(inUse[..], 256), values[..|values| - 1]);
    tables0 := FirstFor(mtfFreq, values, nInUse + 2);
  }

  method SendHead(w: BitWriter, crc: nat, origPtr: nat)
    requires w.Valid() && crc < 0x1_0000_0000 && origPtr < 0x100_0000
    modifies w
    ensures w.Valid() && old(w.out) <= w.out && w.stream == old(w.stream) + HeadBits(crc, origPtr)
  {
    Pow2Values();
    Pow2Add(8, 16);
    w.Write32(crc);
    w.WriteZero();
    w.Write(24, origPtr);
    RegroupFour(old(w.stream), Bits(crc, 32), [false], Bits(origPtr, 24));
  }

  /** The tables came from the shares of the values in four rounds. */
  ghost predicate TablesFrom(b: Body, n: nat, tables0: seq<seq<nat>>) {
    && |tables0| == GroupsFor(|b.values|) && SharedOut(FreqOf(b.values, n), |b.values|, tables0)
    && Improved(b.values, n, tables0, b.selectors, b.tables)
  }

  /** The block's head and body, with such tables. */
  ghost predicate CodedFrom(bits: seq<bool>, crc: nat, origPtr: nat, inUse: seq<bool>, b: Body,
                            tables0: seq<seq<nat>>) {
    && Sound(b) && b.inUse == inUse && bits == BlockBits(crc, origPtr, b)
    && TablesFrom(b, |UsedBytes(inUse, 256)| + 2, tables0)
  }

  ghost predicate Coded(bits: seq<bool>, crc: nat, origPtr: nat, inUse: seq<bool>) {
    exists b: Body, tables0: seq<seq<nat>> :: CodedFrom(bits, crc, origPtr, inUse, b, tables0)
  }

  lemma IsCoded(bits: seq<bool>, crc: nat, origPtr: nat, inUse: seq<bool>, b: Body, tables0: seq<seq<nat>>)
    requires CodedFrom(bits, crc, origPtr, inUse, b, tables0)
    ensures Coded(bits, crc, origPtr, inUse)
  {
  }

  /** The body, after the head. */
  method SendValues(w: BitWriter, data: array<int>, fmap: array<int>, inUse: array<bool>, big: bool)
    returns (ghost b: Body, ghost tables0: seq<seq<nat>>)
    requires w.Valid() && 0 < data.Length == fmap.Length <= 899_999 && SortsRotations(data[..], fmap[..])
    requires inUse.Length == 256 && M.AllUsed(data[..], inUse[..])
    modifies w
    ensures w.Valid() && old(w.out) <= w.out && Sound(b) && w.stream == old(w.stream) + BodyBits(b)
    ensures b.inUse == inUse[..] && 0 < |UsedBytes(inUse[..], 256)| <= 256 && |b.values| <= data.Length + 1
    ensures Column(UsedBytes(inUse[..], 256), b.values[..|b.values| - 1]) == LastColumn(data[..], fmap[..])
    ensures TablesFrom(b, |UsedBytes(inUse[..], 256)| + 2, tables0)
  {
    var nInUse, values, first := BlockValues(data, fmap, inUse, big);
    tables0 := first;
    b := SendMTFValues(w, inUse, nInUse, values, first);
  }

  /** A block's bits after its magic number. */
  method SendBody(w: BitWriter, data: array<int>, fmap: array<int>, origPtr: nat, inUse: array<bool>, crc: nat,
                  big: bool)
    returns (ghost bits: seq<bool>)
    requires w.Valid() && 0 < data.Length == fmap.Length <= 899_999 && SortsRotations(data[..], fmap[..])
    requires origPtr < data.Length && fmap[origPtr] == 0
    requires inUse.Length == 256 && M.AllUsed(data[..], inUse[..]) && crc < 0x1_0000_0000
    modifies w
    ensures w.Valid() && old(w.out) <= w.out && w.stream == old(w.stream) + bits && ReadsAs(bits, crc, data[..])
    ensures |bits| <= MostBits(data.Length) && Coded(bits, crc, origPtr, inUse[..])
  {
    SendHead(w, crc, origPtr);
    ghost var b, tables0 := SendValues(w, data, fmap, inUse, big);
    bits := BlockBits(crc, origPtr, b);
    IsCoded(bits, crc, origPtr, inUse[..], b, tables0);
    BlockReads(crc, origPtr, b, data[..], fmap[..]);
    BlockSize(crc, origPtr, b, data.Length);
    Regroup(old(w.stream), HeadBits(crc, origPtr), BodyBits(b));
  }
}
