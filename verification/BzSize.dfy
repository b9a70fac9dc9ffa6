/** How many bits a block can take at the most. `BZ2_compressBlock` writes it behind the block itself, into what that
    leaves of `arr2`. */
module BzSize {
  import opened Arith
  import opened PrefixCode
  import opened MtfDecoder
  import opened Rotation
  import opened BitStrings
  import opened BzFormat
  import opened BzBlock

  lemma {:induction false} FlatAtMost(parts: seq<seq<bool>>, n: nat)
    requires forall i :: 0 <= i < |parts| ==> |parts[i]| <= n
    ensures |Flat(parts)| <= n * |parts|
  {
    if parts != [] {
      FlatAtMost(parts[1..], n);
      Distribute(|parts| - 1, 1, n);
    }
  }

  lemma MapSize(inUse: seq<bool>)
    requires |inUse| == 256
    ensures |MapBits(inUse)| <= 272
  {
    FlatAtMost(RowParts(inUse), 16);
  }

  /** Places are places in the list. */
  lemma {:induction false} PlacesSmall(places: seq<nat>, list: seq<int>)
    requires Selected(places, list).Some?
    ensures forall i :: 0 <= i < |places| ==> places[i] < |list|
    decreases |places|
  {
    if places != [] {
      var less := places[..|places| - 1];
      PlacesSmall(less, list);
      assert forall i :: 0 <= i < |less| ==> places[i] == less[i];
    }
  }

  lemma SelectorSize(b: Body)
    requires Sound(b)
    ensures |SelectorBits(b)| <= 18 + 6 * |b.places|
  {
    PlacesSmall(b.places, Identity(b.nGroups));
    FlatAtMost(UnaryParts(b.places), 6);
  }

  lemma {:induction false} DeltaSize(curr: nat, target: nat)
    requires AllowedLen(curr) && AllowedLen(target)
    ensures |DeltaBits(curr, target)| <= 39
    ensures |DeltaBits(curr, target)| == 1 + 2 * if curr < target then target - curr else curr - target
    decreases if curr < target then target - curr else curr - target
  {
    if curr < target {
      DeltaSize(curr + 1, target);
    } else if curr > target {
      DeltaSize(curr - 1, target);
    }
  }

  lemma TableSize(lens: seq<nat>, n: nat)
    requires IsTable(lens, n) && 0 < n <= 258
    ensures |TableBits(lens)| <= 5 + 39 * 258
  {
    var parts := DeltaParts(lens);
    forall i | 0 <= i < |parts|
      ensures |parts[i]| <= 39
    {
      DeltaSize(Prior(lens, i), lens[i]);
    }
    FlatAtMost(parts, 39);
  }

  lemma TablesSize(tables: seq<seq<nat>>, n: nat)
    requires AreTables(tables, n) && 0 < n <= 258 && |tables| <= 6
    ensures |Flat(TableParts(tables, n))| <= 6 * (5 + 39 * 258)
  {
    var parts := TableParts(tables, n);
    forall t | 0 <= t < |parts|
      ensures |parts[t]| <= 5 + 39 * 258
    {
      assert IsTable(tables[t], n);
      TableSize(tables[t], n);
    }
    FlatAtMost(parts, 5 + 39 * 258);
  }

  lemma DataSize(values: seq<int>, tables: seq<seq<nat>>, selectors: seq<int>, top: nat)
    requires Sendable(values, tables, selectors, top)
    ensures |Flat(DataParts(values, tables, selectors, top))| <= top * |values|
  {
    var parts := DataParts(values, tables, selectors, top);
    forall k | 0 <= k < |parts|
      ensures |parts[k]| <= top
    {
      assert SendableAt(values, tables, selectors, top, k);
    }
    FlatAtMost(parts, top);
  }

  /** What a block of that many bytes takes, without its magic number. */
  function MostBits(nblock: nat): (r: nat) { 257_500 + 17 * nblock }

  /** At most 17 bits for every value, six for every selector, and six tables. */
  lemma BlockSize(crc: nat, origPtr: nat, b: Body, nblock: nat)
    requires Sound(b) && |UsedBytes(b.inUse, 256)| <= 256 && |b.values| <= nblock + 1
    ensures |BlockBits(crc, origPtr, b)| <= MostBits(nblock)
  {
    MapSize(b.inUse);
    SelectorSize(b);
    TablesSize(b.tables, |UsedBytes(b.inUse, 256)| + 2);
    DataSize(b.values, b.tables, b.selectors, TOP);
  }

  /** The bytes that `arr2` has beside the block. */
  function Room(level: nat, nblock: nat): (r: int) { 4 * (100_000 * level + 34) - nblock }

  /** With the bits waiting before it, the header, the trailer and the last byte filled up, a block fits there. */
  lemma BlockFits(level: nat, nblock: nat, bytes: nat)
    requires 1 <= level && nblock <= 100_000 * level - 10 && 8 * bytes <= 31 + 32 + 48 + MostBits(nblock) + 80 + 7
    ensures bytes <= Room(level, nblock)
  {
  }
}
