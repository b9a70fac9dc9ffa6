/** The tables `ct_init` builds for match lengths and distances, against those of section 3.2.5 of RFC 1951. */
module LengthTables {
  import opened Powers
  import opened DeflateFormat

  lemma {:induction false} LMono(a: nat, b: nat)
    requires a <= b <= 28
    ensures LengthsBefore(a) <= LengthsBefore(b)
    decreases b
  {
    if a < b {
      LMono(a, b - 1);
    }
  }

  lemma {:induction false} DMono(a: nat, b: nat)
    requires a <= b <= 30
    ensures DistsBefore(a) <= DistsBefore(b)
    decreases b
  {
    if a < b {
      DMono(a, b - 1);
    }
  }

  // ----- lengths -----

  /** Code `c` covers match length `lc` + 3. */
  ghost predicate LCovers(c: nat, lc: int) {
    c < 28 && LengthsBefore(c) <= lc < LengthsBefore(c + 1)
  }

  /** The tables for the first `length` match lengths and the first `code` codes. */
  ghost predicate LengthsTo(baseLength: seq<nat>, lengthCode: seq<nat>, code: nat, length: nat) {
    && |baseLength| == 29 && |lengthCode| == 256 && code <= 28 && length <= 256
    && (forall c :: 0 <= c < code ==> baseLength[c] == LengthsBefore(c))
    && (forall k :: 0 <= k < length ==> LCovers(lengthCode[k], k))
  }

  /** One length code: its base, and itself for every length it covers. */
  method InitLengthCode(baseLength: array<nat>, lengthCode: array<nat>, code: nat, length0: nat) returns (length: nat)
    requires baseLength != lengthCode && code < 28 && length0 == LengthsBefore(code)
    requires LengthsTo(baseLength[..], lengthCode[..], code, length0)
    modifies baseLength, lengthCode
    ensures length == LengthsBefore(code + 1) && LengthsTo(baseLength[..], lengthCode[..], code + 1, length)
  {
    LengthValues28();
    LMono(code + 1, 28);
    length := length0;
    baseLength[code] := length;
    var n := 0;
    while n < Pow2(LengthExtra(code))
      invariant 0 <= n <= Pow2(LengthExtra(code)) && length == LengthsBefore(code) + n
      invariant LengthsTo(baseLength[..], lengthCode[..], code + 1, length)
    {
      lengthCode[length] := code;
      length := length + 1;
      n := n + 1;
    }
  }

  /** Every match length with its code; the longest has a code of its own. */
  ghost predicate LengthTable(baseLength: seq<nat>, lengthCode: seq<nat>) {
    && |baseLength| == 29 && |lengthCode| == 256 && lengthCode[255] == 28
    && (forall c :: 0 <= c < 28 ==> baseLength[c] == LengthsBefore(c))
    && (forall k :: 0 <= k < 255 ==> LCovers(lengthCode[k], k))
  }

  method InitLengths(baseLength: array<nat>, lengthCode: array<nat>)
    requires baseLength != lengthCode && baseLength.Length == 29 && lengthCode.Length == 256
    modifies baseLength, lengthCode
    ensures LengthTable(baseLength[..], lengthCode[..])
  {
    var length, code := 0, 0;
    while code < 29 - 1
      invariant 0 <= code <= 28 && length == LengthsBefore(code)
      invariant LengthsTo(baseLength[..], lengthCode[..], code, length)
    {
      length := InitLengthCode(baseLength, lengthCode, code, length);
      code := code + 1;
    }
    LengthValues28();
    lengthCode[length - 1] := code;
  }

  /** The value of a match length's extra bits. */
  function LengthRest(baseLength: seq<nat>, lengthCode: seq<nat>, lc: nat): (r: int)
    requires |baseLength| == 29 && |lengthCode| == 256 && lc < 256 && lengthCode[lc] < 29
  {
    if LengthExtra(lengthCode[lc]) != 0 then lc - baseLength[lengthCode[lc]] else 0
  }

  /** The tables express every match length. */
  lemma LengthTableRight(baseLength: seq<nat>, lengthCode: seq<nat>, lc: nat)
    requires LengthTable(baseLength, lengthCode) && lc < 256
    ensures lengthCode[lc] < 29 && LengthRest(baseLength, lengthCode, lc) >= 0
    ensures LengthOf(lengthCode[lc], LengthRest(baseLength, lengthCode, lc), lc + 3)
  {
    var c := lengthCode[lc];
    if lc < 255 {
      assert LCovers(c, lc);
      assert Pow2(0) == 1;
    } else {
      assert Pow2(0) == 1;
    }
  }

  // ----- distances -----

  ghost predicate DCovers(c: nat, lo: int, hi: int) {
    c < 30 && DistsBefore(c) <= lo <= hi < DistsBefore(c + 1)
  }

  /** Codes below 16 by distance, the others by distance over 128. */
  ghost predicate DistsTo(baseDist: seq<nat>, distCode: seq<nat>, code: nat, near: nat, far: nat) {
    && |baseDist| == 30 && |distCode| == 512 && code <= 30 && near <= 256 && far <= 256
    && (forall c :: 0 <= c < code ==> baseDist[c] == DistsBefore(c))
    && (forall k :: 0 <= k < near ==> DCovers(distCode[k], k, k))
    && (forall k :: 2 <= k < far ==> FarCovers(distCode, k))
  }

  ghost predicate FarCovers(distCode: seq<nat>, k: nat) {
    256 + k < |distCode| && DCovers(distCode[256 + k], 128 * k, 128 * k + 127)
  }

  lemma FarStep(baseDist: seq<nat>, distCode: seq<nat>, code: nat, far: nat, c: nat)
    requires DistsTo(baseDist, distCode, code, 256, far) && 2 <= far < 256 && DCovers(c, 128 * far, 128 * far + 127)
    ensures DistsTo(baseDist, distCode[256 + far := c], code, 256, far + 1)
  {
    var distCode' := distCode[256 + far := c];
    forall k | 2 <= k < far + 1
      ensures FarCovers(distCode', k)
    {
      assert k < far ==> FarCovers(distCode, k);
    }
  }

  lemma BaseSet(baseDist: seq<nat>, distCode: seq<nat>, code: nat, near: nat, far: nat)
    requires DistsTo(baseDist, distCode, code, near, far) && code < 30
    ensures DistsTo(baseDist[code := DistsBefore(code)], distCode, code + 1, near, far)
  {
  }

  method InitNearCode(baseDist: array<nat>, distCode: array<nat>, code: nat, dist0: nat) returns (dist: nat)
    requires baseDist != distCode && code < 16 && dist0 == DistsBefore(code)
    requires DistsTo(baseDist[..], distCode[..], code, dist0, 2)
    modifies baseDist, distCode
    ensures dist == DistsBefore(code + 1) && DistsTo(baseDist[..], distCode[..], code + 1, dist, 2)
  {
    DistValues16();
    DistValues30();
    DMono(code + 1, 16);
    dist := dist0;
    baseDist[code] := dist;
    var n := 0;
    while n < Pow2(DistExtra(code))
      invariant 0 <= n <= Pow2(DistExtra(code)) && dist == DistsBefore(code) + n
      invariant DistsTo(baseDist[..], distCode[..], code + 1, dist, 2)
    {
      distCode[dist] := code;
      dist := dist + 1;
      n := n + 1;
    }
  }

  lemma FarExtra(code: nat)
    requires 16 <= code < 30
    ensures 7 <= DistExtra(code) <= 13 && Pow2(DistExtra(code)) == 128 * Pow2(DistExtra(code) - 7)
  {
    Pow2Values();
    Pow2Add(7, DistExtra(code) - 7);
  }

  method InitFarCode(baseDist: array<nat>, distCode: array<nat>, code: nat, dist0: nat) returns (dist: nat)
    requires baseDist != distCode && 16 <= code < 30 && 2 <= dist0 && 128 * dist0 == DistsBefore(code)
    requires DistsTo(baseDist[..], distCode[..], code, 256, dist0)
    modifies baseDist, distCode
    ensures 2 <= dist && 128 * dist == DistsBefore(code + 1) && DistsTo(baseDist[..], distCode[..], code + 1, 256, dist)
  {
    DistValues16();
    DistValues30();
    DMono(code + 1, 30);
    FarExtra(code);
    dist := dist0;
    BaseSet(baseDist[..], distCode[..], code, 256, dist);
    ghost var before: seq<nat> := baseDist[..];
    baseDist[code] := 128 * dist;
    assert baseDist[..] == before[code := DistsBefore(code)];
    var n := 0;
    while n < Pow2(DistExtra(code) - 7)
      invariant 0 <= n <= Pow2(DistExtra(code) - 7) && dist == dist0 + n
      invariant DistsTo(baseDist[..], distCode[..], code + 1, 256, dist)
    {
      ghost var codes: seq<nat> := distCode[..];
      FarStep(baseDist[..], codes, code + 1, dist, code);
      distCode[256 + dist] := code;
      assert distCode[..] == codes[256 + dist := code];
      dist := dist + 1;
      n := n + 1;
    }
  }

  ghost predicate DistTable(baseDist: seq<nat>, distCode: seq<nat>) {
    DistsTo(baseDist, distCode, 30, 256, 256)
  }

  method InitDists(baseDist: array<nat>, distCode: array<nat>)
    requires baseDist != distCode && baseDist.Length == 30 && distCode.Length == 512
    modifies baseDist, distCode
    ensures DistTable(baseDist[..], distCode[..])
  {
    DistValues16();
    DistValues30();
    var dist, code := 0, 0;
    while code < 16
      invariant 0 <= code <= 16 && dist == DistsBefore(code) && DistsTo(baseDist[..], distCode[..], code, dist, 2)
    {
      dist := InitNearCode(baseDist, distCode, code, dist);
      code := code + 1;
    }
    dist := dist / 128;
    while code < 30
      invariant 16 <= code <= 30 && 2 <= dist && 128 * dist == DistsBefore(code)
      invariant DistsTo(baseDist[..], distCode[..], code, 256, dist)
    {
      dist := InitFarCode(baseDist, distCode, code, dist);
      code := code + 1;
    }
  }

  /** The code of a distance, less 1. */
  function DCode(distCode: seq<nat>, dist: nat): (r: nat)
    requires |distCode| == 512 && dist < 0x8000
  {
    if dist < 256 then distCode[dist] else distCode[256 + dist / 128]
  }

  function DistRest(baseDist: seq<nat>, distCode: seq<nat>, dist: nat): (r: int)
    requires |baseDist| == 30 && |distCode| == 512 && dist < 0x8000 && DCode(distCode, dist) < 30
  {
    if DistExtra(DCode(distCode, dist)) != 0 then dist - baseDist[DCode(distCode, dist)] else 0
  }

  /** The tables express every distance. */
  lemma DistTableRight(baseDist: seq<nat>, distCode: seq<nat>, dist: nat)
    requires DistTable(baseDist, distCode) && dist < 0x8000
    ensures DCode(distCode, dist) < 30 && DistRest(baseDist, distCode, dist) >= 0
    ensures DistOf(DCode(distCode, dist), DistRest(baseDist, distCode, dist), dist + 1)
  {
    var c := DCode(distCode, dist);
    if dist < 256 {
      assert DCovers(c, dist, dist);
    } else {
      FarTable(baseDist, distCode, dist);
    }
    BaseOf(baseDist, distCode, c);
    CoversRight(baseDist, c, dist);
  }

  lemma BaseOf(baseDist: seq<nat>, distCode: seq<nat>, c: nat)
    requires DistTable(baseDist, distCode) && c < 30
    ensures baseDist[c] == DistsBefore(c)
  {
  }

  lemma FarTable(baseDist: seq<nat>, distCode: seq<nat>, dist: nat)
    requires DistTable(baseDist, distCode) && 256 <= dist < 0x8000
    ensures DCovers(distCode[256 + dist / 128], dist, dist)
  {
    var k := dist / 128;
    assert FarCovers(distCode, k);
    FarDist(distCode, dist, k);
  }

  lemma FarDist(distCode: seq<nat>, dist: nat, k: nat)
    requires |distCode| == 512 && 2 <= k < 256 && 128 * k <= dist <= 128 * k + 127 && FarCovers(distCode, k)
    ensures DCovers(distCode[256 + k], dist, dist)
  {
  }

  lemma CoversRight(baseDist: seq<nat>, c: nat, dist: nat)
    requires |baseDist| == 30 && DCovers(c, dist, dist) && baseDist[c] == DistsBefore(c)
    ensures var rest := if DistExtra(c) != 0 then dist - baseDist[c] else 0; rest >= 0 && DistOf(c, rest, dist + 1)
  {
    assert Pow2(0) == 1;
  }
}
