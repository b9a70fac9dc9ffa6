/** `ct_init`: the constant tables and trees. */
module CtInit {
  import opened Powers
  import opened PrefixCode
  import opened CodeLengths
  import opened SendTree
  import opened DeflateFormat
  import opened LengthTables
  import opened StaticTrees
  import opened GenBitlen
  import opened TokenSymbols
  import opened FlushBlock
  import BL = BlTree
  import GC = GenCodes

  /** The length and distance tables. */
  method MakeTables() returns (T: Tables)
    ensures T.Right()
  {
    var baseLength, lengthCode := new nat[29](i => 0), new nat[256](i => 0);
    InitLengths(baseLength, lengthCode);
    var baseDist, distCode := new nat[30](i => 0), new nat[512](i => 0);
    InitDists(baseDist, distCode);
    T := Tables(baseLength[..], lengthCode[..], baseDist[..], distCode[..]);
  }

  /** The static literal tree: lengths, counts, codes. */
  method MakeFixedL() returns (codes: seq<nat>)
    ensures TreeCodes(FixedL(), codes)
  {
    var dl := new nat[288](i => 0);
    var n := 0;
    while n <= 143
      invariant 0 <= n <= 144 && forall i :: 0 <= i < n ==> dl[i] == FixedLen(i)
    {
      dl[n] := 8;
      n := n + 1;
    }
    while n <= 255
      invariant 144 <= n <= 256 && forall i :: 0 <= i < n ==> dl[i] == FixedLen(i)
    {
      dl[n] := 9;
      n := n + 1;
    }
    while n <= 279
      invariant 256 <= n <= 280 && forall i :: 0 <= i < n ==> dl[i] == FixedLen(i)
    {
      dl[n] := 7;
      n := n + 1;
    }
    while n <= 287
      invariant 280 <= n <= 288 && forall i :: 0 <= i < n ==> dl[i] == FixedLen(i)
    {
      dl[n] := 8;
      n := n + 1;
    }
    codes := FixedCodes(dl);
  }

  method FixedCodes(dl: array<nat>) returns (codes: seq<nat>)
    requires dl.Length == 288 && forall i :: 0 <= i < 288 ==> dl[i] == FixedLen(i)
    ensures TreeCodes(FixedL(), codes)
  {
    var fc, blCount := new nat[288](i => 0), new nat[16](i => 0);
    assert dl[..288] == FixedL();
    blCount[7], blCount[8], blCount[9] := 279 - 255, 143 + 1 + (287 - 279), 255 - 143;
    forall b | 1 <= b <= MAX_BITS
      ensures blCount[b] == CountLen(dl[..288], b, 288)
    {
      FixedCounts(b);
    }
    GC.Gen(fc, dl, 288, 287, blCount);
    codes := fc[..];
  }

  lemma FixedDistCode(n: nat)
    requires n < 30
    ensures Encode(FixedD(), n) == Bits(n, 5)
  {
    FixedDist(n);
  }

  /** The static distance tree is trivial. */
  method MakeFixedD() returns (codes: seq<nat>)
    ensures TreeCodes(FixedD(), codes)
  {
    codes := [];
    for n := 0 to 30
      invariant |codes| == n && forall i :: 0 <= i < n ==> GC.Coded(FixedD(), codes[i], i)
    {
      var c := GC.BiReverse(n, 5);
      FixedDistCode(n);
      codes := codes + [c];
    }
  }

  /** The descriptions of the three trees. */
  function LDescription(): (r: Desc)
    ensures LDesc(r)
  {
    BigPowers();
    Pow2Values();
    Desc(286, 257, seq(29, c requires 0 <= c => LengthExtra(c)), 15, Some(FixedL()))
  }

  function DDescription(): (r: Desc)
    ensures DDesc(r)
  {
    Pow2Values();
    Desc(30, 0, seq(30, c requires 0 <= c => DistExtra(c)), 15, Some(FixedD()))
  }

  function BlDescription(): (r: Desc)
    ensures BL.IsBlDesc(r) && r.Valid()
  {
    Pow2Values();
    Desc(19, 0, seq(19, s requires 0 <= s => ClExtra(s)), 7, None)
  }
}
