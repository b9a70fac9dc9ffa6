/** What a canonical code is, said without the numbering that makes it: read as a binary fraction, a symbol's code is
    the
    room taken by all symbols that come before it, shorter codes first and those of one length in symbol order. */
module CanonicalCode {
  import opened Arith
  import opened Powers
  import opened PrefixCode

  ghost predicate ComesBefore(lens: seq<nat>, s: nat, t: nat)
    requires s < |lens| && t < |lens|
  {
    0 < lens[s] && (lens[s] < lens[t] || (lens[s] == lens[t] && s < t))
  }

  /** The room the symbols below `m` that come before `t` take, in units of one code of the length of `t`. */
  ghost function RoomBefore(lens: seq<nat>, t: nat, m: nat): (r: nat)
    requires t < |lens| && m <= |lens|
  {
    if m == 0 then 0
    else RoomBefore(lens, t, m - 1) + if ComesBefore(lens, m - 1, t) then Pow2(lens[t] - lens[m - 1]) else 0
  }

  lemma {:induction false} RoomIsSpace(lens: seq<nat>, t: nat, m: nat)
    requires t < |lens| && 0 < lens[t] && m <= |lens|
    ensures RoomBefore(lens, t, m) == SpaceTo(lens, lens[t], lens[t], m)
            + CountLen(lens, lens[t], if m < t then m else t)
    decreases m
  {
    if m == 0 {
      SpaceNone(lens, lens[t], lens[t]);
    } else {
      RoomIsSpace(lens, t, m - 1);
      SpaceStep(lens, lens[t], lens[t], m - 1);
      assert Pow2(0) == 1;
    }
  }

  /** The code of a symbol, whatever the lengths. */
  lemma CodeIsRoom(lens: seq<nat>, t: nat)
    requires t < |lens| && 0 < lens[t]
    ensures Code(lens, t) == RoomBefore(lens, t, |lens|)
  {
    var b := lens[t];
    RoomIsSpace(lens, t, |lens|);
    SpaceAll(lens, b, b);
    NextCodeScaled(lens, b, b);
    assert Pow2(b - b) == 1;
  }

  /** What is sent for it spells that number, the most significant bit first. */
  lemma EncodeIsRoom(lens: seq<nat>, top: nat, t: nat)
    requires Fits(lens, top) && t < |lens| && 0 < lens[t]
    ensures Value(Encode(lens, t)) == RoomBefore(lens, t, |lens|)
  {
    CodeFits(lens, top, t);
    ValueOfBits(Code(lens, t), lens[t]);
    CodeIsRoom(lens, t);
  }
}

/** The values both formats fix, which writer and reader share, listed as the formats list them. */
module FormatValues {
  import opened Arith
  import opened Powers
  import opened PrefixCode
  import opened BitLaws
  import opened LsbFirst
  import opened StaticTrees
  import opened CodeLengths
  import opened DeflateFormat
  import opened DynamicTrees
  import opened MtfDecoder
  import opened RunLength
  import BF = BzFormat
  import BS = BzStream
  import FT = FirstTables
  import I = Inflate

  // ----- numbers as bits -----

  /** bzip2 sends the most significant bit of a number first. */
  lemma {:induction false} BitsAt(x: nat, n: nat, i: nat)
    requires i < n
    ensures Bits(x, n)[i] <==> Bit(x, n - 1 - i) == 1
    decreases n
  {
    if i < n - 1 {
      BitsAt(x / 2, n - 1, i);
      BitHalf(x, n - 1 - i);
    } else {
      BitFirst(x);
    }
  }

  /** deflate sends the least significant bit first. */
  lemma {:induction false} LsbAt(x: nat, n: nat, i: nat)
    requires i < n
    ensures Lsb(x, n)[i] <==> Bit(x, i) == 1
    decreases n
  {
    if i > 0 {
      LsbAt(x / 2, n - 1, i - 1);
      BitHalf(x, i);
    } else {
      BitFirst(x);
    }
  }

  lemma {:induction false} BitsOfTwo(a: nat, b: nat, m: nat, n: nat, x: nat)
    requires b < Pow2(n) && x == a * Pow2(n) + b
    ensures Bits(x, m + n) == Bits(a, m) + Bits(b, n)
    decreases n
  {
    if n == 0 {
      assert Bits(a, m) + Bits(b, 0) == Bits(a, m);
    } else {
      Associate(2, a, Pow2(n - 1));
      assert a * Pow2(n) == 2 * (a * Pow2(n - 1));
      assert x / 2 == a * Pow2(n - 1) + b / 2 && x % 2 == b % 2;
      BitsOfTwo(a, b / 2, m, n - 1, x / 2);
      assert Bits(a, m) + (Bits(b / 2, n - 1) + [b % 2 == 1]) == Bits(a, m) + Bits(b / 2, n - 1) + [b % 2 == 1];
    }
  }

  // ----- bzip2 -----

  lemma TwoBytes(x: nat, a: nat, b: nat)
    requires a < 256 && b < 256 && x == 256 * a + b
    ensures Bits(x, 16) == Bits(a, 8) + Bits(b, 8)
  {
    Pow2Values();
    BitsOfTwo(a, b, 8, 8, x);
  }

  lemma FourBytes(x: nat, a: nat, b: nat, c: nat, d: nat)
    requires a < 256 && b < 256 && c < 256 && d < 256 && x == 0x100_0000 * a + 0x1_0000 * b + 256 * c + d
    ensures Bits(x, 32) == Bits(a, 8) + Bits(b, 8) + (Bits(c, 8) + Bits(d, 8))
  {
    var high, low := 256 * a + b, 256 * c + d;
    TwoBytes(high, a, b);
    TwoBytes(low, c, d);
    assert Pow2(16) == 65536 by {
      Pow2Values();
    }
    BitsOfTwo(high, low, 16, 16, x);
  }

  /** A file begins with "BZh" and the digit of the level, a block with 31 41 59 26 53 59, the trailer with
      17 72 45 38 50 90. */
  lemma Magics(level: nat)
    requires 1 <= level <= 9
    ensures BS.HeadBits(level) ==
            Bits('B' as nat, 8) + Bits('Z' as nat, 8) + (Bits('h' as nat, 8) + Bits('0' as nat + level, 8))
    ensures BS.MagicBits(BS.BLOCK_HIGH, BS.BLOCK_LOW) ==
            Bits(0x31, 8) + Bits(0x41, 8) + (Bits(0x59, 8) + Bits(0x26, 8)) + (Bits(0x53, 8) + Bits(0x59, 8))
    ensures BS.MagicBits(BS.END_HIGH, BS.END_LOW) ==
            Bits(0x17, 8) + Bits(0x72, 8) + (Bits(0x45, 8) + Bits(0x38, 8)) + (Bits(0x50, 8) + Bits(0x90, 8))
  {
    FourBytes(BS.HEADER + level, 'B' as nat, 'Z' as nat, 'h' as nat, '0' as nat + level);
    FourBytes(BS.BLOCK_HIGH, 0x31, 0x41, 0x59, 0x26);
    TwoBytes(BS.BLOCK_LOW, 0x53, 0x59);
    FourBytes(BS.END_HIGH, 0x17, 0x72, 0x45, 0x38);
    TwoBytes(BS.END_LOW, 0x50, 0x90);
  }

  /** A selector's place is as many ones, and a zero. */
  lemma UnaryIs(j: nat)
    ensures |BF.Unary(j)| == j + 1 && !BF.Unary(j)[j] && forall k :: 0 <= k < j ==> BF.Unary(j)[k]
  {
  }

  /** From one code length to the next: a one and a zero for each step up, two ones for each step down, and a zero. */
  lemma {:induction false} DeltaIs(curr: nat, target: nat)
    ensures var steps := if curr < target then target - curr else curr - target;
            && |BF.DeltaBits(curr, target)| == 2 * steps + 1 && !BF.DeltaBits(curr, target)[2 * steps]
            && forall k :: 0 <= k < steps ==>
                  BF.DeltaBits(curr, target)[2 * k] && BF.DeltaBits(curr, target)[2 * k + 1] == (curr > target)
    decreases if curr < target then target - curr else curr - target
  {
    if curr != target {
      var next := if curr < target then curr + 1 else curr - 1;
      DeltaIs(next, target);
      var bits, tail := BF.DeltaBits(curr, target), BF.DeltaBits(next, target);
      assert bits == [true, curr > target] + tail;
      var steps := if curr < target then target - curr else curr - target;
      forall k | 0 <= k < steps
        ensures bits[2 * k] && bits[2 * k + 1] == (curr > target)
      {
        if k > 0 {
          assert bits[2 * k] == tail[2 * (k - 1)] && bits[2 * k + 1] == tail[2 * (k - 1) + 1];
        }
      }
    }
  }

  /** Fifty values share a table, the next fifty the next. */
  lemma GroupsOfFifty(tables: seq<seq<nat>>, selectors: seq<int>, g: nat, i: nat)
    requires g < |selectors| && 0 <= selectors[g] < |tables| && i < 50
    ensures BF.TableFor(tables, selectors, 50 * g + i) == tables[selectors[g]]
  {
  }

  /** The number of tables grows with the number of values. */
  lemma TablesFor(n: nat)
    ensures FT.GroupsFor(n) ==
            if n < 200 then 2 else if n < 600 then 3 else if n < 1200 then 4 else if n < 2400 then 5 else 6
  {
  }

  /** What a string of run values stands for: digits one and two, the least first. */
  ghost function RunValue(values: seq<int>): (r: int) {
    if values == [] then 0 else values[0] + 1 + 2 * RunValue(values[1..])
  }

  lemma {:induction false} RunValueMore(values: seq<int>, v: int)
    ensures RunValue(values + [v]) == RunValue(values) + (v + 1) * Pow2(|values|)
    decreases |values|
  {
    if values == [] {
      assert values + [v] == [v] && [v][1..] == [];
      assert RunValue([v]) == v + 1 && Pow2(0) == 1;
    } else {
      RunValueMore(values[1..], v);
      assert (values + [v])[1..] == values[1..] + [v];
      Associate(2, v + 1, Pow2(|values| - 1));
      Associate(v + 1, 2, Pow2(|values| - 1));
    }
  }

  /** Zeros and ones in a row are a run of the front byte, in bijective base two. */
  lemma {:induction false} RunIs(list: seq<int>, values: seq<int>)
    requires forall k :: 0 <= k < |values| ==> values[k] == 0 || values[k] == 1
    ensures var d := Decoded(list, values);
            d.run as int == RunValue(values) && d.weight == Pow2(|values|) && d.out == [] && d.list == list
    decreases |values|
  {
    if values != [] {
      var init, v := values[..|values| - 1], values[|values| - 1];
      RunIs(list, init);
      RunValueMore(init, v);
      assert values == init + [v];
    }
  }

  /** A run of up to three bytes is stored as it is, a longer one as four of them and how many more. */
  lemma StoredIs(c: int, n: nat)
    ensures n == 1 ==> Stored(Run(c, n)) == [c]
    ensures n == 2 ==> Stored(Run(c, n)) == [c, c]
    ensures n == 3 ==> Stored(Run(c, n)) == [c, c, c]
    ensures n >= 4 ==> Stored(Run(c, n)) == [c, c, c, c, n - 4]
  {
  }

  // ----- deflate -----

  /** The order in which the lengths of the code length code are sent, three bits each. */
  lemma OrderIs(bl: seq<nat>)
    requires |bl| == 19
    ensures InOrder(bl, 19) ==
            [bl[16], bl[17], bl[18], bl[0], bl[8], bl[7], bl[9], bl[6], bl[10], bl[5], bl[11], bl[4], bl[12], bl[3],
             bl[13], bl[2], bl[14], bl[1], bl[15]]
  {
  }

  /** The counts before them: five bits from 257, five from 1, four from 4. */
  lemma CountsAre(l: nat, d: nat, b: nat)
    requires 257 <= l <= 286 && 1 <= d <= 30 && 4 <= b <= 19
    ensures |I.CountBits(l, d, b)| == 14 && LsbValue(I.CountBits(l, d, b)[..5]) + 257 == l
    ensures LsbValue(I.CountBits(l, d, b)[5..10]) + 1 == d && LsbValue(I.CountBits(l, d, b)[10..]) + 4 == b
  {
    assert Pow2(5) == 32 && Pow2(4) == 16 by {
      Pow2Values();
    }
    LsbValueOf(l - 257, 5);
    LsbValueOf(d - 1, 5);
    LsbValueOf(b - 4, 4);
    FourteenBits(Lsb(l - 257, 5), Lsb(d - 1, 5), Lsb(b - 4, 4));
  }

  lemma FourteenBits(a: seq<bool>, b: seq<bool>, c: seq<bool>)
    requires |a| == 5 && |b| == 5 && |c| == 4
    ensures |a + b + c| == 14 && (a + b + c)[..5] == a && (a + b + c)[5..10] == b && (a + b + c)[10..] == c
  {
  }

  /** What the symbols of the code length code stand for, and how many bits follow each. */
  lemma RepeatsAre(out: seq<nat>, x: nat, s: nat, extra: nat)
    requires s < 16
    ensures ClExtra(s) == 0 && ClExtra(16) == 2 && ClExtra(17) == 3 && ClExtra(18) == 7
    ensures Applied(out + [x], ClSym(s, 0)) == Some(out + [x] + [s])
    ensures Applied(out + [x], ClSym(16, extra)) == Some(out + [x] + Rep(x, 3 + extra))
    ensures Applied(out, ClSym(17, extra)) == Some(out + Rep(0, 3 + extra))
    ensures Applied(out, ClSym(18, extra)) == Some(out + Rep(0, 11 + extra))
  {
  }

  /** The fixed literal and length codes, as section 3.2.6 of RFC 1951 lists them. */
  lemma FixedCodesAre(n: nat)
    requires n < 288
    ensures n < 144 ==> Encode(FixedL(), n) == Bits(0x30 + n, 8)
    ensures 144 <= n < 256 ==> Encode(FixedL(), n) == Bits(0x190 + (n - 144), 9)
    ensures 256 <= n < 280 ==> Encode(FixedL(), n) == Bits(n - 256, 7)
    ensures 280 <= n ==> Encode(FixedL(), n) == Bits(0xc0 + (n - 280), 8)
  {
    var len := FixedL()[n];
    var c := FixedCode(n);
    assert Encode(FixedL(), n) == Bits(c, len);
  }

  lemma FixedCode(n: nat) returns (c: nat)
    requires n < 288
    ensures c == Code(FixedL(), n)
    ensures c == if n < 144 then 0x30 + n else if n < 256 then 0x190 + (n - 144) else if n < 280 then n - 256
              else 0xc0 + (n - 280)
  {
    FirstFixed();
    FixedBelow(FixedL()[n], n);
    c := Code(FixedL(), n);
  }

  lemma {:induction false} NoneShorter(b: nat)
    requires b <= 7
    ensures NextCode(FixedL(), b) == 0
  {
    if b > 0 {
      NoneShorter(b - 1);
      if b > 1 {
        FixedCounts(b - 1);
      }
    }
  }

  lemma FirstFixed()
    ensures NextCode(FixedL(), 7) == 0 && NextCode(FixedL(), 8) == 48 && NextCode(FixedL(), 9) == 400
  {
    NoneShorter(7);
    FixedCounts(7);
    FixedCounts(8);
    assert Codes(FixedL(), 7) == 24 && Codes(FixedL(), 8) == 152;
  }

  lemma FixedBelow(c: nat, n: nat)
    requires n < 288 && c == FixedL()[n]
    ensures CountLen(FixedL(), c, n) ==
            if n < 144 then n else if n < 256 then n - 144 else if n < 280 then n - 256 else 144 + (n - 280)
  {
    var l := FixedL();
    CountStretch(l, c, 0, if n < 144 then n else 144, 8);
    if n > 144 {
      CountStretch(l, c, 144, if n < 256 then n else 256, 9);
    }
    if n > 256 {
      CountStretch(l, c, 256, if n < 280 then n else 280, 7);
    }
    if n > 280 {
      CountStretch(l, c, 280, n, 8);
    }
  }
}
