/** The checksum's table (`crc32_filltable`, big-endian), and that going through it a byte at a time divides by the
    polynomial bit by bit. */
module CrcTable {
  import opened Arith
  import opened Powers
  import opened BitOps
  import opened BitLaws
  import opened RunLength

  const POLYNOMIAL: Word := 0x04c1_1db7

  /** The coefficients of the CRC-32 polynomial below x^32, as in IEEE 802.3. */
  lemma PolynomialTerms()
    ensures POLYNOMIAL == Pow2(26) + Pow2(23) + Pow2(22) + Pow2(16) + Pow2(12) + Pow2(11) + Pow2(10) + Pow2(8) + Pow2(7)
              + Pow2(5) + Pow2(4) + Pow2(2) + Pow2(1) + Pow2(0)
  {
    Pow2Values();
    Pow2Add(16, 10);
    Pow2Add(16, 7);
    Pow2Add(16, 6);
    Pow2Add(8, 4);
    Pow2Add(8, 3);
    Pow2Add(8, 2);
  }

  // ----- one bit -----

  /** One bit of the division: the highest one leaves, and if it was set the polynomial is taken away. */
  function Step(c: Word): (r: Word) {
    if c >= 0x8000_0000 then XorWords(c * 2 % 0x1_0000_0000, POLYNOMIAL) else c * 2 % 0x1_0000_0000
  }

  function Steps(c: Word, n: nat): (r: Word) {
    if n == 0 then c else Step(Steps(c, n - 1))
  }

  predicate Top(c: Word) { c >= 0x8000_0000 }

  lemma TopSet(c: Word, n: nat)
    requires n == 31
    ensures Top(c) <==> Bit(c, n) == 1
  {
    Pow2Values();
    BitIs(c, n);
  }

  lemma TopXor(a: Word, b: Word, n: nat)
    requires n == 31
    ensures Top(XorWords(a, b)) <==> Top(a) != Top(b)
  {
    TopSet(a, n);
    TopSet(b, n);
    TopSet(XorWords(a, b), n);
    XorBit(a, b, n);
  }

  function Lower(c: nat, i: nat): (r: nat)
    ensures r <= 1
  {
    if i == 0 then 0 else Bit(c, i - 1)
  }

  lemma XorLower(a: nat, b: nat, i: nat)
    ensures Lower(Xor(a, b), i) == (Lower(a, i) + Lower(b, i)) % 2
  {
    if i > 0 {
      XorBit(a, b, i - 1);
    }
  }

  function When(top: bool, p: nat): (r: nat) { if top then p else 0 }

  lemma StepBit(c: Word, i: nat)
    requires i < 32
    ensures Bit(Step(c), i) == (Lower(c, i) + When(Top(c), Bit(POLYNOMIAL, i))) % 2
  {
    UpBit(c, i);
    XorBit(c * 2 % 0x1_0000_0000, POLYNOMIAL, i);
  }

  lemma Parity(a: nat, b: nat, x: bool, y: bool, p: nat)
    requires a <= 1 && b <= 1 && p <= 1
    ensures ((a + b) % 2 + When(x != y, p)) % 2 == ((a + When(x, p)) % 2 + (b + When(y, p)) % 2) % 2
  {
  }

  /** Steps commute with exclusive or. */
  lemma StepLinear(a: Word, b: Word)
    ensures Step(XorWords(a, b)) == XorWords(Step(a), Step(b))
  {
    Pow2Values();
    forall i | 0 <= i < 32
      ensures Bit(Step(XorWords(a, b)), i) == Bit(XorWords(Step(a), Step(b)), i)
    {
      LinearBit(a, b, i);
    }
    SameBits(Step(XorWords(a, b)), XorWords(Step(a), Step(b)), 32);
  }

  lemma LinearBit(a: Word, b: Word, i: nat)
    requires i < 32
    ensures Bit(Step(XorWords(a, b)), i) == Bit(XorWords(Step(a), Step(b)), i)
  {
    StepOfXor(a, b, i);
    XorOfSteps(a, b, i);
    Parity(Lower(a, i), Lower(b, i), Top(a), Top(b), Bit(POLYNOMIAL, i));
  }

  lemma StepOfXor(a: Word, b: Word, i: nat)
    requires i < 32
    ensures Bit(Step(XorWords(a, b)), i) ==
            ((Lower(a, i) + Lower(b, i)) % 2 + When(Top(a) != Top(b), Bit(POLYNOMIAL, i))) % 2
  {
    StepBit(XorWords(a, b), i);
    XorLower(a, b, i);
    TopXor(a, b, 31);
  }

  lemma XorOfSteps(a: Word, b: Word, i: nat)
    requires i < 32
    ensures Bit(XorWords(Step(a), Step(b)), i) ==
            ((Lower(a, i) + When(Top(a), Bit(POLYNOMIAL, i))) % 2
                + (Lower(b, i) + When(Top(b), Bit(POLYNOMIAL, i))) % 2) % 2
  {
    StepBit(a, i);
    StepBit(b, i);
    XorBit(Step(a), Step(b), i);
  }

  lemma {:induction false} StepsLinear(a: Word, b: Word, n: nat)
    ensures Steps(XorWords(a, b), n) == XorWords(Steps(a, n), Steps(b, n))
  {
    if n > 0 {
      StepsLinear(a, b, n - 1);
      StepLinear(Steps(a, n - 1), Steps(b, n - 1));
    }
  }

  lemma Twice(c: nat, p: nat)
    ensures c * (2 * p) == 2 * (c * p) && c * p >= 0
  {
  }

  /** While no bit is lost, a step is a doubling. */
  lemma {:induction false} StepsShift(c: Word, n: nat)
    requires c * Pow2(n) < 0x1_0000_0000
    ensures Steps(c, n) == c * Pow2(n)
  {
    if n > 0 {
      var d := c * Pow2(n - 1);
      Twice(c, Pow2(n - 1));
      StepsShift(c, n - 1);
      assert Step(d) == 2 * d;
    }
  }

  // ----- one byte -----

  ghost predicate IsTable(table: seq<Word>) {
    |table| == 256 && forall i :: 0 <= i < 256 ==> table[i] == Steps(i * 0x100_0000, 8)
  }

  lemma {:induction false} ShiftedBit(x: nat, k: nat, i: nat)
    ensures Bit(x * Pow2(k), i) == if i < k then 0 else Bit(x, i - k)
  {
    if k > 0 {
      Associate(x, 2, Pow2(k - 1));
      if i == 0 {
        DoubleBit(x * Pow2(k - 1), 0);
      } else {
        DoubleBit(x * Pow2(k - 1), i - 1);
        ShiftedBit(x, k - 1, i - 1);
      }
    }
  }

  lemma {:induction false} HighBit(x: nat, k: nat, i: nat)
    ensures x / Pow2(k) >= 0 && Bit(x / Pow2(k), i) == Bit(x, i + k)
    decreases k
  {
    if k > 0 {
      QuotientTwice(x, Pow2(k - 1));
      HighBit(x / 2, k - 1, i);
      BitHalf(x, i + k);
    }
  }

  /** Byte `ch` into the top of the register, which is split into its top byte and the rest. */
  lemma ByteIn(crc: Word, ch: nat)
    requires ch < 256
    ensures XorWords(crc, ch * 0x100_0000) == XorWords(XorBytes(crc / 0x100_0000, ch) * 0x100_0000, crc % 0x100_0000)
  {
    Pow2Values();
    Pow2Add(8, 16);
    var hi, lo := crc / 0x100_0000, crc % 0x100_0000;
    forall i | 0 <= i < 32
      ensures Bit(XorWords(crc, ch * 0x100_0000), i) == Bit(XorWords(XorBytes(hi, ch) * 0x100_0000, lo), i)
    {
      ByteInBit(crc, ch, i);
    }
    SameBits(XorWords(crc, ch * 0x100_0000), XorWords(XorBytes(hi, ch) * 0x100_0000, lo), 32);
  }

  lemma ByteInBit(crc: Word, ch: nat, i: nat)
    requires ch < 256 && i < 32
    ensures Bit(XorWords(crc, ch * 0x100_0000), i) ==
            Bit(XorWords(XorBytes(crc / 0x100_0000, ch) * 0x100_0000, crc % 0x100_0000), i)
  {
    var hi, lo: Word := crc / 0x100_0000, crc % 0x100_0000;
    AtTop(ch, i);
    AtTop(XorBytes(hi, ch), i);
    TopAndRest(crc, i);
    SplitXor(crc, ch * 0x100_0000, hi, ch, XorBytes(hi, ch) * 0x100_0000, lo, i);
  }

  lemma SplitXor(crc: nat, ch': nat, hi: nat, ch: nat, x': nat, lo: nat, i: nat)
    requires Bit(ch', i) == if i < 24 then 0 else Bit(ch, i - 24)
    requires Bit(x', i) == if i < 24 then 0 else Bit(Xor(hi, ch), i - 24)
    requires Bit(lo, i) == (if i < 24 then Bit(crc, i) else 0) && (i >= 24 ==> Bit(hi, i - 24) == Bit(crc, i))
    ensures Bit(Xor(crc, ch'), i) == Bit(Xor(x', lo), i)
  {
    XorBit(crc, ch', i);
    XorBit(x', lo, i);
    if i >= 24 {
      XorBit(hi, ch, i - 24);
    }
  }

  lemma AtTop(x: nat, i: nat)
    ensures Bit(x * 0x100_0000, i) == if i < 24 then 0 else Bit(x, i - 24)
  {
    Pow2Values();
    Pow2Add(8, 16);
    ShiftedBit(x, 24, i);
  }

  lemma TopAndRest(crc: Word, i: nat)
    requires i < 32
    ensures Bit(crc % 0x100_0000, i) == (if i < 24 then Bit(crc, i) else 0)
    ensures i >= 24 ==> Bit(crc / 0x100_0000, i - 24) == Bit(crc, i)
  {
    Pow2Values();
    Pow2Add(8, 16);
    if i < 24 {
      LowBit(crc, 24, i);
    } else {
      NoBit(crc % 0x100_0000, 24, i);
      HighBit(crc, 24, i - 24);
    }
  }

  lemma XorCommutes(a: nat, b: nat)
    ensures Xor(a, b) == Xor(b, a)
  {
  }

  lemma LowSteps(crc: Word, n: nat)
    requires n == 8
    ensures Steps(crc % 0x100_0000, n) == ShiftByte(crc)
  {
    Pow2Values();
    var lo := crc % 0x100_0000;
    assert lo * Pow2(n) == lo * 256;
    StepsShift(lo, n);
    LowByte(crc);
  }

  lemma LowByte(crc: Word)
    ensures crc % 0x100_0000 * 256 == ShiftByte(crc)
  {
    var hi := crc / 0x100_0000;
    assert crc * 256 == hi * 0x1_0000_0000 + crc % 0x100_0000 * 256;
  }

  /** Through the table, a byte is eight steps. */
  lemma ByteIsEightSteps(table: seq<Word>, crc: Word, ch: nat)
    requires IsTable(table) && ch < 256
    ensures CrcByte(table, crc, ch) == Steps(XorWords(crc, ch * 0x100_0000), 8)
  {
    var x, lo: Word := XorBytes(crc / 0x100_0000, ch), crc % 0x100_0000;
    ByteIn(crc, ch);
    StepsLinear(x * 0x100_0000, lo, 8);
    LowSteps(crc, 8);
    XorCommutes(table[x], ShiftByte(crc));
  }

  /** The remainder of the data, from a register of ones, one bit at a time. */
  ghost function Remainder(data: seq<int>): (r: Word) {
    if data == [] then 0xffff_ffff
    else
      var c := data[|data| - 1];
      if 0 <= c < 256 then Steps(XorWords(Remainder(data[..|data| - 1]), c * 0x100_0000), 8) else 0
  }

  /** The checksum is that remainder. */
  lemma {:induction false} CrcIsRemainder(table: seq<Word>, data: seq<int>)
    requires IsTable(table)
    ensures Crc(table, data) == Remainder(data)
    decreases |data|
  {
    if data != [] {
      var c := data[|data| - 1];
      CrcIsRemainder(table, data[..|data| - 1]);
      if 0 <= c < 256 {
        ByteIsEightSteps(table, Remainder(data[..|data| - 1]), c);
      }
    }
  }

  // ----- filling the table -----

  /** `crc32_filltable` for the big-endian polynomial. */
  method FillTable() returns (table: seq<Word>)
    ensures IsTable(table)
  {
    var t := new Word[256](i => 0);
    for i := 0 to 256
      invariant forall k :: 0 <= k < i ==> t[k] == Steps(k * 0x100_0000, 8)
    {
      var c: Word := i * 0x100_0000;
      var j := 8;
      while j != 0
        invariant 0 <= j <= 8 && c == Steps(i * 0x100_0000, 8 - j)
        decreases j
      {
        c := if c >= 0x8000_0000 then XorWords(c * 2 % 0x1_0000_0000, POLYNOMIAL) else c * 2 % 0x1_0000_0000;
        j := j - 1;
      }
      t[i] := c;
    }
    table := t[..];
  }
}
