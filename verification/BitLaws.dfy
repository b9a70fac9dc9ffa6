/** What the operations on words do, bit by bit. */
module BitLaws {
  import opened Arith
  import opened Powers
  import opened PrefixCode
  import opened BitOps

  /** Bit `i` of a number, counted from the least. */
  function Bit(x: nat, i: nat): (r: nat)
    ensures r <= 1
  {
    if i == 0 then x % 2 else Bit(x / 2, i - 1)
  }

  lemma QuotientTwice(x: nat, p: nat)
    requires p > 0
    ensures x / (2 * p) == x / 2 / p
  {
    var q, r := x / 2 / p, x / 2 % p;
    assert x / 2 == p * q + r;
    Associate(2, p, q);
    assert x == 2 * p * q + (2 * r + x % 2);
    DivIs(x, 2 * p, q);
  }

  /** That is the quotient by its weight, modulo two. */
  lemma {:induction false} BitIs(x: nat, i: nat)
    ensures Bit(x, i) == x / Pow2(i) % 2
    decreases i
  {
    if i > 0 {
      QuotientTwice(x, Pow2(i - 1));
      BitIs(x / 2, i - 1);
    }
  }

  lemma BitHalf(x: nat, i: nat)
    requires i > 0
    ensures Bit(x, i) == Bit(x / 2, i - 1)
  {
  }

  lemma BitFirst(x: nat)
    ensures Bit(x, 0) == x % 2
  {
  }

  lemma XorHalves(a: nat, b: nat)
    ensures Xor(a, b) / 2 == Xor(a / 2, b / 2) && Xor(a, b) % 2 == (a % 2 + b % 2) % 2
  {
    var last := if a % 2 != b % 2 then 1 else 0;
    assert last == (a % 2 + b % 2) % 2;
    assert Xor(a, b) == 2 * Xor(a / 2, b / 2) + last;
    TwicePlus(Xor(a / 2, b / 2), last);
  }

  lemma TwicePlus(h: nat, last: nat)
    requires last <= 1
    ensures (2 * h + last) / 2 == h && (2 * h + last) % 2 == last
  {
  }

  /** Exclusive or, bit by bit. */
  lemma {:induction false} XorBit(a: nat, b: nat, i: nat)
    ensures Bit(Xor(a, b), i) == (Bit(a, i) + Bit(b, i)) % 2
    decreases i
  {
    XorHalves(a, b);
    if i > 0 {
      BitHalf(Xor(a, b), i);
      BitHalf(a, i);
      BitHalf(b, i);
      XorBit(a / 2, b / 2, i - 1);
    }
  }

  lemma {:induction false} OrBit(a: nat, b: nat, i: nat)
    ensures Bit(Or(a, b), i) == 1 <==> Bit(a, i) == 1 || Bit(b, i) == 1
    decreases i
  {
    OrHalves(a, b);
    if i > 0 {
      BitHalf(Or(a, b), i);
      BitHalf(a, i);
      BitHalf(b, i);
      OrBit(a / 2, b / 2, i - 1);
    }
  }

  lemma {:induction false} NoBit(x: nat, n: nat, i: nat)
    requires x < Pow2(n) && n <= i
    ensures Bit(x, i) == 0
  {
    if i > 0 {
      NoBit(x / 2, if n == 0 then 0 else n - 1, i - 1);
    }
  }

  /** Numbers with the same bits are the same. */
  lemma {:induction false} SameBits(a: nat, b: nat, n: nat)
    requires a < Pow2(n) && b < Pow2(n) && forall i :: 0 <= i < n ==> Bit(a, i) == Bit(b, i)
    ensures a == b
    decreases n
  {
    if n > 0 {
      assert Bit(a, 0) == Bit(b, 0);
      forall i | 0 <= i < n - 1
        ensures Bit(a / 2, i) == Bit(b / 2, i)
      {
        var j := i + 1;
        BitHalf(a, j);
        BitHalf(b, j);
      }
      SameBits(a / 2, b / 2, n - 1);
    }
  }

  /** Moved one place up, the lowest bit 0. */
  lemma DoubleBit(x: nat, i: nat)
    ensures Bit(2 * x, 0) == 0 && Bit(2 * x, i + 1) == Bit(x, i)
  {
    BitHalf(2 * x, i + 1);
  }

  lemma {:induction false} LowBit(x: nat, n: nat, i: nat)
    requires i < n
    ensures Bit(x % Pow2(n), i) == Bit(x, i)
    decreases i
  {
    HalfModulo(x, Pow2(n - 1));
    if i > 0 {
      BitHalf(x, i);
      BitHalf(x % Pow2(n), i);
      LowBit(x / 2, n - 1, i - 1);
    }
  }

  lemma UpBit(a: Word, i: nat)
    requires i < 32
    ensures Bit(a * 2 % 0x1_0000_0000, i) == if i == 0 then 0 else Bit(a, i - 1)
  {
    Pow2Values();
    LowBit(2 * a, 32, i);
    if i > 0 {
      DoubleBit(a, i - 1);
    } else {
      DoubleBit(a, 0);
    }
  }

  lemma TopBit(a: Word, i: nat, n: nat)
    requires n == 31
    ensures 0 <= a / 0x8000_0000 <= 1 && Bit(a / 0x8000_0000, i) == if i == 0 then Bit(a, n) else 0
  {
    Pow2Values();
    BitIs(a, n);
    if i > 0 {
      NoBit(a / 0x8000_0000, 1, i);
    }
  }

  /** The rotation: every bit one place up, the highest to the bottom. */
  lemma RotateBit(a: Word, i: nat)
    requires i < 32
    ensures Bit(RotateLeft(a), i) == Bit(a, (i + 31) % 32)
  {
    OrBit(a * 2 % 0x1_0000_0000, a / 0x8000_0000, i);
    UpBit(a, i);
    var n := 31;
    TopBit(a, i, n);
    assert (i + 31) % 32 == if i == 0 then n else i - 1;
  }
}
