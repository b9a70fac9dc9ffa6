/** Bitwise operations on numbers, and what they do to the bits. */
module BitOps {
  import opened Arith
  import opened Powers
  import opened PrefixCode

  /** Bitwise or. */
  function Or(a: nat, b: nat): (r: nat) {
    if a == 0 && b == 0 then 0
    else 2 * Or(a / 2, b / 2) + if a % 2 == 1 || b % 2 == 1 then 1 else 0
  }

  /** A 32-bit word. */
  type Word = w: int | 0 <= w < 0x1_0000_0000

  /** Bitwise exclusive or. */
  function Xor(a: nat, b: nat): (r: nat) {
    if a == 0 && b == 0 then 0
    else 2 * Xor(a / 2, b / 2) + if a % 2 != b % 2 then 1 else 0
  }

  lemma {:induction false} XorBound(a: nat, b: nat, len: nat)
    requires a < Pow2(len) && b < Pow2(len)
    ensures Xor(a, b) < Pow2(len)
  {
    if len > 0 {
      XorBound(a / 2, b / 2, len - 1);
    }
  }

  function XorWords(a: Word, b: Word): Word {
    Pow2Values();
    XorBound(a, b, 32);
    Xor(a, b)
  }

  function XorBytes(a: nat, b: nat): (r: nat)
    requires a < 256 && b < 256
    ensures r < 256
  {
    Pow2Values();
    XorBound(a, b, 8);
    Xor(a, b)
  }

  /** Every bit flipped. */
  function Not(a: Word): Word { 0xffff_ffff - a }

  /** One byte to the left. */
  function ShiftByte(a: Word): Word { a * 256 % 0x1_0000_0000 }

  /** One place to the left, the top bit coming back in below. */
  function RotateLeft(a: Word): Word {
    Pow2Values();
    OrBound(a * 2 % 0x1_0000_0000, a / 0x8000_0000, 32);
    Or(a * 2 % 0x1_0000_0000, a / 0x8000_0000)
  }

  /** Left shift in a word of `width` bits. */
  function Shl(x: nat, k: nat, width: nat): (r: nat)
    ensures r < Pow2(width)
  {
    (x * Pow2(k)) % Pow2(width)
  }

  /** Right shift. */
  function Shr(x: nat, k: nat): (r: nat) {
    QuotientNatural(x, Pow2(k));
    x / Pow2(k)
  }

  lemma QuotientNatural(x: nat, d: nat)
    requires d > 0
    ensures x / d >= 0
  {
  }

  function Zeros(n: nat): (r: seq<bool>)
    ensures |r| == n && forall k :: 0 <= k < n ==> !r[k]
  {
    seq(n, k => false)
  }

  lemma {:induction false} BitsOr(a: nat, b: nat, len: nat, k: nat)
    requires k < len
    ensures Bits(Or(a, b), len)[k] <==> Bits(a, len)[k] || Bits(b, len)[k]
  {
    OrHalves(a, b);
    if k < len - 1 {
      BitsOr(a / 2, b / 2, len - 1, k);
    }
  }

  lemma OrHalves(a: nat, b: nat)
    ensures Or(a, b) / 2 == Or(a / 2, b / 2)
    ensures Or(a, b) % 2 == 1 <==> a % 2 == 1 || b % 2 == 1
  {
  }

  lemma {:induction false} OrBound(a: nat, b: nat, len: nat)
    requires a < Pow2(len) && b < Pow2(len)
    ensures Or(a, b) < Pow2(len)
  {
    if len > 0 {
      OrBound(a / 2, b / 2, len - 1);
    }
  }

  lemma {:induction false} BitsOfZero(len: nat)
    ensures Bits(0, len) == Zeros(len)
  {
    if len > 0 {
      BitsOfZero(len - 1);
    }
  }

  /** Only the low `len` bits matter. */
  lemma {:induction false} BitsModulo(x: nat, len: nat, width: nat)
    requires len <= width
    ensures Bits(x % Pow2(width), len) == Bits(x, len)
  {
    if len > 0 {
      HalfModulo(x, Pow2(width - 1));
      BitsModulo(x / 2, len - 1, width - 1);
    }
  }

  lemma HalfModulo(x: nat, m: nat)
    requires m > 0
    ensures (x % (2 * m)) / 2 == (x / 2) % m && (x % (2 * m)) % 2 == x % 2
  {
    var q, r := x / (2 * m), x % (2 * m);
    assert x == 2 * m * q + r;
    Associate(2, m, q);
    assert x == 2 * (m * q) + r;
    assert x / 2 == m * q + r / 2;
    ModuloIs(x / 2, m, q, r / 2);
  }

  lemma ModuloIs(x: nat, m: nat, q: nat, r: nat)
    requires m > 0 && x == m * q + r && r < m
    ensures x % m == r
  {
    DivIs(x, m, q);
  }

  /** Shifting appends zeros. */
  lemma {:induction false} BitsShifted(x: nat, len: nat, k: nat)
    ensures Bits(x * Pow2(k), len + k) == Bits(x, len) + Zeros(k)
  {
    if k == 0 {
      assert Pow2(0) == 1 && Zeros(0) == [];
    } else {
      BitsShifted(x, len, k - 1);
      var half := x * Pow2(k - 1);
      Associate(x, 2, Pow2(k - 1));
      Associate(2, x, Pow2(k - 1));
      assert x * Pow2(k) == 2 * half;
      assert Zeros(k) == Zeros(k - 1) + [false];
    }
  }

  /** A number that fits `len` bits has zeros above them. */
  lemma {:induction false} BitsPadded(x: nat, len: nat, more: nat)
    requires x < Pow2(len)
    ensures Bits(x, more + len) == Zeros(more) + Bits(x, len)
  {
    if len == 0 {
      BitsOfZero(more);
    } else {
      BitsPadded(x / 2, len - 1, more);
    }
  }

  /** A value shifted to sit below `live` bits of a word. */
  lemma PlacedBits(v: nat, n: nat, live: nat, width: nat)
    requires live + n <= width && v < Pow2(n)
    ensures Bits(Shl(v, width - live - n, width), width) == Zeros(live) + Bits(v, n) + Zeros(width - live - n)
  {
    var k := width - live - n;
    BitsModulo(v * Pow2(k), width, width);
    BitsShifted(v, live + n, k);
    BitsPadded(v, n, live);
  }

  /** Adding a value below the live bits of a word. */
  lemma OrPlaced(buff: nat, live: nat, v: nat, n: nat, width: nat)
    requires live + n <= width && v < Pow2(n) && buff < Pow2(width) && Bits(buff, width)[live..] == Zeros(width - live)
    ensures var buff' := Or(buff, Shl(v, width - live - n, width));
            && buff' < Pow2(width)
            && Bits(buff', width)[..live + n] == Bits(buff, width)[..live] + Bits(v, n)
            && Bits(buff', width)[live + n..] == Zeros(width - live - n)
  {
    var x := Shl(v, width - live - n, width);
    PlacedBits(v, n, live, width);
    OrBound(buff, x, width);
    var a, b, c := Bits(buff, width), Bits(x, width), Bits(Or(buff, x), width);
    assert b == Zeros(live) + Bits(v, n) + Zeros(width - live - n);
    forall k | 0 <= k < width
      ensures c[k] == if k < live then a[k] else if k < live + n then Bits(v, n)[k - live] else false
    {
      BitsOr(buff, x, width, k);
      assert k >= live ==> a[k] == a[live..][k - live];
    }
  }

  /** Taking the top byte off a word. */
  lemma TopByte(buff: nat)
    requires buff < 0x1_0000_0000
    ensures 0 <= buff / 0x100_0000 < 256 && Bits(buff / 0x100_0000, 8) == Bits(buff, 32)[..8]
    ensures Bits(Shl(buff, 8, 32), 32) == Bits(buff, 32)[8..] + Zeros(8)
  {
    Pow2Values();
    Pow2Add(8, 16);
    assert Pow2(24) == 0x100_0000;
    BitsPrefix(buff, 32, 8);
    BitsModulo(buff * Pow2(8), 32, 32);
    BitsShifted(buff, 24, 8);
    BitsSuffix(buff, 8, 24);
  }

  lemma HighBits(x: nat, a: nat, b: nat, q: nat)
    requires q == x / Pow2(b)
    ensures Bits(q % Pow2(a), a) == Bits(x, a + b)[..a]
  {
    BitsPrefix(x, a + b, a);
    BitsModulo(q, a, a);
  }

  lemma LowBits(x: nat, a: nat, b: nat)
    ensures Bits(x % Pow2(b), b) == Bits(x, a + b)[a..]
  {
    BitsSuffix(x, a, b);
    BitsModulo(x, b, b);
  }

  /** The two halves of a word, written one after the other. */
  lemma JoinHalves(s: seq<bool>, a: seq<bool>, b: seq<bool>)
    ensures s + a + b == s + (a + b)
  {
  }

  lemma WordHalves(u: nat)
    requires u < 0x1_0000_0000
    ensures Bits(u / 0x1_0000 % 0x1_0000, 16) + Bits(u % 0x1_0000, 16) == Bits(u, 32)
  {
    Pow2Values();
    HighBits(u, 16, 16, u / 0x1_0000);
    LowBits(u, 16, 16);
  }

  lemma {:induction false} BitsSuffix(x: nat, a: nat, len: nat)
    ensures Bits(x, a + len)[a..] == Bits(x, len)
  {
    if len > 0 {
      BitsSuffix(x / 2, a, len - 1);
      assert Bits(x, a + len)[a..] == Bits(x / 2, a + len - 1)[a..] + [x % 2 == 1];
    }
  }
}

/** The bit writer of the bzip2 compressor: most significant bit first, in a 32-bit buffer. */
module MsbWriter {
  import opened Powers
  import opened PrefixCode
  import opened BitOps

  /** The bits of a string of bytes. */
  ghost function ByteBits(bytes: seq<nat>): (r: seq<bool>)
    ensures |r| == 8 * |bytes|
  {
    if bytes == [] then [] else ByteBits(bytes[..|bytes| - 1]) + Bits(bytes[|bytes| - 1], 8)
  }

  lemma ByteBitsMore(bytes: seq<nat>, b: nat)
    ensures ByteBits(bytes + [b]) == ByteBits(bytes) + Bits(b, 8)
  {
    assert (bytes + [b])[..|bytes|] == bytes;
  }

  /** The top byte of the buffer. */
  function TopOf(buff: nat): (r: nat) { buff / 0x100_0000 }

  /** Bytes out and `live` buffered bits, nothing else in the buffer, make up the stream. */
  ghost predicate Holds(out: seq<nat>, buff: nat, live: int, stream: seq<bool>) {
    buff < 0x1_0000_0000 && HoldsBits(out, Bits(buff, 32), live, stream)
  }

  ghost predicate HoldsBits(out: seq<nat>, word: seq<bool>, live: int, stream: seq<bool>) {
    && |word| == 32 && 0 <= live <= 32
    && (forall k :: 0 <= k < |out| ==> out[k] < 256)
    && stream == ByteBits(out) + word[..live]
    && word[live..] == Zeros(32 - live)
  }

  lemma DropByte(out: seq<nat>, top: nat, a: seq<bool>, b: seq<bool>, live: int, stream: seq<bool>)
    requires HoldsBits(out, a, live, stream) && live >= 8
    requires top < 256 && Bits(top, 8) == a[..8] && b == a[8..] + Zeros(8)
    ensures HoldsBits(out + [top], b, live - 8, stream)
  {
    ByteBitsMore(out, top);
    assert a[..live] == a[..8] + b[..live - 8];
    assert b[live - 8..] == a[live..] + Zeros(8);
  }

  lemma ByteOut(out: seq<nat>, buff: nat, live: int, stream: seq<bool>)
    requires Holds(out, buff, live, stream) && live >= 8
    ensures Holds(out + [TopOf(buff)], Shl(buff, 8, 32), live - 8, stream)
  {
    TopByte(buff);
    Pow2Values();
    DropByte(out, TopOf(buff), Bits(buff, 32), Bits(Shl(buff, 8, 32), 32), live, stream);
  }

  lemma AddBits(out: seq<nat>, a: seq<bool>, b: seq<bool>, live: nat, stream: seq<bool>, more: seq<bool>)
    requires HoldsBits(out, a, live, stream) && |b| == 32 && live + |more| <= 32
    requires b[..live + |more|] == a[..live] + more && b[live + |more|..] == Zeros(32 - live - |more|)
    ensures HoldsBits(out, b, live + |more|, stream + more)
  {
  }

  lemma BitsIn(out: seq<nat>, buff: nat, live: nat, stream: seq<bool>, n: nat, v: nat)
    requires Holds(out, buff, live, stream) && live + n <= 32 && v < Pow2(n)
    ensures Holds(out, Or(buff, Shl(v, 32 - live - n, 32)), live + n, stream + Bits(v, n))
  {
    Pow2Values();
    OrPlaced(buff, live, v, n, 32);
    var buff' := Or(buff, Shl(v, 32 - live - n, 32));
    AddBits(out, Bits(buff, 32), Bits(buff', 32), live, stream, Bits(v, n));
  }

  /** The stream as whole bytes. */
  ghost predicate Padded(out: seq<nat>, stream: seq<bool>, pad: nat) {
    pad < 8 && ByteBits(out) == stream + Zeros(pad) && forall k :: 0 <= k < |out| ==> out[k] < 256
  }

  lemma NoneLeft(out: seq<nat>, buff: nat, live: int, stream: seq<bool>)
    requires Holds(out, buff, live, stream)
    ensures live == 0 ==> Padded(out, stream, 0)
  {
  }

  /** The last, partly filled byte. */
  lemma LastByteOut(out: seq<nat>, buff: nat, live: nat, stream: seq<bool>)
    requires Holds(out, buff, live, stream) && 0 < live < 8
    ensures Padded(out + [TopOf(buff)], stream, 8 - live)
  {
    TopByte(buff);
    ByteBitsMore(out, TopOf(buff));
    var a := Bits(buff, 32);
    assert a[..8] == a[..live] + a[live..8];
    assert a[live..8] == a[live..][..8 - live] == Zeros(8 - live);
  }

  class BitWriter {
    var out: seq<nat>
    var bsBuff: nat
    var bsLive: int
    ghost var stream: seq<bool>

    /** Between calls fewer than 32 bits are waiting. */
    ghost predicate Valid()
      reads this
    {
      Holds(out, bsBuff, bsLive, stream) && bsLive <= 31
    }

    constructor ()
      ensures Valid() && out == [] && stream == []
    {
      out, bsBuff, bsLive, stream := [], 0, 0, [];
      new;
      BitsOfZero(32);
    }

    method PutByte()
      requires Holds(out, bsBuff, bsLive, stream) && bsLive >= 8
      modifies this
      ensures Holds(out, bsBuff, bsLive, stream) && bsLive == old(bsLive) - 8 && stream == old(stream)
      ensures old(out) <= out
    {
      ByteOut(out, bsBuff, bsLive, stream);
      out := out + [TopOf(bsBuff)];
      bsBuff := Shl(bsBuff, 8, 32);
      bsLive := bsLive - 8;
    }

    /** `bsW`: the low `n` bits of `v`. */
    method Write(n: nat, v: nat)
      requires Valid() && n <= 24 && v < Pow2(n)
      modifies this
      ensures Valid() && stream == old(stream) + Bits(v, n) && old(out) <= out && n <= bsLive < n + 8
    {
      while bsLive >= 8
        invariant Valid() && stream == old(stream) && old(out) <= out
      {
        PutByte();
      }
      BitsIn(out, bsBuff, bsLive, stream, n, v);
      bsBuff := Or(bsBuff, Shl(v, 32 - bsLive - n, 32));
      bsLive := bsLive + n;
      stream := stream + Bits(v, n);
    }

    /** `bsW16`. */
    method Write16(v: nat)
      requires Valid() && v < 0x1_0000
      modifies this
      ensures Valid() && stream == old(stream) + Bits(v, 16) && old(out) <= out
    {
      while bsLive >= 8
        invariant Valid() && stream == old(stream) && old(out) <= out
      {
        PutByte();
      }
      Pow2Values();
      BitsIn(out, bsBuff, bsLive, stream, 16, v);
      bsBuff := Or(bsBuff, Shl(v, 16 - bsLive, 32));
      bsLive := bsLive + 16;
      stream := stream + Bits(v, 16);
    }

    /** `bsW1_1`. */
    method WriteOne()
      requires Valid()
      modifies this
      ensures Valid() && stream == old(stream) + [true] && old(out) <= out
    {
      if bsLive >= 8 {
        PutByte();
      }
      assert Bits(1, 1) == [true] && Pow2(1) == 2;
      BitsIn(out, bsBuff, bsLive, stream, 1, 1);
      bsBuff := Or(bsBuff, Shl(1, 31 - bsLive, 32));
      bsLive := bsLive + 1;
      stream := stream + [true];
    }

    /** `bsW1_0`: the buffer already holds a zero there. */
    method WriteZero()
      requires Valid()
      modifies this
      ensures Valid() && stream == old(stream) + [false] && old(out) <= out
    {
      if bsLive >= 8 {
        PutByte();
      }
      ghost var a := Bits(bsBuff, 32);
      assert !a[bsLive] by { assert a[bsLive] == a[bsLive..][0]; }
      assert a[..bsLive + 1] == a[..bsLive] + [false];
      assert a[bsLive + 1..] == a[bsLive..][1..] == Zeros(31 - bsLive);
      bsLive := bsLive + 1;
      stream := stream + [false];
    }

    /** `bsPutU32`, as two halves. */
    method Write32(u: nat)
      requires Valid() && u < 0x1_0000_0000
      modifies this
      ensures Valid() && stream == old(stream) + Bits(u, 32) && old(out) <= out
    {
      var high, low := u / 0x1_0000 % 0x1_0000, u % 0x1_0000;
      WordHalves(u);
      JoinHalves(stream, Bits(high, 16), Bits(low, 16));
      Write16(high);
      Write16(low);
    }

    /** One byte at the end of the stream, full or not. */
    method PutAnyByte() returns (ghost pad: nat)
      requires Holds(out, bsBuff, bsLive, stream) && bsLive > 0
      modifies this
      ensures bsLive == old(bsLive) - 8 && stream == old(stream) && old(out) <= out
      ensures if bsLive > 0 then Holds(out, bsBuff, bsLive, stream) else Padded(out, stream, pad)
    {
      ghost var out', buff' := out + [TopOf(bsBuff)], Shl(bsBuff, 8, 32);
      if bsLive >= 8 {
        ByteOut(out, bsBuff, bsLive, stream);
        NoneLeft(out', buff', bsLive - 8, stream);
        pad := 0;
      } else {
        LastByteOut(out, bsBuff, bsLive, stream);
        pad := 8 - bsLive;
      }
      out := out + [TopOf(bsBuff)];
      bsBuff := Shl(bsBuff, 8, 32);
      bsLive := bsLive - 8;
    }

    /** Fewer than 32 bits wait to go out. */
    lemma Waiting()
      requires Valid()
      ensures 8 * |out| <= |stream| <= 8 * |out| + 31
    {
    }

    /** `bsFinishWrite`: whole bytes, the last filled up with zeros. */
    method FinishWrite() returns (ghost pad: nat)
      requires Valid()
      modifies this
      ensures Padded(out, old(stream), pad) && old(out) <= out && bsLive <= 0
    {
      NoneLeft(out, bsBuff, bsLive, stream);
      pad := 0;
      while bsLive > 0
        invariant if bsLive > 0 then Holds(out, bsBuff, bsLive, stream) else Padded(out, stream, pad)
        invariant stream == old(stream) && old(out) <= out
        decreases bsLive
      {
        pad := PutAnyByte();
      }
    }
  }
}
