/** Numbers as bits, least significant first: taking apart and putting together. */
module LsbOps {
  import opened Arith
  import opened Powers
  import opened PrefixCode
  import opened LsbFirst
  import opened BitOps
  import opened BitStrings

  /** A number below 2^k under a multiple of 2^k: their bits side by side. */
  lemma {:induction false} LsbStacked(a: nat, k: nat, b: nat, n: nat)
    requires a < Pow2(k)
    ensures Lsb(a + b * Pow2(k), k + n) == Lsb(a, k) + Lsb(b, n)
    decreases k
  {
    if k == 0 {
      assert Pow2(0) == 1;
    } else {
      HalfStacked(a, b, Pow2(k - 1));
      LsbStacked(a / 2, k - 1, b, n);
    }
  }

  lemma HalfStacked(a: nat, b: nat, p: nat)
    ensures (a + b * (2 * p)) / 2 == a / 2 + b * p && (a + b * (2 * p)) % 2 == a % 2
  {
    Associate(b, 2, p);
    Associate(2, b, p);
    assert b * (2 * p) == 2 * (b * p);
  }

  lemma {:induction false} OrStacked(a: nat, k: nat, b: nat)
    requires a < Pow2(k)
    ensures Or(a, b * Pow2(k)) == a + b * Pow2(k)
    decreases k
  {
    if k == 0 {
      OrZero(b * Pow2(0));
    } else {
      HalfStacked(0, b, Pow2(k - 1));
      HalfStacked(a, b, Pow2(k - 1));
      OrHalves(a, b * Pow2(k));
      OrStacked(a / 2, k - 1, b);
    }
  }

  lemma {:induction false} OrZero(b: nat)
    ensures Or(0, b) == b
  {
    if b > 0 {
      OrZero(b / 2);
    }
  }

  lemma {:induction false} LsbModulo(x: nat, n: nat, width: nat)
    requires n <= width
    ensures Lsb(x % Pow2(width), n) == Lsb(x, n)
  {
    if n > 0 {
      HalfModulo(x, Pow2(width - 1));
      LsbModulo(x / 2, n - 1, width - 1);
    }
  }

  /** The low bits of a number, then the others. */
  lemma LsbSplit(x: nat, a: nat, b: nat, q: nat)
    requires q == x / Pow2(a)
    ensures Lsb(x, a + b) == Lsb(x, a) + Lsb(q, b)
  {
    var r: nat := x % Pow2(a);
    assert x == q * Pow2(a) + r;
    LsbStacked(r, a, q, b);
    LsbModulo(x, a, a);
  }

  lemma {:induction false} LsbZero(n: nat)
    ensures Lsb(0, n) == Zeros(n)
  {
    if n > 0 {
      LsbZero(n - 1);
      assert Zeros(n) == [false] + Zeros(n - 1);
    }
  }

  /** A number that fits `a` bits has zeros above them. */
  lemma LsbPadded(x: nat, a: nat, b: nat)
    requires x < Pow2(a)
    ensures Lsb(x, a + b) == Lsb(x, a) + Zeros(b)
  {
    LsbStacked(x, a, 0, b);
    LsbZero(b);
  }

  lemma StackedBound(a: nat, k: nat, b: nat, n: nat)
    requires a < Pow2(k) && b < Pow2(n)
    ensures a + b * Pow2(k) < Pow2(k + n)
  {
    Pow2Add(n, k);
    MulMono(b + 1, Pow2(n), Pow2(k));
    Distribute(b, 1, Pow2(k));
  }

  /** `bi_buf | value << bi_valid` when everything fits the buffer. */
  lemma PlacedFits(buf: nat, valid: nat, value: nat, len: nat, width: nat)
    requires buf < Pow2(valid) && value < Pow2(len) && valid + len <= width
    ensures var r := Or(buf, Shl(value, valid, width));
            r < Pow2(valid + len) && Lsb(r, valid + len) == Lsb(buf, valid) + Lsb(value, len)
  {
    StackedBound(0, valid, value, len);
    StackedBound(buf, valid, value, len);
    Pow2Mono(valid + len, width);
    SmallModulo(value * Pow2(valid), Pow2(width));
    OrStacked(buf, valid, value);
    LsbStacked(buf, valid, value, len);
  }

  lemma SmallModulo(x: nat, m: nat)
    requires x < m
    ensures x % m == x
  {
  }

  lemma PlacedLow(buf: nat, valid: nat, value: nat, width: nat)
    requires buf < Pow2(valid) && valid <= width
    ensures var r := Or(buf, Shl(value, valid, width));
            r < Pow2(width) && Lsb(r, width) == Lsb(buf, valid) + Lsb(value, width - valid)
  {
    var room := width - valid;
    Pow2Mono(valid, width);
    OrBound(buf, Shl(value, valid, width), width);
    OverModulo(value, valid, room);
    var low: nat := value % Pow2(room);
    OrStacked(buf, valid, low);
    LsbStacked(buf, valid, low, room);
    LsbModulo(value, room, room);
  }

  /** ... and when it runs over: the buffer is full and the value's upper bits are left. */
  lemma PlacedOver(buf: nat, valid: nat, value: nat, len: nat, width: nat, left: nat)
    requires buf < Pow2(valid) && value < Pow2(len) && valid <= width <= valid + len
    requires left == Shr(value, width - valid)
    ensures var r := Or(buf, Shl(value, valid, width));
            && r < Pow2(width) && left < Pow2(valid + len - width)
            && Lsb(r, width) + Lsb(left, valid + len - width) == Lsb(buf, valid) + Lsb(value, len)
  {
    var room := width - valid;
    PlacedLow(buf, valid, value, width);
    LsbSplit(value, room, len - room, left);
    Pow2Add(len - room, room);
    QuotientBelow(value, Pow2(len - room), Pow2(room));
    Regroup(Lsb(buf, valid), Lsb(value, room), Lsb(left, len - room));
  }

  /** What a shift keeps of a value that runs over. */
  lemma OverModulo(value: nat, valid: nat, room: nat)
    ensures (value * Pow2(valid)) % Pow2(valid + room) == (value % Pow2(room)) * Pow2(valid)
  {
    Pow2Add(room, valid);
    ScaledModulo(value, Pow2(room), Pow2(valid));
  }

  lemma ScaledModulo(value: nat, m: nat, p: nat)
    requires m > 0 && p > 0
    ensures m * p > 0 && (value * p) % (m * p) == (value % m) * p
  {
    var q, low := value / m, value % m;
    ScaledParts(value, m, p, q, low);
    ModuloIs(value * p, m * p, q, low * p);
  }

  lemma ScaledParts(value: nat, m: nat, p: nat, q: nat, low: nat)
    requires m > 0 && p > 0 && value == m * q + low && low < m
    ensures m * p > 0 && value * p == (m * p) * q + low * p && low * p < m * p
  {
    Distribute(m * q, low, p);
    Associate(m, q, p);
    Associate(m, p, q);
    MulMono(low + 1, m, p);
    Distribute(low, 1, p);
  }
}

/** The output of deflate: bits least significant first through a 32-bit buffer,
    bytes through an 8192-byte buffer. */
module LsbWriter {
  import opened Powers
  import opened LsbFirst
  import opened BitOps
  import opened BitStrings
  import opened LsbOps

  const OUTBUFSIZ := 8192

  ghost function LsbBytes(bytes: seq<nat>): (r: seq<bool>)
    ensures |r| == 8 * |bytes|
  {
    if bytes == [] then [] else LsbBytes(bytes[..|bytes| - 1]) + Lsb(bytes[|bytes| - 1], 8)
  }

  lemma LsbBytesMore(bytes: seq<nat>, b: nat)
    ensures LsbBytes(bytes + [b]) == LsbBytes(bytes) + Lsb(b, 8)
  {
    assert (bytes + [b])[..|bytes|] == bytes;
  }

  /** The bytes and the waiting bits make up the stream. */
  ghost predicate Holds(bytes: seq<nat>, buf: nat, valid: nat, stream: seq<bool>) {
    valid < 32 && buf < Pow2(valid) && stream == LsbBytes(bytes) + Lsb(buf, valid)
  }

  /** A number written as `k` bytes, low byte first. */
  function LowBytes(v: nat, k: nat): (r: seq<nat>)
    ensures |r| == k && forall i :: 0 <= i < k ==> r[i] < 256
  {
    if k == 0 then [] else [v % 256] + LowBytes(v / 256, k - 1)
  }

  lemma {:induction false} LsbBytesJoin(a: seq<nat>, b: seq<nat>)
    ensures LsbBytes(a + b) == LsbBytes(a) + LsbBytes(b)
    decreases |b|
  {
    if b == [] {
      assert a + b == a;
    } else {
      var b', x := b[..|b| - 1], b[|b| - 1];
      LsbBytesJoin(a, b');
      assert a + b == a + b' + [x];
      LsbBytesMore(a + b', x);
      Regroup(LsbBytes(a), LsbBytes(b'), Lsb(x, 8));
    }
  }

  lemma LsbByte(v: nat, n: nat)
    ensures Lsb(v, 8 + n) == Lsb(v % 256, 8) + Lsb(v / 256, n)
  {
    Pow2Values();
    LsbSplit(v, 8, n, v / 256);
    LsbModulo(v, 8, 8);
  }

  lemma LsbOneByte(b: nat)
    ensures LsbBytes([b]) == Lsb(b, 8)
  {
    LsbBytesMore([], b);
    assert [] + [b] == [b] && LsbBytes([]) == [];
  }

  lemma {:induction false} LowBytesBits(v: nat, k: nat)
    ensures LsbBytes(LowBytes(v, k)) == Lsb(v, 8 * k)
  {
    if k > 0 {
      LowBytesBits(v / 256, k - 1);
      LsbByte(v, 8 * (k - 1));
      LsbBytesJoin([v % 256], LowBytes(v / 256, k - 1));
      LsbOneByte(v % 256);
    }
  }

  /** Sending a value that leaves room in the buffer. */
  lemma SendFits(bytes: seq<nat>, buf: nat, valid: nat, stream: seq<bool>, value: nat, len: nat)
    requires Holds(bytes, buf, valid, stream) && value < Pow2(len) && valid + len < 32
    ensures Holds(bytes, Or(buf, Shl(value, valid, 32)), valid + len, stream + Lsb(value, len))
  {
    PlacedFits(buf, valid, value, len, 32);
    Regroup(LsbBytes(bytes), Lsb(buf, valid), Lsb(value, len));
  }

  /** Sending a value that fills the buffer. */
  lemma SendOver(bytes: seq<nat>, buf: nat, valid: nat, stream: seq<bool>, value: nat, len: nat, left: nat)
    requires Holds(bytes, buf, valid, stream) && value < Pow2(len) && 32 <= valid + len && len < 32
    requires left == Shr(value, 32 - valid)
    ensures Holds(bytes + LowBytes(Or(buf, Shl(value, valid, 32)), 4), left, valid + len - 32, stream + Lsb(value, len))
  {
    var full := Or(buf, Shl(value, valid, 32));
    PlacedOver(buf, valid, value, len, 32, left);
    LowBytesBits(full, 4);
    LsbBytesJoin(bytes, LowBytes(full, 4));
    Regroup(LsbBytes(bytes), Lsb(buf, valid), Lsb(value, len));
    Regroup(LsbBytes(bytes), Lsb(full, 32), Lsb(left, valid + len - 32));
  }

  class Output {
    const outbuf: array<nat>
    var outcnt: nat
    var written: seq<nat>
    var bi_buf: nat
    var bi_valid: nat
    ghost var stream: seq<bool>

    /** All bytes so far, written out or buffered. */
    ghost function Bytes(): (r: seq<nat>)
      reads this, outbuf
      requires outcnt <= outbuf.Length
    {
      written + outbuf[..outcnt]
    }

    /** Between calls there is always room for a byte. */
    ghost predicate Room()
      reads this
    {
      outbuf.Length == OUTBUFSIZ && outcnt < OUTBUFSIZ
    }

    ghost predicate Valid()
      reads this, outbuf
    {
      Room() && Holds(Bytes(), bi_buf, bi_valid, stream)
    }

    constructor ()
      ensures Valid() && stream == [] && Bytes() == [] && fresh(outbuf)
    {
      outbuf := new nat[OUTBUFSIZ](i => 0);
      outcnt, written, bi_buf, bi_valid, stream := 0, [], 0, 0, [];
      new;
      assert Pow2(0) == 1;
    }

    /** `flush_outbuf`. */
    method FlushOutbuf()
      requires outcnt <= outbuf.Length
      modifies this`outcnt, this`written
      ensures outcnt == 0 && Bytes() == old(Bytes())
    {
      if outcnt == 0 {
        return;
      }
      written := written + outbuf[..outcnt];
      outcnt := 0;
    }

    /** Everything written, once the bits have been wound up. */
    method AllBytes() returns (out: seq<nat>)
      requires Valid() && bi_valid == 0
      ensures LsbBytes(out) == stream
    {
      out := written + outbuf[..outcnt];
      assert Lsb(bi_buf, 0) == [] && LsbBytes(out) + [] == LsbBytes(out);
    }

    /** One byte of compressed output. */
    method Put8(b: nat)
      requires Room() && b < 256
      modifies this`outcnt, this`written, outbuf
      ensures Room() && Bytes() == old(Bytes()) + [b]
    {
      ghost var before := Bytes();
      outbuf[outcnt] := b;
      outcnt := outcnt + 1;
      assert outbuf[..outcnt] == old(outbuf[..outcnt]) + [b];
      assert Bytes() == before + [b];
      if outcnt == OUTBUFSIZ {
        FlushOutbuf();
      }
    }

    /** `put_16bit`: in one store, or byte by byte where the buffer fills. */
    method Put16(w: nat)
      requires Room() && w < 0x1_0000
      modifies this`outcnt, this`written, outbuf
      ensures Room() && Bytes() == old(Bytes()) + LowBytes(w, 2)
    {
      ghost var before := Bytes();
      TwoBytes(w);
      if outcnt < OUTBUFSIZ - 2 {
        outbuf[outcnt], outbuf[outcnt + 1] := w % 256, w / 256;
        outcnt := outcnt + 2;
        assert outbuf[..outcnt] == old(outbuf[..outcnt]) + [w % 256, w / 256];
        return;
      }
      Put8(w % 256);
      Put8(w / 256);
    }

    /** `put_32bit`. */
    method Put32(n: nat)
      requires Room() && n < 0x1_0000_0000
      modifies this`outcnt, this`written, outbuf
      ensures Room() && Bytes() == old(Bytes()) + LowBytes(n, 4)
    {
      FourBytes(n);
      Put16(n % 0x1_0000);
      Put16(n / 0x1_0000);
    }

    /** A value that fills the buffer: the buffer goes out, the value's upper bits stay. */
    method SendFull(value: nat, length: nat)
      requires Valid() && length <= 16 && value < Pow2(length) && bi_valid + length >= 32
      modifies this, outbuf
      ensures Valid() && stream == old(stream) + Lsb(value, length)
    {
      var newBuf := Or(bi_buf, Shl(value, bi_valid, 32));
      var left := Shr(value, 32 - bi_valid);
      SendOver(Bytes(), bi_buf, bi_valid, stream, value, length, left);
      FullFits(bi_buf, bi_valid, value, length);
      Put32(newBuf);
      bi_buf, bi_valid := left, bi_valid + length - 32;
      stream := stream + Lsb(value, length);
    }

    /** `send_bits`. */
    method SendBits(value: nat, length: nat)
      requires Valid() && length <= 16 && value < Pow2(length)
      modifies this, outbuf
      ensures Valid() && stream == old(stream) + Lsb(value, length)
    {
      if length + bi_valid >= 32 {
        SendFull(value, length);
      } else {
        SendFits(Bytes(), bi_buf, bi_valid, stream, value, length);
        bi_buf, bi_valid := Or(bi_buf, Shl(value, bi_valid, 32)), bi_valid + length;
        stream := stream + Lsb(value, length);
      }
    }

    /** Four bytes on a byte boundary. */
    method PutWord(n: nat)
      requires Valid() && bi_valid == 0 && n < 0x1_0000_0000
      modifies this`outcnt, this`written, this`stream, outbuf
      ensures Valid() && bi_valid == 0 && stream == old(stream) + Lsb(n, 32)
    {
      AlignedBytes(Bytes(), bi_buf, stream, n, 4);
      Put32(n);
      stream := stream + Lsb(n, 32);
    }

    /** One byte on a byte boundary. */
    method PutByte(b: nat)
      requires Valid() && bi_valid == 0 && b < 256
      modifies this`outcnt, this`written, this`stream, outbuf
      ensures Valid() && bi_valid == 0 && stream == old(stream) + Lsb(b, 8)
    {
      AlignedBytes(Bytes(), bi_buf, stream, b, 1);
      LowByte(b);
      Put8(b);
      stream := stream + Lsb(b, 8);
    }

    /** Enough whole bytes for `valid` bits. */
    method PutBits(bits0: nat, valid: nat)
      requires Room()
      modifies this`outcnt, this`written, outbuf
      ensures Room() && Bytes() == old(Bytes()) + LowBytes(bits0, (valid + 7) / 8)
    {
      var bits, cnt: int := bits0, valid;
      ghost var whole, left: nat := Bytes() + LowBytes(bits0, (valid + 7) / 8), (valid + 7) / 8;
      while cnt > 0
        invariant Room() && cnt <= 8 * left && 8 * left < cnt + 8
        invariant Bytes() + LowBytes(bits, left) == whole
        decreases cnt
      {
        NextByte(Bytes(), bits, left);
        Put8(bits % 256);
        bits := bits / 256;
        cnt := cnt - 8;
        left := left - 1;
      }
      assert Bytes() + [] == Bytes();
    }

    /** `bi_windup`: the waiting bits as bytes, the last filled up with zeros. */
    method WindUp() returns (ghost pad: nat)
      requires Valid()
      modifies this, outbuf
      ensures Valid() && bi_valid == 0 && pad < 8 && stream == old(stream) + Zeros(pad) && |stream| % 8 == 0
    {
      pad := WoundUp(Bytes(), bi_buf, bi_valid, stream);
      PutBits(bi_buf, bi_valid);
      bi_buf, bi_valid := 0, 0;
      stream := stream + Zeros(pad);
    }
  }

  /** Whole bytes on a byte boundary. */
  lemma AlignedBytes(bytes: seq<nat>, buf: nat, stream: seq<bool>, v: nat, k: nat)
    requires Holds(bytes, buf, 0, stream)
    ensures Holds(bytes + LowBytes(v, k), buf, 0, stream + Lsb(v, 8 * k))
  {
    LsbBytesJoin(bytes, LowBytes(v, k));
    LowBytesBits(v, k);
    NoneWaits(LsbBytes(bytes), buf);
    NoneWaits(LsbBytes(bytes) + Lsb(v, 8 * k), buf);
  }

  lemma NoneWaits(s: seq<bool>, buf: nat)
    ensures s + Lsb(buf, 0) == s
  {
  }

  lemma LowByte(b: nat)
    requires b < 256
    ensures LowBytes(b, 1) == [b]
  {
    assert LowBytes(b, 1) == [b % 256] + LowBytes(b / 256, 0);
  }

  lemma NextByte(bytes: seq<nat>, bits: nat, left: nat)
    requires left > 0
    ensures bytes + [bits % 256] + LowBytes(bits / 256, left - 1) == bytes + LowBytes(bits, left)
  {
  }

  /** The stream once its waiting bits are bytes. */
  lemma WoundUp(bytes: seq<nat>, buf: nat, valid: nat, stream: seq<bool>) returns (pad: nat)
    requires Holds(bytes, buf, valid, stream)
    ensures pad < 8 && Holds(bytes + LowBytes(buf, (valid + 7) / 8), 0, 0, stream + Zeros(pad))
    ensures |stream + Zeros(pad)| % 8 == 0
  {
    var k := (valid + 7) / 8;
    pad := 8 * k - valid;
    WindUpBits(bytes, buf, valid, stream, k, pad);
    assert Pow2(0) == 1 && Lsb(0, 0) == [];
  }

  /** The waiting bits, filled up with zeros, as bytes. */
  lemma WindUpBits(bytes: seq<nat>, buf: nat, valid: nat, stream: seq<bool>, k: nat, pad: nat)
    requires Holds(bytes, buf, valid, stream) && 8 * k == valid + pad
    ensures LsbBytes(bytes + LowBytes(buf, k)) == stream + Zeros(pad)
  {
    LsbBytesJoin(bytes, LowBytes(buf, k));
    LowBytesBits(buf, k);
    LsbPadded(buf, valid, pad);
    Regroup(LsbBytes(bytes), Lsb(buf, valid), Zeros(pad));
  }

  lemma FourBytes(n: nat)
    requires n < 0x1_0000_0000
    ensures LowBytes(n % 0x1_0000, 2) + LowBytes(n / 0x1_0000, 2) == LowBytes(n, 4)
  {
    var a, b := n % 0x1_0000, n / 0x1_0000;
    TwoBytes(a);
    TwoBytes(b);
    assert LowBytes(n, 4) == [n % 256] + LowBytes(n / 256, 3);
    assert LowBytes(n / 256, 3) == [n / 256 % 256] + LowBytes(n / 256 / 256, 2);
    assert n / 256 / 256 == b && a % 256 == n % 256 && a / 256 == n / 256 % 256;
  }

  lemma TwoBytes(w: nat)
    requires w < 0x1_0000
    ensures LowBytes(w, 2) == [w % 256, w / 256]
  {
    assert LowBytes(w / 256, 1) == [w / 256] + LowBytes(w / 256 / 256, 0);
  }

  lemma FullFits(buf: nat, valid: nat, value: nat, len: nat)
    requires buf < Pow2(valid) && valid < 32
    ensures Or(buf, Shl(value, valid, 32)) < 0x1_0000_0000
  {
    Pow2Values();
    Pow2Mono(valid, 32);
    OrBound(buf, Shl(value, valid, 32), 32);
  }
}
