/** Bit strings read least significant bit first, as deflate packs them. */
module LsbFirst {
  import opened Powers
  import opened PrefixCode

  /** The low `len` bits of a number, least significant first. */
  function Lsb(v: nat, len: nat): (r: seq<bool>)
    ensures |r| == len
  {
    if len == 0 then [] else [v % 2 == 1] + Lsb(v / 2, len - 1)
  }

  function Reversed(s: seq<bool>): (r: seq<bool>)
    ensures |r| == |s|
  {
    if s == [] then [] else Reversed(s[1..]) + [s[0]]
  }

  lemma {:induction false} LsbIsReversedBits(v: nat, len: nat)
    ensures Reversed(Lsb(v, len)) == Bits(v, len)
  {
    if len > 0 {
      LsbIsReversedBits(v / 2, len - 1);
      assert Lsb(v, len)[1..] == Lsb(v / 2, len - 1);
    }
  }

  lemma {:induction false} ReversedLast(s: seq<bool>, b: bool)
    ensures Reversed(s + [b]) == [b] + Reversed(s)
  {
    if s != [] {
      ReversedLast(s[1..], b);
      assert (s + [b])[1..] == s[1..] + [b];
    }
  }

  /** Writing the value of a bit string least significant bit first reverses it. */
  lemma {:induction false} LsbOfValue(s: seq<bool>)
    ensures Lsb(Value(s), |s|) == Reversed(s)
  {
    if s != [] {
      var init, last := s[..|s| - 1], s[|s| - 1];
      LsbOfValue(init);
      ReversedLast(init, last);
      assert s == init + [last];
    }
  }

  lemma {:induction false} ValueBound(s: seq<bool>)
    ensures Value(s) < Pow2(|s|)
  {
    if s != [] {
      ValueBound(s[..|s| - 1]);
    }
  }

  lemma {:induction false} LsbNext(v: nat, i: nat)
    ensures Lsb(v, i + 1) == Lsb(v, i) + [(v / Pow2(i)) % 2 == 1]
  {
    if i > 0 {
      LsbNext(v / 2, i - 1);
      DivTwice(v, Pow2(i - 1));
    }
  }
}

/** `bi_reverse` and `gen_codes`. */
module GenCodes {
  import opened Powers
  import opened PrefixCode
  import opened LsbFirst
  import opened GenBitlen

  /** `bi_reverse`: the code's bits in the opposite order. */
  method BiReverse(code0: nat, len0: nat) returns (res: nat)
    requires 1 <= len0 <= MAX_BITS
    ensures Lsb(res, len0) == Bits(code0, len0)
    ensures res < Pow2(len0)
  {
    res := 0;
    var code, len := code0, len0;
    ghost var i := 0;
    assert Pow2(0) == 1;
    while true
      invariant 0 <= i < len0 && len == len0 - i
      invariant code == code0 / Pow2(i)
      invariant i == 0 ==> res == 0
      invariant i > 0 ==> res == 2 * Value(Lsb(code0, i))
      decreases len
    {
      res := res + code % 2;
      LsbNext(code0, i);
      assert Lsb(code0, i + 1)[..i] == Lsb(code0, i);
      assert res == Value(Lsb(code0, i + 1));
      len := len - 1;
      if len <= 0 {
        break;
      }
      DivTwice(code0, Pow2(i));
      DivSwap(code0, Pow2(i));
      code := code / 2;
      res := res * 2;
      i := i + 1;
    }
    LsbOfValue(Lsb(code0, len0));
    LsbIsReversedBits(code0, len0);
    ValueBound(Lsb(code0, len0));
  }

  lemma DivSwap(x: nat, d: nat)
    requires d > 0
    ensures x / d / 2 == x / (2 * d)
  {
    var q := x / d;
    assert x == d * q + x % d;
    var h := q / 2;
    assert q == 2 * h + q % 2;
    DivSwapBound(x, d, q, h);
    DivIs(x, 2 * d, h);
  }

  lemma DivSwapBound(x: nat, d: nat, q: nat, h: nat)
    requires d > 0 && d * q <= x < d * q + d && 2 * h <= q <= 2 * h + 1
    ensures (2 * d) * h <= x < (2 * d) * h + 2 * d
  {
    if q == 2 * h {
      assert d * q == (2 * d) * h;
    } else {
      assert d * q == (2 * d) * h + d;
    }
  }

  /** The next free code of each length after the symbols below `n`. */
  ghost predicate NextFree(lens: seq<nat>, next: seq<nat>, n: nat) {
    && |next| == MAX_BITS + 1 && n <= |lens|
    && forall b :: 1 <= b <= MAX_BITS ==> next[b] == NextCode(lens, b) + CountLen(lens, b, n)
  }

  method FirstCodes(ghost lens: seq<nat>, blCount: array<nat>, nextCode: array<nat>)
    requires blCount.Length == nextCode.Length == MAX_BITS + 1 && blCount != nextCode
    requires blCount[0] == 0 && forall b :: 1 <= b <= MAX_BITS ==> blCount[b] == CountLen(lens, b, |lens|)
    modifies nextCode
    ensures NextFree(lens, nextCode[..], 0)
  {
    var code, bits := 0, 1;
    while bits <= 15
      invariant 1 <= bits <= 16 && code == NextCode(lens, bits - 1)
      invariant forall b :: 1 <= b < bits ==> nextCode[b] == NextCode(lens, b)
    {
      code := (code + blCount[bits - 1]) * 2;
      nextCode[bits] := code;
      bits := bits + 1;
    }
  }

  lemma NextFreeStep(lens: seq<nat>, next: seq<nat>, n: nat)
    requires NextFree(lens, next, n) && n < |lens| && lens[n] <= MAX_BITS
    ensures NextFree(lens, if lens[n] == 0 then next else next[lens[n] := next[lens[n]] + 1], n + 1)
    ensures lens[n] > 0 ==> next[lens[n]] == Code(lens, n)
  {
  }

  /** What the stream carries for symbol `n` is its canonical code. */
  ghost predicate Coded(lens: seq<nat>, c: nat, n: nat)
    requires n < |lens|
  {
    lens[n] > 0 ==> Lsb(c, lens[n]) == Encode(lens, n) && c < Pow2(lens[n])
  }

  /** `gen_codes`: every symbol gets its canonical code, bits reversed for the LSB-first stream. */
  method Gen(fc: array<nat>, dl: array<nat>, elems: nat, maxCode: int, blCount: array<nat>)
    requires fc != dl && blCount !in {fc, dl} && blCount.Length == MAX_BITS + 1
    requires -1 <= maxCode < elems <= dl.Length && elems <= fc.Length
    requires forall n :: 0 <= n < elems ==> dl[n] <= MAX_BITS
    requires forall n :: maxCode < n < elems ==> dl[n] == 0
    requires blCount[0] == 0 && forall b :: 1 <= b <= MAX_BITS ==> blCount[b] == CountLen(dl[..elems], b, elems)
    modifies fc
    ensures forall n :: 0 <= n < elems ==> Coded(dl[..elems], fc[n], n)
    ensures forall n :: 0 <= n < fc.Length && (n >= elems || dl[n] == 0) ==> fc[n] == old(fc[n])
  {
    ghost var lens := dl[..elems];
    var nextCode := new nat[16];
    FirstCodes(lens, blCount, nextCode);
    var n := 0;
    while n <= maxCode
      invariant 0 <= n <= maxCode + 1 && NextFree(lens, nextCode[..], n)
      invariant forall i :: 0 <= i < n ==> Coded(lens, fc[i], i)
      invariant forall i :: 0 <= i < fc.Length && (i >= n || lens[i] == 0) ==> fc[i] == old(fc[i])
    {
      GenOne(lens, fc, nextCode, n, dl[n]);
      n := n + 1;
    }
  }

  /** The code of one symbol, if it has one. */
  method GenOne(ghost lens: seq<nat>, fc: array<nat>, nextCode: array<nat>, n: nat, len: nat)
    requires fc != nextCode && NextFree(lens, nextCode[..], n) && n < |lens| && n < fc.Length
    requires lens[n] == len <= MAX_BITS
    modifies fc, nextCode
    ensures NextFree(lens, nextCode[..], n + 1) && Coded(lens, fc[n], n)
    ensures forall i :: 0 <= i < fc.Length && (i != n || len == 0) ==> fc[i] == old(fc[i])
  {
    if len != 0 {
      var code := TakeCode(lens, nextCode, n, len);
      fc[n] := BiReverse(code, len);
    } else {
      NextFreeStep(lens, nextCode[..], n);
    }
  }

  /** The next code of the symbol's length. */
  method TakeCode(ghost lens: seq<nat>, nextCode: array<nat>, ghost n: nat, len: nat) returns (code: nat)
    requires NextFree(lens, nextCode[..], n) && n < |lens| && 0 < lens[n] == len <= MAX_BITS
    modifies nextCode
    ensures NextFree(lens, nextCode[..], n + 1) && code == Code(lens, n)
  {
    ghost var next: seq<nat> := nextCode[..];
    NextFreeStep(lens, next, n);
    code := nextCode[len];
    nextCode[len] := code + 1;
    assert nextCode[..] == next[len := code + 1];
  }
}
