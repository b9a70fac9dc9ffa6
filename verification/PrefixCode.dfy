/** Canonical prefix codes: the code both compressors derive from a vector of
    code lengths, as in section 3.2.2 of RFC 1951. Length 0 means unused. */
module PrefixCode {
  import opened Arith
  import opened Powers

  /** Symbols below `m` with code length `b`. */
  ghost function CountLen(lens: seq<nat>, b: nat, m: nat): (r: nat)
    requires m <= |lens|
    ensures r <= m
  {
    if m == 0 then 0 else CountLen(lens, b, m - 1) + if lens[m - 1] == b then 1 else 0
  }

  /** How many codes there are of length `b`; none of length 0. */
  ghost function Codes(lens: seq<nat>, b: nat): (r: nat) {
    if b == 0 then 0 else CountLen(lens, b, |lens|)
  }

  /** The first code of length `b`. */
  ghost function NextCode(lens: seq<nat>, b: nat): (r: nat) {
    if b == 0 then 0 else 2 * (NextCode(lens, b - 1) + Codes(lens, b - 1))
  }

  /** The canonical code of a symbol: codes of one length are consecutive in symbol order. */
  ghost function Code(lens: seq<nat>, sym: nat): (r: nat)
    requires sym < |lens|
  {
    NextCode(lens, lens[sym]) + CountLen(lens, lens[sym], sym)
  }

  /** The code space the first `m` symbols take, in units of 2^-top. */
  ghost function Kraft(lens: seq<nat>, top: nat, m: nat): (r: nat)
    requires m <= |lens|
  {
    if m == 0 then 0
    else Kraft(lens, top, m - 1) + if 0 < lens[m - 1] <= top then Pow2(top - lens[m - 1]) else 0
  }

  /** The code space taken by lengths below `b`. */
  ghost function SpaceBelow(lens: seq<nat>, top: nat, b: nat): (r: nat)
    requires b <= top + 1
  {
    if b == 0 then 0 else SpaceBelow(lens, top, b - 1) + Codes(lens, b - 1) * Pow2(top - (b - 1))
  }

  /** A usable code: every length at most `top`, and the code space not exceeded. */
  ghost predicate Fits(lens: seq<nat>, top: nat) {
    && (forall i :: 0 <= i < |lens| ==> lens[i] <= top)
    && Kraft(lens, top, |lens|) <= Pow2(top)
  }

  /** ... and a complete one, with nothing left over. */
  ghost predicate Complete(lens: seq<nat>, top: nat) {
    && (forall i :: 0 <= i < |lens| ==> lens[i] <= top)
    && Kraft(lens, top, |lens|) == Pow2(top)
  }

  lemma {:induction false} KraftGrows(lens: seq<nat>, top: nat, a: nat, b: nat)
    requires a <= b <= |lens|
    ensures Kraft(lens, top, a) <= Kraft(lens, top, b)
    decreases b
  {
    if a < b {
      KraftGrows(lens, top, a, b - 1);
    }
  }

  lemma {:induction false} KraftSame(a: seq<nat>, b: seq<nat>, top: nat, m: nat)
    requires m <= |a| && m <= |b| && forall i :: 0 <= i < m ==> a[i] == b[i]
    ensures Kraft(a, top, m) == Kraft(b, top, m)
  {
    if m > 0 {
      KraftSame(a, b, top, m - 1);
    }
  }

  // ----- the Kraft sum by symbol and by length agree -----

  ghost function CodesTo(lens: seq<nat>, b: nat, m: nat): (r: nat)
    requires m <= |lens|
  {
    if b == 0 then 0 else CountLen(lens, b, m)
  }

  ghost function SpaceTo(lens: seq<nat>, top: nat, b: nat, m: nat): (r: nat)
    requires b <= top + 1 && m <= |lens|
  {
    if b == 0 then 0 else SpaceTo(lens, top, b - 1, m) + CodesTo(lens, b - 1, m) * Pow2(top - (b - 1))
  }

  lemma {:induction false} SpaceStep(lens: seq<nat>, top: nat, b: nat, m: nat)
    requires b <= top + 1 && m < |lens|
    ensures SpaceTo(lens, top, b, m + 1) ==
            SpaceTo(lens, top, b, m) + if 0 < lens[m] < b then Pow2(top - lens[m]) else 0
    decreases b
  {
    if b > 0 {
      SpaceStep(lens, top, b - 1, m);
      var c, w := CodesTo(lens, b - 1, m), Pow2(top - (b - 1));
      if lens[m] == b - 1 && b > 1 {
        assert CodesTo(lens, b - 1, m + 1) == c + 1;
        Distribute(c, 1, w);
      } else {
        assert CodesTo(lens, b - 1, m + 1) == c;
      }
    }
  }

  lemma {:induction false} SpaceNone(lens: seq<nat>, top: nat, b: nat)
    requires b <= top + 1
    ensures SpaceTo(lens, top, b, 0) == 0
  {
    if b > 0 {
      SpaceNone(lens, top, b - 1);
    }
  }

  lemma {:induction false} KraftIsSpace(lens: seq<nat>, top: nat, m: nat)
    requires m <= |lens|
    ensures Kraft(lens, top, m) == SpaceTo(lens, top, top + 1, m)
  {
    if m == 0 {
      SpaceNone(lens, top, top + 1);
    } else {
      KraftIsSpace(lens, top, m - 1);
      SpaceStep(lens, top, top + 1, m - 1);
    }
  }

  lemma {:induction false} SpaceAll(lens: seq<nat>, top: nat, b: nat)
    requires b <= top + 1
    ensures SpaceTo(lens, top, b, |lens|) == SpaceBelow(lens, top, b)
  {
    if b > 0 {
      SpaceAll(lens, top, b - 1);
    }
  }

  lemma {:induction false} SpaceMono(lens: seq<nat>, top: nat, b: nat, b': nat)
    requires b <= b' <= top + 1
    ensures SpaceBelow(lens, top, b) <= SpaceBelow(lens, top, b')
    decreases b'
  {
    if b < b' {
      SpaceMono(lens, top, b, b' - 1);
      MulMono(0, Codes(lens, b' - 1), Pow2(top - (b' - 1)));
    }
  }

  // ----- codes as intervals of the code space -----

  /** The first code of length `b`, scaled up, starts right after all shorter codes. */
  lemma {:induction false} NextCodeScaled(lens: seq<nat>, top: nat, b: nat)
    requires b <= top
    ensures NextCode(lens, b) * Pow2(top - b) == SpaceBelow(lens, top, b)
  {
    if b > 0 {
      NextCodeScaled(lens, top, b - 1);
      var x, c, w := NextCode(lens, b - 1), Codes(lens, b - 1), Pow2(top - b);
      assert Pow2(top - (b - 1)) == w * 2;
      Associate(x + c, 2, w);
      Distribute(x, c, 2 * w);
    }
  }

  lemma {:induction false} CountLenMono(lens: seq<nat>, b: nat, m: nat, m': nat)
    requires m <= m' <= |lens|
    ensures CountLen(lens, b, m) <= CountLen(lens, b, m')
    decreases m'
  {
    if m < m' {
      CountLenMono(lens, b, m, m' - 1);
    }
  }

  /** A symbol's interval lies between the codes of shorter and of longer length. */
  lemma CodeInterval(lens: seq<nat>, top: nat, a: nat)
    requires a < |lens| && 0 < lens[a] <= top
    ensures SpaceBelow(lens, top, lens[a]) <= Code(lens, a) * Pow2(top - lens[a])
    ensures (Code(lens, a) + 1) * Pow2(top - lens[a]) <= SpaceBelow(lens, top, lens[a] + 1)
  {
    var b := lens[a];
    NextCodeScaled(lens, top, b);
    CountLenMono(lens, b, a + 1, |lens|);
    Stacked(NextCode(lens, b), CountLen(lens, b, a), Codes(lens, b), Pow2(top - b));
  }

  lemma Stacked(x: nat, r: nat, c: nat, w: nat)
    requires r + 1 <= c
    ensures x * w <= (x + r) * w
    ensures (x + r + 1) * w <= x * w + c * w
  {
    MulMono(x, x + r, w);
    Distribute(x, r + 1, w);
    MulMono(r + 1, c, w);
  }

  /** The whole code space bounds every code. */
  lemma CodeFits(lens: seq<nat>, top: nat, a: nat)
    requires Fits(lens, top) && a < |lens| && 0 < lens[a]
    ensures Code(lens, a) < Pow2(lens[a])
  {
    var b := lens[a];
    CodeInterval(lens, top, a);
    SpaceMono(lens, top, b + 1, top + 1);
    SpaceAll(lens, top, top + 1);
    KraftIsSpace(lens, top, |lens|);
    Pow2Add(b, top - b);
    Unscaled(Code(lens, a), Pow2(b), Pow2(top - b));
  }

  lemma Unscaled(c: nat, x: nat, w: nat)
    requires w > 0 && (c + 1) * w <= x * w
    ensures c < x
  {
    Distribute(c, 1, w);
    MulLess(c, x, w);
  }

  /** Dropping the last bits of a longer code never yields a shorter one. */
  lemma CodesDiffer(lens: seq<nat>, top: nat, a: nat, b: nat)
    requires Fits(lens, top) && a < |lens| && b < |lens| && a != b && 0 < lens[a] <= lens[b]
    ensures Code(lens, b) / Pow2(lens[b] - lens[a]) != Code(lens, a)
  {
    var la, lb := lens[a], lens[b];
    if la == lb {
      if a < b {
        CountLenMono(lens, la, a + 1, b);
      } else {
        CountLenMono(lens, la, b + 1, a);
      }
      assert Pow2(0) == 1;
    } else {
      CodeInterval(lens, top, a);
      CodeInterval(lens, top, b);
      SpaceMono(lens, top, la + 1, lb);
      Pow2Add(lb - la, top - lb);
      ScaledBelow(Code(lens, a), Code(lens, b), Pow2(lb - la), Pow2(top - lb));
    }
  }

  lemma ScaledBelow(ca: nat, cb: nat, d: nat, w: nat)
    requires d > 0 && w > 0 && (ca + 1) * (d * w) <= cb * w
    ensures cb / d > ca
  {
    Associate(ca + 1, d, w);
    Distribute(cb, 1, w);
    MulLess((ca + 1) * d, cb + 1, w);
    DivAtLeast(ca + 1, cb, d);
  }

  // ----- codes as bit strings -----

  datatype Option<T> = None | Some(value: T)

  /** The low `len` bits of a number, most significant first. */
  function Bits(code: nat, len: nat): (r: seq<bool>)
    ensures |r| == len
  {
    if len == 0 then [] else Bits(code / 2, len - 1) + [code % 2 == 1]
  }

  /** The number a bit string spells, most significant bit first. */
  function Value(bits: seq<bool>): (r: nat) {
    if bits == [] then 0 else 2 * Value(bits[..|bits| - 1]) + if bits[|bits| - 1] then 1 else 0
  }

  lemma {:induction false} ValueOfBits(code: nat, len: nat)
    requires code < Pow2(len)
    ensures Value(Bits(code, len)) == code
  {
    if len > 0 {
      ValueOfBits(code / 2, len - 1);
      assert Bits(code, len)[..len - 1] == Bits(code / 2, len - 1);
    }
  }

  lemma {:induction false} BitsPrefix(code: nat, len: nat, k: nat)
    requires k <= len
    ensures Bits(code, len)[..k] == Bits(code / Pow2(len - k), k)
    decreases len - k
  {
    if k == len {
      assert Pow2(0) == 1;
    } else {
      BitsPrefix(code / 2, len - 1, k);
      assert Bits(code, len)[..k] == Bits(code / 2, len - 1)[..k];
      DivTwice(code, Pow2(len - 1 - k));
    }
  }

  lemma DivTwice(x: nat, d: nat)
    requires d > 0
    ensures x / 2 / d == x / (2 * d)
  {
    var h := x / 2;
    var q := h / d;
    Associate(2, d, q);
    assert h == d * q + h % d;
    DivIs(x, 2 * d, q);
  }

  lemma DivIs(x: nat, d: nat, q: nat)
    requires d > 0 && d * q <= x < d * q + d
    ensures x / d == q
  {
    Distribute(q, 1, d);
    DivAtLeast(q, x, d);
    MulLess(x / d, q + 1, d);
  }

  /** The leading `k` digits of a number fit `k` digits. */
  lemma LeadingDigits(code: nat, len: nat, k: nat)
    requires k <= len && code < Pow2(len)
    ensures 0 <= code / Pow2(len - k) < Pow2(k)
  {
    Pow2Add(k, len - k);
    QuotientBelow(code, Pow2(k), Pow2(len - k));
  }

  /** A bit string that is a prefix of another spells its leading digits. */
  lemma PrefixDivides(ca: nat, la: nat, cb: nat, lb: nat)
    requires ca < Pow2(la) && cb < Pow2(lb) && Bits(ca, la) <= Bits(cb, lb)
    ensures la <= lb && cb / Pow2(lb - la) == ca
  {
    assert la == |Bits(ca, la)| <= |Bits(cb, lb)| == lb;
    LeadingDigits(cb, lb, la);
    var q: nat := cb / Pow2(lb - la);
    BitsPrefix(cb, lb, la);
    BitsInjective(ca, q, la);
  }

  lemma BitsInjective(x: nat, y: nat, len: nat)
    requires x < Pow2(len) && y < Pow2(len) && Bits(x, len) == Bits(y, len)
    ensures x == y
  {
    ValueOfBits(x, len);
    ValueOfBits(y, len);
  }

  lemma QuotientBelow(x: nat, q: nat, d: nat)
    requires d > 0 && x < q * d
    ensures 0 <= x / d < q
  {
    assert x == (x / d) * d + x % d;
    MulLess(x / d, q, d);
  }

  ghost function Encode(lens: seq<nat>, sym: nat): (r: seq<bool>)
    requires sym < |lens|
    ensures |r| == lens[sym]
  {
    Bits(Code(lens, sym), lens[sym])
  }

  /** No code is a prefix of another: the code can be decoded. */
  lemma PrefixFree(lens: seq<nat>, top: nat, a: nat, b: nat)
    requires Fits(lens, top) && a < |lens| && b < |lens| && a != b && 0 < lens[a] && 0 < lens[b]
    ensures !(Encode(lens, a) <= Encode(lens, b))
  {
    CodeFits(lens, top, a);
    CodeFits(lens, top, b);
    if Encode(lens, a) <= Encode(lens, b) {
      PrefixDivides(Code(lens, a), lens[a], Code(lens, b), lens[b]);
      CodesDiffer(lens, top, a, b);
    }
  }

  ghost predicate Starts(lens: seq<nat>, bits: seq<bool>, sym: nat) {
    sym < |lens| && 0 < lens[sym] && Encode(lens, sym) <= bits
  }

  /** Reads one symbol off the front of a bit string. */
  ghost function DecodeSym(lens: seq<nat>, bits: seq<bool>): (r: Option<(nat, seq<bool>)>)
    ensures r.Some? ==> Starts(lens, bits, r.value.0) && bits == Encode(lens, r.value.0) + r.value.1
  {
    if exists sym: nat :: Starts(lens, bits, sym) then
      var sym: nat :| Starts(lens, bits, sym);
      Some((sym, bits[lens[sym]..]))
    else None
  }

  /** Decoding undoes encoding, whatever follows. */
  lemma DecodeEncode(lens: seq<nat>, top: nat, sym: nat, rest: seq<bool>)
    requires Fits(lens, top) && sym < |lens| && 0 < lens[sym]
    ensures DecodeSym(lens, Encode(lens, sym) + rest) == Some((sym, rest))
  {
    var bits := Encode(lens, sym) + rest;
    assert Starts(lens, bits, sym);
    var got := DecodeSym(lens, bits);
    var s := got.value.0;
    if s != sym {
      var a, b := if lens[s] <= lens[sym] then s else sym, if lens[s] <= lens[sym] then sym else s;
      assert Encode(lens, a) == bits[..lens[a]] && Encode(lens, b) == bits[..lens[b]];
      PrefixFree(lens, top, a, b);
    }
  }
}
