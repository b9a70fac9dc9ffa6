/** `lzo_adler32`: section 8.2 of RFC 1950, with the modulo put off for up to 5552 bytes. */
module Adler {
  import opened Arith
  import opened Bytes
  import opened PrefixCode
  import opened Primes

  const BASE := 65521
  const NMAX := 5552
  const TWO32 := 0x1_0000_0000

  // ----- the modulus -----

  lemma Trial72()
    ensures NoneTo(65521, 72)
  {
    assert NoneTo(65521, 12);
    assert NoneTo(65521, 24);
    assert NoneTo(65521, 36);
    assert NoneTo(65521, 48);
    assert NoneTo(65521, 60);
    assert NoneTo(65521, 72);
  }

  lemma Trial144()
    ensures NoneTo(65521, 144)
  {
    Trial72();
    assert NoneTo(65521, 84);
    assert NoneTo(65521, 96);
    assert NoneTo(65521, 108);
    assert NoneTo(65521, 120);
    assert NoneTo(65521, 132);
    assert NoneTo(65521, 144);
  }

  lemma Trial204()
    ensures NoneTo(65521, 204)
  {
    Trial144();
    assert NoneTo(65521, 156);
    assert NoneTo(65521, 168);
    assert NoneTo(65521, 180);
    assert NoneTo(65521, 192);
    assert NoneTo(65521, 204);
  }

  lemma Trial255()
    ensures NoneTo(65521, 255)
  {
    Trial204();
    assert NoneTo(65521, 216);
    assert NoneTo(65521, 228);
    assert NoneTo(65521, 240);
    assert NoneTo(65521, 252);
  }

  lemma HasFactor(n: nat, d: nat, q: nat)
    requires 2 <= d < n && d * q == n
    ensures !IsPrime(n)
  {
    assert Times(d, q) == n;
    assert Divides(d, n);
  }

  /** BASE is the largest prime below 65536. */
  lemma BaseIsLargestPrime()
    ensures IsPrime(BASE) && BASE < 65536 && forall n: nat :: BASE < n < 65536 ==> !IsPrime(n)
  {
    Trial255();
    PrimeByTrial(65521, 255);
    forall n: nat | BASE < n < 65536
      ensures !IsPrime(n)
    {
      if n % 2 == 0 {
        HasFactor(n, 2, n / 2);
      } else {
        OddOnes(n);
      }
    }
  }

  lemma OddOnes(n: nat)
    requires 65521 < n < 65536 && n % 2 == 1
    ensures !IsPrime(n)
  {
    var d, q := if n == 65525 then 5 else if n == 65527 then 7 else if n == 65531 then 19 else if n == 65533 then 13
                else 3,
                if n == 65523 then 21841 else if n == 65525 then 13105 else if n == 65527 then 9361
                else if n == 65529 then 21843 else if n == 65531 then 3449 else if n == 65533 then 5041 else 21845;
    HasFactor(n, d, q);
  }

  // ----- the sums -----

  /** The two sums. */
  datatype Sums = Sums(s1: nat, s2: nat)

  /** One byte, reduced at once. */
  function Step(s: Sums, b: nat): (r: Sums) {
    var a := (s.s1 + b) % BASE;
    Sums(a, (s.s2 + a) % BASE)
  }

  /** The definition: byte by byte. */
  ghost function Fold(s: Sums, data: seq<nat>): (r: Sums) {
    if data == [] then s else Step(Fold(s, data[..|data| - 1]), data[|data| - 1])
  }

  /** Without any reduction. */
  ghost function Raw(s: Sums, data: seq<nat>): (r: Sums) {
    if data == [] then s
    else
      var p := Raw(s, data[..|data| - 1]);
      Sums(p.s1 + data[|data| - 1], p.s2 + p.s1 + data[|data| - 1])
  }

  lemma RawMore(s: Sums, data: seq<nat>, b: nat)
    ensures var p := Raw(s, data); Raw(s, data + [b]) == Sums(p.s1 + b, p.s2 + p.s1 + b)
  {
    assert (data + [b])[..|data|] == data;
  }

  function Reduced(s: Sums): (r: Sums) {
    Sums(s.s1 % BASE, s.s2 % BASE)
  }

  lemma ModAdd(a: nat, b: nat)
    ensures (a % BASE + b) % BASE == (a + b) % BASE && (b + a % BASE) % BASE == (b + a) % BASE
  {
    var q := a / BASE;
    assert a == BASE * q + a % BASE;
  }

  lemma StepReduced(p: Sums, b: nat)
    ensures Step(p, b) == Reduced(Sums(p.s1 + b, p.s2 + p.s1 + b))
    ensures Step(Reduced(p), b) == Reduced(Sums(p.s1 + b, p.s2 + p.s1 + b))
  {
    ModAdd(p.s1, b);
    ModAdd(p.s1 + b, p.s2);
    ModAdd(p.s2, (p.s1 + b) % BASE);
  }

  /** Reducing along the way or once at the end is the same, after at least one byte. */
  lemma {:induction false} FoldIsRaw(s: Sums, data: seq<nat>)
    requires data != []
    ensures Fold(s, data) == Reduced(Raw(s, data))
    decreases |data|
  {
    var init, b := data[..|data| - 1], data[|data| - 1];
    if init != [] {
      FoldIsRaw(s, init);
    }
    StepReduced(Raw(s, init), b);
  }

  /** All bytes added up. */
  ghost function ByteSum(data: seq<nat>): (r: nat) {
    if data == [] then 0 else data[0] + ByteSum(data[1..])
  }

  /** ... and each as often as there are bytes from it on. */
  ghost function WeightedSum(data: seq<nat>): (r: nat) {
    if data == [] then 0 else |data| * data[0] + WeightedSum(data[1..])
  }

  lemma {:induction false} SumsMore(data: seq<nat>, b: nat)
    ensures ByteSum(data + [b]) == ByteSum(data) + b
    ensures WeightedSum(data + [b]) == WeightedSum(data) + ByteSum(data) + b
  {
    if data == [] {
      assert data + [b] == [b] && [b][1..] == [];
      assert ByteSum([]) == 0 && WeightedSum([]) == 0;
    } else {
      SumsMore(data[1..], b);
      assert (data + [b])[1..] == data[1..] + [b];
      Distribute(|data|, 1, data[0]);
    }
  }

  /** The sums without reduction, in closed form. */
  lemma {:induction false} RawIsSums(s: Sums, data: seq<nat>)
    ensures Raw(s, data) == Sums(s.s1 + ByteSum(data), s.s2 + |data| * s.s1 + WeightedSum(data))
    decreases |data|
  {
    if data != [] {
      var init, b := data[..|data| - 1], data[|data| - 1];
      assert data == init + [b];
      RawIsSums(s, init);
      SumsMore(init, b);
      Distribute(|init|, 1, s.s1);
    }
  }

  /** Two sums modulo the largest prime below 65536, packed into one word. */
  ghost predicate IsChecksum(r: nat, adler: nat, data: seq<nat>) {
    var a, b := adler % 65536, adler / 65536 % 65536;
    r == 65536 * ((b + |data| * a + WeightedSum(data)) % 65521) + (a + ByteSum(data)) % 65521
  }

  /** The byte-by-byte definition comes to that. */
  lemma ChecksumIs(adler: nat, data: seq<nat>)
    requires data != []
    ensures IsChecksum(Packed(Fold(Unpacked(adler), data)), adler, data)
  {
    FoldIsRaw(Unpacked(adler), data);
    RawIsSums(Unpacked(adler), data);
  }

  /** How large the sums can get: exactly the bound in the comment on NMAX, for any 16-bit start. */
  lemma {:induction false} RawBound(s: Sums, data: seq<nat>, most: nat)
    requires IsBytes(data) && s.s1 <= most && s.s2 <= most
    ensures var r, n := Raw(s, data), |data|;
            r.s1 <= most + 255 * n && 2 * r.s2 <= 255 * (n * (n + 1)) + 2 * (n + 1) * most
    decreases |data|
  {
    if data != [] {
      var init := data[..|data| - 1];
      RawBound(s, init, most);
      BoundStep(|data| - 1, most);
    }
  }

  lemma BoundStep(n: nat, most: nat)
    ensures 255 * (n * (n + 1)) + 2 * (n + 1) * most + 2 * (most + 255 * (n + 1)) == 255 * ((n + 1) * (n + 2))
            + 2 * (n + 2) * most
  {
  }

  /** Up to NMAX bytes no 32-bit sum wraps round, whatever 16-bit sums it starts from. */
  lemma NoOverflow(s: Sums, data: seq<nat>)
    requires IsBytes(data) && s.s1 <= 0xffff && s.s2 <= 0xffff && |data| <= NMAX
    ensures Raw(s, data).s1 < TWO32 && Raw(s, data).s2 < TWO32
  {
    RawBound(s, data, 0xffff);
    var n := |data|;
    MulMono(n, NMAX, n + 1);
    MulMono(n + 1, NMAX + 1, NMAX);
  }

  ghost function Same(b: nat, n: nat): (r: seq<nat>)
    ensures |r| == n && forall i :: 0 <= i < n ==> r[i] == b
  {
    seq(n, i => b)
  }

  lemma {:induction false} RawOfSame(s: Sums, n: nat)
    ensures var r := Raw(s, Same(255, n));
            r.s1 == s.s1 + 255 * n && 2 * r.s2 == 2 * s.s2 + 2 * (n * s.s1) + 255 * (n * (n + 1))
  {
    if n > 0 {
      RawOfSame(s, n - 1);
      assert Same(255, n) == Same(255, n - 1) + [255];
      RawMore(s, Same(255, n - 1), 255);
      SameStep(s.s1, n - 1);
    }
  }

  lemma SameStep(a: nat, n: nat)
    ensures 2 * (n * a) + 255 * (n * (n + 1)) + 2 * (a + 255 * (n + 1)) == 2 * ((n + 1) * a) + 255 * ((n + 1) * (n + 2))
  {
  }

  /** NMAX is the largest such number, even for reduced sums. */
  lemma NmaxIsLargest()
    ensures IsBytes(Same(255, NMAX + 1)) && Raw(Sums(BASE - 1, BASE - 1), Same(255, NMAX + 1)).s2 >= TWO32
  {
    RawOfSame(Sums(BASE - 1, BASE - 1), NMAX + 1);
  }

  lemma {:induction false} FoldJoin(s: Sums, a: seq<nat>, b: seq<nat>)
    ensures Fold(s, a + b) == Fold(Fold(s, a), b)
    decreases |b|
  {
    if b == [] {
      assert a + b == a;
    } else {
      FoldJoin(s, a, b[..|b| - 1]);
      assert (a + b)[..|a + b| - 1] == a + b[..|b| - 1];
    }
  }

  /** At most NMAX bytes: sums without reduction, 32-bit additions that never wrap. */
  method SumChunk(buf: seq<nat>, s0: Sums) returns (s1: nat, s2: nat)
    requires 0 < |buf| <= NMAX && IsBytes(buf) && s0.s1 <= 0xffff && s0.s2 <= 0xffff
    ensures Sums(s1, s2) == Raw(s0, buf)
  {
    s1, s2 := s0.s1, s0.s2;
    var k, i := |buf|, 0;
    assert buf[..0] == [];
    while k > 0
      invariant 0 <= k <= |buf| && i == |buf| - k && Sums(s1, s2) == Raw(s0, buf[..i])
    {
      RawMore(s0, buf[..i], buf[i]);
      assert buf[..i + 1] == buf[..i] + [buf[i]];
      NoOverflow(s0, buf[..i + 1]);
      s1 := (s1 + buf[i]) % TWO32;
      s2 := (s2 + s1) % TWO32;
      i := i + 1;
      k := k - 1;
    }
    assert buf[..|buf|] == buf;
  }

  function Packed(s: Sums): (r: nat) { 65536 * s.s2 + s.s1 }

  function Unpacked(adler: nat): (r: Sums) { Sums(adler % 65536, adler / 65536 % 65536) }

  lemma {:induction false} FoldSmall(s: Sums, data: seq<nat>)
    requires data != [] || (s.s1 <= 0xffff && s.s2 <= 0xffff)
    ensures Fold(s, data).s1 <= 0xffff && Fold(s, data).s2 <= 0xffff
  {
  }

  /** `lzo_adler32` is the byte-by-byte definition, for every start value and every buffer, and so the two sums
      modulo 65521; no buffer at all gives the start value 1. */
  method Adler32(adler: nat, given: Option<seq<nat>>) returns (r: nat)
    requires adler < TWO32 && (given.Some? ==> IsBytes(given.value))
    ensures r < TWO32 && r == if given.Some? then Packed(Fold(Unpacked(adler), given.value)) else 1
    ensures given.Some? && given.value != [] ==> IsChecksum(r, adler, given.value)
  {
    if given.None? {
      return 1;
    }
    var buf := given.value;
    var s := Unpacked(adler);
    var at := 0;
    assert buf[..0] == [];
    while at < |buf|
      invariant 0 <= at <= |buf| && s.s1 <= 0xffff && s.s2 <= 0xffff && s == Fold(Unpacked(adler), buf[..at])
    {
      var k := if |buf| - at < NMAX then |buf| - at else NMAX;
      var chunk := buf[at..at + k];
      var s1, s2 := SumChunk(chunk, s);
      FoldIsRaw(s, chunk);
      FoldJoin(Unpacked(adler), buf[..at], chunk);
      assert buf[..at + k] == buf[..at] + chunk;
      s := Sums(s1 % BASE, s2 % BASE);
      at := at + k;
    }
    assert buf[..|buf|] == buf;
    r := s.s2 * 65536 + s.s1;
    if buf != [] {
      ChecksumIs(adler, buf);
    }
  }

  /** Checksumming in pieces equals checksumming the whole. */
  lemma InPieces(adler: nat, a: seq<nat>, b: seq<nat>)
    requires adler < TWO32
    ensures Packed(Fold(Unpacked(Packed(Fold(Unpacked(adler), a))), b)) == Packed(Fold(Unpacked(adler), a + b))
  {
    FoldJoin(Unpacked(adler), a, b);
    FoldSmall(Unpacked(adler), a);
    UnpackPacked(Fold(Unpacked(adler), a));
  }

  lemma UnpackPacked(s: Sums)
    requires s.s1 <= 0xffff && s.s2 <= 0xffff
    ensures Unpacked(Packed(s)) == s
  {
  }
}
