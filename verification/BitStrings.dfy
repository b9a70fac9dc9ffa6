/** Bit strings put together from parts, and numbers read back from them. */
module BitStrings {
  import opened Powers
  import opened PrefixCode

  /** The parts, one after the other. */
  ghost function Flat(parts: seq<seq<bool>>): (r: seq<bool>) {
    if parts == [] then [] else parts[0] + Flat(parts[1..])
  }

  lemma {:induction false} FlatJoin(a: seq<seq<bool>>, b: seq<seq<bool>>)
    ensures Flat(a + b) == Flat(a) + Flat(b)
  {
    if a == [] {
      assert a + b == b;
    } else {
      FlatJoin(a[1..], b);
      assert (a + b)[1..] == a[1..] + b;
      Regroup(a[0], Flat(a[1..]), Flat(b));
    }
  }

  lemma FlatMore(parts: seq<seq<bool>>, i: nat)
    requires i < |parts|
    ensures Flat(parts[..i + 1]) == Flat(parts[..i]) + parts[i]
  {
    assert parts[..i + 1] == parts[..i] + [parts[i]];
    FlatJoin(parts[..i], [parts[i]]);
    assert [parts[i]][1..] == [] && Flat([]) == [];
    assert Flat([parts[i]]) == parts[i];
  }

  lemma FlatFrom(parts: seq<seq<bool>>, i: nat)
    requires i < |parts|
    ensures Flat(parts[i..]) == parts[i] + Flat(parts[i + 1..])
  {
    assert parts[i..][1..] == parts[i + 1..];
  }

  lemma NothingLeft(parts: seq<seq<bool>>, i: nat, rest: seq<bool>)
    requires i == |parts|
    ensures Flat(parts[i..]) + rest == rest
  {
    assert parts[i..] == [] && Flat([]) == [];
  }

  /** A number of `n` bits off the front. */
  ghost function ReadNum(bits: seq<bool>, n: nat): (r: Option<(nat, seq<bool>)>) {
    if |bits| < n then None else Some((Value(bits[..n]), bits[n..]))
  }

  lemma ReadsNum(v: nat, n: nat, rest: seq<bool>)
    requires v < Pow2(n)
    ensures ReadNum(Bits(v, n) + rest, n) == Some((v, rest))
  {
    ValueOfBits(v, n);
    assert (Bits(v, n) + rest)[..n] == Bits(v, n);
  }

  /** Reads off a front part. */
  lemma Regroup<T>(a: seq<T>, b: seq<T>, c: seq<T>)
    ensures a + b + c == a + (b + c)
  {
  }

  lemma RegroupFour(s: seq<bool>, a: seq<bool>, b: seq<bool>, c: seq<bool>)
    ensures s + a + b + c == s + (a + b + c)
  {
    Regroup(s, a, b);
    Regroup(s, a + b, c);
  }

  lemma RegroupFive(s: seq<bool>, a: seq<bool>, b: seq<bool>, c: seq<bool>, d: seq<bool>)
    ensures s + a + b + c + d == s + (a + b + (c + d))
  {
    Regroup(s + a + b, c, d);
    Regroup(s, a, b);
    Regroup(s, a + b, c + d);
  }
}
