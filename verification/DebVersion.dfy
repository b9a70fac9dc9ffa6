/** Debian's version order (section 5.6.12 of the Debian Policy Manual): a version as a sequence of
    numbers, zero from its end on, compared place by place. */
module VersionOrder {

  predicate IsDigit(c: int) { 48 <= c <= 57 }

  predicate IsLetter(c: int) { 65 <= c <= 90 || 97 <= c <= 122 }

  const TILDE := 126

  /** A string without its terminator: bytes other than zero. */
  ghost predicate IsText(s: seq<int>) {
    forall i :: 0 <= i < |s| ==> 1 <= s[i] <= 255
  }

  /** `order`: tilde before the end, the end and digits before letters, letters before the rest. */
  function Order(c: int): (r: int) {
    if c == TILDE then -1
    else if c == 0 then 0
    else if IsDigit(c) then 0
    else if IsLetter(c) then c
    else c + 256
  }

  /** Only the end and digits count as nothing, and no two other characters rank alike. */
  lemma OrderSeparates(a: int, b: int)
    requires 0 <= a <= 255 && 0 <= b <= 255
    ensures Order(a) == 0 <==> a == 0 || IsDigit(a)
    ensures Order(a) == Order(b) != 0 ==> a == b
  {
  }

  /** How many digits a string starts with. */
  function Digits(s: seq<int>): (r: nat)
    ensures r <= |s| && (forall i :: 0 <= i < r ==> IsDigit(s[i])) && (r < |s| ==> !IsDigit(s[r]))
  {
    if s == [] || !IsDigit(s[0]) then 0 else 1 + Digits(s[1..])
  }

  /** The number a string of digits spells. */
  ghost function Number(s: seq<int>): (r: int) {
    if s == [] then 0 else 10 * Number(s[..|s| - 1]) + (s[|s| - 1] - 48)
  }

  /** The ranks of the characters up to a digit or the end, zero, the number there, and so on. */
  ghost function Key(s: seq<int>): (r: seq<int>)
    decreases |s|
  {
    if s == [] then []
    else if !IsDigit(s[0]) then [Order(s[0])] + Key(s[1..])
    else [0, Number(s[..Digits(s)])] + Key(s[Digits(s)..])
  }

  // ----- comparing -----

  function First(a: seq<int>): int { if a == [] then 0 else a[0] }

  function Rest(a: seq<int>): (r: seq<int>) { if a == [] then [] else a[1..] }

  /** Place by place, with zeros behind the end: the sign of the first difference. */
  ghost function Cmp(a: seq<int>, b: seq<int>): (r: int)
    ensures -1 <= r <= 1
    decreases |a| + |b|
  {
    if a == [] && b == [] then 0
    else if First(a) != First(b) then (if First(a) < First(b) then -1 else 1)
    else Cmp(Rest(a), Rest(b))
  }

  lemma CmpStep(a: seq<int>, b: seq<int>)
    ensures Cmp(a, b) == if First(a) != First(b) then (if First(a) < First(b) then -1 else 1) else Cmp(Rest(a), Rest(b))
  {
  }

  lemma {:induction false} CmpFlips(a: seq<int>, b: seq<int>)
    ensures Cmp(a, b) == -Cmp(b, a)
    decreases |a| + |b|
  {
    if (a != [] || b != []) && First(a) == First(b) {
      CmpFlips(Rest(a), Rest(b));
    }
  }

  lemma {:induction false} CmpTransitive(a: seq<int>, b: seq<int>, c: seq<int>)
    requires Cmp(a, b) <= 0 && Cmp(b, c) <= 0
    ensures Cmp(a, c) <= 0 && (Cmp(a, c) == 0 ==> Cmp(a, b) == 0 && Cmp(b, c) == 0)
    decreases |a| + |b| + |c|
  {
    CmpStep(a, b);
    CmpStep(b, c);
    CmpStep(a, c);
    if a != [] || b != [] || c != [] {
      if First(a) == First(b) == First(c) {
        CmpTransitive(Rest(a), Rest(b), Rest(c));
      }
    }
  }

  // ----- numbers -----

  ghost predicate AllDigits(s: seq<int>) {
    forall i :: 0 <= i < |s| ==> IsDigit(s[i])
  }

  lemma NumberMore(s: seq<int>, d: int)
    ensures Number(s + [d]) == 10 * Number(s) + (d - 48)
  {
    assert (s + [d])[..|s|] == s;
  }

  ghost function Pow10(n: nat): (r: nat)
    ensures r > 0
  {
    if n == 0 then 1 else 10 * Pow10(n - 1)
  }

  lemma {:induction false} Pow10Mono(a: nat, b: nat)
    requires a <= b
    ensures Pow10(a) <= Pow10(b)
    decreases b
  {
    if a < b {
      Pow10Mono(a, b - 1);
    }
  }

  lemma {:induction false} NumberRange(s: seq<int>)
    requires AllDigits(s)
    ensures 0 <= Number(s) < Pow10(|s|)
  {
    if s != [] {
      NumberRange(s[..|s| - 1]);
    }
  }

  /** A number that does not start with zero is at least as large as its length says. */
  lemma {:induction false} NumberLeads(s: seq<int>)
    requires AllDigits(s) && s != [] && s[0] != 48
    ensures Number(s) >= Pow10(|s| - 1)
    decreases |s|
  {
    if |s| > 1 {
      NumberLeads(s[..|s| - 1]);
    } else {
      assert s[..0] == [];
    }
  }

  /** More digits, larger number. */
  lemma LongerIsLarger(a: seq<int>, b: seq<int>)
    requires AllDigits(a) && AllDigits(b) && |a| > |b| && a[0] != 48
    ensures Number(a) > Number(b)
  {
    NumberLeads(a);
    NumberRange(b);
    Pow10Mono(|b|, |a| - 1);
  }

  /** Leading zeros do not count. */
  lemma {:induction false} ZeroLeads(s: seq<int>)
    requires s != [] && s[0] == 48
    ensures Number(s) == Number(s[1..])
    decreases |s|
  {
    if |s| > 1 {
      ZeroLeads(s[..|s| - 1]);
      assert s[1..][..|s| - 2] == s[..|s| - 1][1..];
    } else {
      assert s[..0] == [] && s[1..] == [];
    }
  }

  // ----- keys from the middle of a string -----

  /** A key from where its number begins. */
  ghost function NumberKey(s: seq<int>): (r: seq<int>) {
    [Number(s[..Digits(s)])] + Key(s[Digits(s)..])
  }

  /** Where both strings are at a digit or the end, the numbers there decide first. */
  lemma AtNumbers(a: seq<int>, b: seq<int>)
    requires (a == [] || IsDigit(a[0])) && (b == [] || IsDigit(b[0]))
    ensures Cmp(Key(a), Key(b)) == Cmp(NumberKey(a), NumberKey(b))
  {
    DropTerminator(a);
    DropTerminator(b);
    CmpStep(Key(a), Key(b));
    if a == [] && b == [] {
      assert NumberKey(a) == [0] && NumberKey(b) == [0];
      CmpStep([0], [0]);
      assert Rest([0]) == [];
    } else {
      PaddedSame(Rest(Key(a)), NumberKey(a), Rest(Key(b)), NumberKey(b));
    }
  }

  /** Equal up to zeros at the end. */
  ghost predicate SamePadded(a: seq<int>, b: seq<int>) {
    a == b || (a == [] && b == [0])
  }

  lemma FirstAndRest(x: int, a: seq<int>)
    ensures First([x] + a) == x && Rest([x] + a) == a
  {
  }

  lemma DropTerminator(a: seq<int>)
    requires a == [] || IsDigit(a[0])
    ensures First(Key(a)) == 0 && SamePadded(Rest(Key(a)), NumberKey(a))
  {
    if a == [] {
      assert Key(a) == [] && NumberKey(a) == [0];
    } else {
      assert Key(a) == [0] + NumberKey(a);
      FirstAndRest(0, NumberKey(a));
    }
  }

  lemma PaddedSame(a: seq<int>, a': seq<int>, b: seq<int>, b': seq<int>)
    requires SamePadded(a, a') && SamePadded(b, b')
    ensures Cmp(a, b) == Cmp(a', b')
  {
    CmpStep(a, b);
    CmpStep(a', b');
    assert First(a) == First(a') && Rest(a) == Rest(a') && First(b) == First(b') && Rest(b) == Rest(b');
  }

  /** The numbers differ: they decide. */
  lemma NumbersDecide(a: seq<int>, b: seq<int>)
    ensures var x, y := Number(a[..Digits(a)]), Number(b[..Digits(b)]);
            Cmp(NumberKey(a), NumberKey(b)) == if x < y then -1 else if x > y then 1
                else Cmp(Key(a[Digits(a)..]), Key(b[Digits(b)..]))
  {
    CmpStep(NumberKey(a), NumberKey(b));
    assert Rest(NumberKey(a)) == Key(a[Digits(a)..]) && Rest(NumberKey(b)) == Key(b[Digits(b)..]);
  }

  /** Characters that are not digits: their ranks decide, or both are passed. */
  lemma RanksDecide(a: seq<int>, b: seq<int>)
    requires IsText(a) && IsText(b) && ((a != [] && !IsDigit(a[0])) || (b != [] && !IsDigit(b[0])))
    ensures var x, y := (if a == [] then 0 else Order(a[0])), (if b == [] then 0 else Order(b[0]));
            && (x != y ==> Cmp(Key(a), Key(b)) == if x < y then -1 else 1)
            && (x == y ==>
                  a != [] && b != [] && !IsDigit(a[0]) && !IsDigit(b[0])
                      && Cmp(Key(a), Key(b)) == Cmp(Key(a[1..]), Key(b[1..])))
  {
    var x, y := (if a == [] then 0 else a[0]), (if b == [] then 0 else b[0]);
    OrderSeparates(x, y);
    OrderSeparates(y, x);
    CmpStep(Key(a), Key(b));
    FirstIsRank(a);
    FirstIsRank(b);
  }

  lemma FirstIsRank(a: seq<int>)
    ensures First(Key(a)) == if a == [] then 0 else Order(a[0])
    ensures a != [] && !IsDigit(a[0]) ==> Rest(Key(a)) == Key(a[1..])
  {
  }

  /** Zeros in front of a number are passed over. */
  lemma SkipZero(a: seq<int>)
    requires a != [] && a[0] == 48
    ensures NumberKey(a) == NumberKey(a[1..])
  {
    var n := Digits(a);
    assert Digits(a[1..]) == n - 1;
    ZeroLeads(a[..n]);
    assert a[..n][1..] == a[1..][..n - 1] && a[n..] == a[1..][n - 1..];
  }
}

/** `version_compare_part`, `version_compare` and `test_version`. */
module DebVersion {
  import opened PrefixCode
  import opened VersionOrder

  /** The character at `i`, or the terminator; no further. */
  function At(s: seq<int>, i: nat): (r: int)
    requires i <= |s|
  {
    if i < |s| then s[i] else 0
  }

  function Sign(x: int): (r: int) { if x < 0 then -1 else if x > 0 then 1 else 0 }

  /** What is still to be compared decides as the whole does. */
  ghost predicate Decides(val: seq<int>, other: seq<int>, i: nat, j: nat) {
    && i <= |val| && j <= |other|
    && forall k: nat {:trigger Place(k, i)} :: Place(k, i) ==>
          Cmp(Key(val), Key(other)) == Cmp(Key(val[i..]), Key(other[j..]))
  }

  /** Mentioned where `Decides` is taken apart. */
  predicate Place(k: nat, i: nat) { k == i }

  lemma RankStep(val: seq<int>, other: seq<int>, i: nat, j: nat)
    requires IsText(val) && IsText(other) && Decides(val, other, i, j)
    requires (At(val, i) != 0 && !IsDigit(At(val, i))) || (At(other, j) != 0 && !IsDigit(At(other, j)))
    ensures var vc, rc := Order(At(val, i)), Order(At(other, j));
            && (vc != rc ==> Cmp(Key(val), Key(other)) == Sign(vc - rc))
            && (vc == rc ==> i < |val| && j < |other| && Decides(val, other, i + 1, j + 1))
  {
    var a, b := val[i..], other[j..];
    assert Place(i, i);
    RanksDecide(a, b);
    if i < |val| && j < |other| {
      assert a[1..] == val[i + 1..] && b[1..] == other[j + 1..];
    }
  }

  ghost predicate AtNumber(s: seq<int>, i: nat) {
    i <= |s| && (i == |s| || IsDigit(s[i]))
  }

  /** One pair of characters; the difference of their ranks. */
  method CompareRanks(val: seq<int>, other: seq<int>, i: nat, j: nat) returns (diff: int)
    requires IsText(val) && IsText(other) && Decides(val, other, i, j)
    requires (At(val, i) != 0 && !IsDigit(At(val, i))) || (At(other, j) != 0 && !IsDigit(At(other, j)))
    ensures diff != 0 ==> Cmp(Key(val), Key(other)) == Sign(diff)
    ensures diff == 0 ==> i < |val| && j < |other| && Decides(val, other, i + 1, j + 1)
  {
    var vc, rc := Order(At(val, i)), Order(At(other, j));
    RankStep(val, other, i, j);
    diff := vc - rc;
  }

  /** The loop over characters that are not digits. */
  method PassRanks(val: seq<int>, other: seq<int>, i0: nat, j0: nat) returns (i: nat, j: nat, diff: int)
    requires IsText(val) && IsText(other) && Decides(val, other, i0, j0)
    ensures diff != 0 ==> Cmp(Key(val), Key(other)) == Sign(diff)
    ensures diff == 0 ==> i0 <= i && j0 <= j && Decides(val, other, i, j) && AtNumber(val, i) && AtNumber(other, j)
  {
    i, j := i0, j0;
    while (At(val, i) != 0 && !IsDigit(At(val, i))) || (At(other, j) != 0 && !IsDigit(At(other, j)))
      invariant i0 <= i && j0 <= j && Decides(val, other, i, j)
      decreases |val| - i
    {
      diff := CompareRanks(val, other, i, j);
      if diff != 0 {
        return;
      }
      i := i + 1;
      j := j + 1;
    }
    RanksPassed(val, i);
    RanksPassed(other, j);
    diff := 0;
  }

  lemma RanksPassed(s: seq<int>, i: nat)
    requires IsText(s) && i <= |s| && !(At(s, i) != 0 && !IsDigit(At(s, i)))
    ensures AtNumber(s, i)
  {
  }

  method SkipZeros(s: seq<int>, i0: nat) returns (i: nat)
    requires i0 <= |s|
    ensures i0 <= i <= |s| && NumberKey(s[i..]) == NumberKey(s[i0..]) && (i < |s| ==> s[i] != 48)
    ensures i == i0 ==> i0 == |s| || s[i0] != 48
  {
    i := i0;
    while At(s, i) == 48
      invariant i0 <= i <= |s| && NumberKey(s[i..]) == NumberKey(s[i0..])
      decreases |s| - i
    {
      SkipZero(s[i..]);
      assert s[i..][1..] == s[i + 1..];
      i := i + 1;
    }
  }

  /** So far the digits agree, or the first difference has the sign of the numbers' difference. */
  ghost predicate DiffIs(a: seq<int>, b: seq<int>, t: nat, diff: int) {
    && t <= Digits(a) && t <= Digits(b) && t <= |a| && t <= |b|
    && Sign(diff) == Sign(Number(a[..t]) - Number(b[..t]))
  }

  lemma DiffStep(a: seq<int>, b: seq<int>, t: nat, diff: int)
    requires DiffIs(a, b, t, diff) && t < |a| && t < |b| && IsDigit(a[t]) && IsDigit(b[t])
    ensures DiffIs(a, b, t + 1, if diff == 0 then a[t] - b[t] else diff)
  {
    assert a[..t + 1] == a[..t] + [a[t]] && b[..t + 1] == b[..t] + [b[t]];
    NumberMore(a[..t], a[t]);
    NumberMore(b[..t], b[t]);
  }

  /** The loop over digits: how the numbers compare, and where they end if they are equal. */
  method CompareNumbers(val: seq<int>, other: seq<int>, i0: nat, j0: nat) returns (i: nat, j: nat, diff: int)
    requires i0 <= |val| && j0 <= |other| && (i0 < |val| ==> val[i0] != 48) && (j0 < |other| ==> other[j0] != 48)
    ensures var a, b := val[i0..], other[j0..];
            && Sign(diff) == Sign(Number(a[..Digits(a)]) - Number(b[..Digits(b)]))
            && (diff == 0 ==> i == i0 + Digits(a) && j == j0 + Digits(b))
  {
    ghost var a, b, t := val[i0..], other[j0..], 0;
    i, j := i0, j0;
    var firstDiff: int := 0;
    while IsDigit(At(val, i)) && IsDigit(At(other, j))
      invariant 0 <= t && i == i0 + t <= |val| && j == j0 + t <= |other| && DiffIs(a, b, t, firstDiff)
      decreases |val| - i
    {
      DiffStep(a, b, t, firstDiff);
      if firstDiff == 0 {
        firstDiff := At(val, i) - At(other, j);
      }
      i := i + 1;
      j := j + 1;
      t := t + 1;
    }
    if IsDigit(At(val, i)) {
      assert Digits(a) > t == Digits(b);
      LongerIsLarger(a[..Digits(a)], b[..Digits(b)]);
      return i, j, 1;
    }
    if IsDigit(At(other, j)) {
      assert Digits(b) > t == Digits(a);
      LongerIsLarger(b[..Digits(b)], a[..Digits(a)]);
      return i, j, -1;
    }
    assert Digits(a) == t == Digits(b);
    diff := firstDiff;
  }

  /** One number on each side: it decides, or both are passed. */
  method PassNumbers(val: seq<int>, other: seq<int>, i0: nat, j0: nat) returns (i: nat, j: nat, diff: int)
    requires Decides(val, other, i0, j0) && AtNumber(val, i0) && AtNumber(other, j0)
    ensures diff != 0 ==> Cmp(Key(val), Key(other)) == Sign(diff)
    ensures diff == 0 ==> i0 <= i && j0 <= j && Decides(val, other, i, j)
    ensures diff == 0 ==> (i0 < |val| ==> i > i0) && (j0 < |other| ==> j > j0)
  {
    assert Place(i0, i0);
    AtNumbers(val[i0..], other[j0..]);
    var i1 := SkipZeros(val, i0);
    var j1 := SkipZeros(other, j0);
    i, j, diff := CompareNumbers(val, other, i1, j1);
    NumbersPassed(val, other, i1, j1, i, j, diff, Cmp(Key(val), Key(other)));
  }

  lemma NumbersPassed(val: seq<int>, other: seq<int>, i1: nat, j1: nat, i: nat, j: nat, diff: int, whole: int)
    requires i1 <= |val| && j1 <= |other| && whole == Cmp(NumberKey(val[i1..]), NumberKey(other[j1..]))
    requires var a, b := val[i1..], other[j1..];
             && Sign(diff) == Sign(Number(a[..Digits(a)]) - Number(b[..Digits(b)]))
             && (diff == 0 ==> i == i1 + Digits(a) && j == j1 + Digits(b))
    ensures diff != 0 ==> whole == Sign(diff)
    ensures diff == 0 ==> i1 <= i <= |val| && j1 <= j <= |other| && whole == Cmp(Key(val[i..]), Key(other[j..]))
  {
    var a, b := val[i1..], other[j1..];
    NumbersDecide(a, b);
    if diff == 0 {
      assert a[Digits(a)..] == val[i..] && b[Digits(b)..] == other[j..];
    }
  }

  function Text(s: Option<seq<int>>): (r: seq<int>) { if s.Some? then s.value else [] }

  /** `version_compare_part`: its sign is the comparison of the keys. */
  method ComparePart(v: Option<seq<int>>, r: Option<seq<int>>) returns (result: int)
    requires IsText(Text(v)) && IsText(Text(r))
    ensures Sign(result) == Cmp(Key(Text(v)), Key(Text(r)))
  {
    var val, other := Text(v), Text(r);
    var i: nat, j: nat := 0, 0;
    DecidesStart(val, other);
    while At(val, i) != 0 || At(other, j) != 0
      invariant i <= |val| && j <= |other| && Decides(val, other, i, j)
      decreases |val| - i + (|other| - j)
    {
      var diff;
      i, j, diff := PassPart(val, other, i, j);
      if diff != 0 {
        return diff;
      }
    }
    DecidesEnd(val, other, i, j);
    result := 0;
  }

  /** One part on each side: what is not a number, then a number. */
  method PassPart(val: seq<int>, other: seq<int>, i0: nat, j0: nat) returns (i: nat, j: nat, diff: int)
    requires IsText(val) && IsText(other) && Decides(val, other, i0, j0) && (i0 < |val| || j0 < |other|)
    ensures diff != 0 ==> Cmp(Key(val), Key(other)) == Sign(diff)
    ensures diff == 0 ==> Decides(val, other, i, j) && i + j > i0 + j0
  {
    i, j, diff := PassRanks(val, other, i0, j0);
    if diff == 0 {
      i, j, diff := PassNumbers(val, other, i, j);
    }
  }

  lemma DecidesStart(val: seq<int>, other: seq<int>)
    ensures Decides(val, other, 0, 0)
  {
    assert val[0..] == val && other[0..] == other;
  }

  lemma DecidesEnd(val: seq<int>, other: seq<int>, i: nat, j: nat)
    requires IsText(val) && IsText(other) && Decides(val, other, i, j) && At(val, i) == 0 && At(other, j) == 0
    ensures Cmp(Key(val), Key(other)) == 0
  {
    assert Place(i, i);
    assert val[i..] == [] && other[j..] == [];
  }

  // ----- whole versions: epoch, upstream version, revision -----

  const COLON := 58
  const DASH := 45
  const TWO32 := 0x1_0000_0000

  /** `strchr`. */
  function FirstOf(s: seq<int>, c: int): (r: Option<nat>)
    ensures r.Some? ==> r.value < |s| && s[r.value] == c && forall k :: 0 <= k < r.value ==> s[k] != c
    ensures r.None? ==> c !in s
  {
    if s == [] then None
    else if s[0] == c then Some(0)
    else match FirstOf(s[1..], c)
      case None => None
      case Some(k) => Some(k + 1)
  }

  /** `strrchr`. */
  function LastOf(s: seq<int>, c: int): (r: Option<nat>)
    ensures r.Some? ==> r.value < |s| && s[r.value] == c && forall k :: r.value < k < |s| ==> s[k] != c
    ensures r.None? ==> c !in s
  {
    if s == [] then None
    else if s[|s| - 1] == c then Some(|s| - 1)
    else LastOf(s[..|s| - 1], c)
  }

  predicate IsSpace(c: int) { c == 32 || 9 <= c <= 13 }

  function SkipSpace(s: seq<int>): (r: seq<int>) {
    if s != [] && IsSpace(s[0]) then SkipSpace(s[1..]) else s
  }

  /** `atoi`, of a number that does not overflow. */
  ghost function Atoi(s: seq<int>): (r: int) {
    var t := SkipSpace(s);
    if t != [] && t[0] == 45 then -Number(t[1..][..Digits(t[1..])])
    else if t != [] && t[0] == 43 then Number(t[1..][..Digits(t[1..])])
    else Number(t[..Digits(t)])
  }

  method ReadNumber(s: seq<int>) returns (n: int)
    ensures n == Number(s[..Digits(s)])
  {
    n := 0;
    var i := 0;
    assert s[..0] == [];
    while i < |s| && IsDigit(s[i])
      invariant 0 <= i <= Digits(s) && n == Number(s[..i])
    {
      NumberMore(s[..i], s[i]);
      assert s[..i + 1] == s[..i] + [s[i]];
      n := 10 * n + (s[i] - 48);
      i := i + 1;
    }
  }

  method ReadInt(s: seq<int>) returns (n: int)
    ensures n == Atoi(s)
  {
    var t := SkipSpace(s);
    if t != [] && t[0] == 45 {
      n := ReadNumber(t[1..]);
      n := -n;
    } else if t != [] && t[0] == 43 {
      n := ReadNumber(t[1..]);
    } else {
      n := ReadNumber(t);
    }
  }

  /** The epoch: 0 without a colon. */
  ghost function Epoch(s: seq<int>): (r: int) {
    if FirstOf(s, COLON).Some? then Atoi(s) % TWO32 else 0
  }

  function AfterEpoch(s: seq<int>): (r: seq<int>) {
    match FirstOf(s, COLON)
    case None => s
    case Some(k) => s[k + 1..]
  }

  function Upstream(s: seq<int>): (r: seq<int>) {
    match LastOf(AfterEpoch(s), DASH)
    case None => AfterEpoch(s)
    case Some(k) => AfterEpoch(s)[..k]
  }

  function Revision(s: seq<int>): (r: Option<seq<int>>) {
    match LastOf(AfterEpoch(s), DASH)
    case None => None
    case Some(k) => Some(AfterEpoch(s)[k + 1..])
  }

  lemma PartsAreText(s: seq<int>)
    requires IsText(s)
    ensures IsText(AfterEpoch(s)) && IsText(Upstream(s)) && IsText(Text(Revision(s)))
  {
  }

  /** The order of versions: epoch, then upstream version, then revision; no revision counts as an empty one. */
  ghost function VersionCmp(a: seq<int>, b: seq<int>): (r: int) {
    Lex(Sign(Epoch(a) - Epoch(b)), Cmp(Key(Upstream(a)), Key(Upstream(b))),
        Cmp(Key(Text(Revision(a))), Key(Text(Revision(b)))))
  }

  /** The first of three comparisons that decides. */
  function Lex(e: int, u: int, r: int): int {
    if e != 0 then e else if u != 0 then u else r
  }

  lemma LexFlips(e: int, u: int, r: int)
    ensures Lex(-e, -u, -r) == -Lex(e, u, r)
  {
  }

  lemma SignFlips(x: int, y: int)
    ensures Sign(x - y) == -Sign(y - x)
  {
  }

  /** `version_compare`. */
  method Compare(ver1: seq<int>, ver2: seq<int>) returns (result: int)
    requires IsText(ver1) && IsText(ver2)
    ensures Sign(result) == VersionCmp(ver1, ver2)
  {
    PartsAreText(ver1);
    PartsAreText(ver2);
    var epoch1, epoch2 := 0, 0;
    if FirstOf(ver1, COLON).Some? {
      var n := ReadInt(ver1);
      epoch1 := n % TWO32;
    }
    if FirstOf(ver2, COLON).Some? {
      var n := ReadInt(ver2);
      epoch2 := n % TWO32;
    }
    if epoch1 < epoch2 {
      return -1;
    }
    if epoch1 > epoch2 {
      return 1;
    }
    result := ComparePart(Some(Upstream(ver1)), Some(Upstream(ver2)));
    if result == 0 {
      result := ComparePart(Revision(ver1), Revision(ver2));
    }
  }

  /** The order is total: comparing the other way round flips the sign. */
  lemma VersionFlips(a: seq<int>, b: seq<int>)
    ensures VersionCmp(a, b) == -VersionCmp(b, a)
  {
    var ua, ub, ra, rb := Key(Upstream(a)), Key(Upstream(b)), Key(Text(Revision(a))), Key(Text(Revision(b)));
    CmpFlips(ua, ub);
    CmpFlips(ra, rb);
    SignFlips(Epoch(a), Epoch(b));
    LexFlips(Sign(Epoch(b) - Epoch(a)), Cmp(ub, ua), Cmp(rb, ra));
  }

  /** ... and transitive, equal versions being interchangeable. */
  lemma VersionTransitive(a: seq<int>, b: seq<int>, c: seq<int>)
    requires VersionCmp(a, b) <= 0 && VersionCmp(b, c) <= 0
    ensures VersionCmp(a, c) <= 0 && (VersionCmp(a, c) == 0 ==> VersionCmp(a, b) == 0 && VersionCmp(b, c) == 0)
  {
    if Epoch(a) == Epoch(b) == Epoch(c) {
      var ua, ub, uc := Key(Upstream(a)), Key(Upstream(b)), Key(Upstream(c));
      CmpTransitive(ua, ub, uc);
      if Cmp(ua, ub) == 0 && Cmp(ub, uc) == 0 {
        CmpFlips(ua, uc);
        CmpFlips(ua, ub);
        CmpFlips(ub, uc);
        CmpTransitive(uc, ub, ua);
        CmpTransitive(Key(Text(Revision(a))), Key(Text(Revision(b))), Key(Text(Revision(c))));
      }
    }
  }

  /** What each operator asks of the order. */
  ghost predicate Satisfies(op: int, a: seq<int>, b: seq<int>) {
    || op == 6
    || (op == 1 && VersionCmp(a, b) == 0)
    || (op == 2 && VersionCmp(a, b) < 0)
    || (op == 3 && VersionCmp(a, b) <= 0)
    || (op == 4 && VersionCmp(b, a) < 0)
    || (op == 5 && VersionCmp(b, a) <= 0)
  }

  /** `test_version`. */
  method TestVersion(ver1: seq<int>, ver2: seq<int>, operator: int) returns (r: bool)
    requires IsText(ver1) && IsText(ver2)
    ensures r == Satisfies(operator, ver1, ver2)
  {
    var result := Compare(ver1, ver2);
    VersionFlips(ver1, ver2);
    match operator {
      case 6 => r := true;
      case 1 => r := result == 0;
      case 2 => r := result < 0;
      case 3 => r := result <= 0;
      case 4 => r := result > 0;
      case 5 => r := result >= 0;
      case _ => r := false;
    }
  }
}
