/** The rules of section 5.6.12 of the Debian Policy Manual, on the strings themselves: which of two versions comes
    first, with the characters given by their codes. */
module DebianRules {
  import opened PrefixCode
  import opened VersionOrder
  import opened DebVersion

  // ----- what comes before the first difference -----

  /** Nothing that would lengthen a number before it. */
  ghost predicate NoDigitFirst(a: seq<int>) {
    a == [] || !(48 <= a[0] <= 57)
  }

  lemma {:induction false} DigitsOver(s: seq<int>, a: seq<int>)
    requires NoDigitFirst(a)
    ensures Digits(s + a) == Digits(s)
    decreases |s|
  {
    if s == [] {
      assert s + a == a;
    } else {
      assert (s + a)[1..] == s[1..] + a;
      DigitsOver(s[1..], a);
    }
  }

  lemma KeyOfNumber(t: seq<int>, n: nat, x: seq<int>, rest: seq<int>)
    requires t != [] && 48 <= t[0] <= 57 && Digits(t) == n && t[..n] == x && t[n..] == rest
    ensures Key(t) == [0] + ([Number(x)] + Key(rest))
  {
  }

  lemma SomeDigits(t: seq<int>)
    requires t != [] && 48 <= t[0] <= 57
    ensures 0 < Digits(t) <= |t|
  {
  }

  lemma Front(s: seq<int>, a: seq<int>, n: nat)
    requires n <= |s|
    ensures (s + a)[..n] == s[..n] && (s + a)[n..] == s[n..] + a
  {
  }

  lemma KeyOver(s: seq<int>, a: seq<int>)
    requires NoDigitFirst(a) && s != [] && 48 <= s[0] <= 57
    ensures var n := Digits(s);
            0 < n <= |s| && Key(s + a) == [0] + ([Number(s[..n])] + Key(s[n..] + a))
  {
    var n := Digits(s);
    SomeDigits(s);
    DigitsOver(s, a);
    Front(s, a, n);
    KeyOfNumber(s + a, n, s[..n], s[n..] + a);
  }

  lemma CmpOne(x: int, a: seq<int>, b: seq<int>)
    ensures Cmp([x] + a, [x] + b) == Cmp(a, b)
  {
    CmpStep([x] + a, [x] + b);
    FirstAndRest(x, a);
    FirstAndRest(x, b);
  }

  /** A common beginning decides nothing. */
  lemma {:induction false} SameStart(s: seq<int>, a: seq<int>, b: seq<int>)
    requires NoDigitFirst(a) && NoDigitFirst(b)
    ensures Cmp(Key(s + a), Key(s + b)) == Cmp(Key(a), Key(b))
    decreases |s|
  {
    if s == [] {
      assert s + a == a && s + b == b;
    } else if 48 <= s[0] <= 57 {
      var n := Digits(s);
      KeyOver(s, a);
      KeyOver(s, b);
      CmpOne(0, [Number(s[..n])] + Key(s[n..] + a), [Number(s[..n])] + Key(s[n..] + b));
      CmpOne(Number(s[..n]), Key(s[n..] + a), Key(s[n..] + b));
      SameStart(s[n..], a, b);
    } else {
      assert (s + a)[1..] == s[1..] + a && (s + b)[1..] == s[1..] + b;
      CmpOne(Order(s[0]), Key(s[1..] + a), Key(s[1..] + b));
      SameStart(s[1..], a, b);
    }
  }

  // ----- the first difference -----

  lemma FirstOfKey(c: int, t: seq<int>)
    requires 1 <= c <= 255 && !(48 <= c <= 57)
    ensures Key([c] + t) != [] && Key([c] + t)[0] == Order(c)
  {
  }

  lemma DecidedAtOnce(s: seq<int>, c: int, t: seq<int>, d: int, u: seq<int>)
    requires 1 <= c <= 255 && !(48 <= c <= 57) && 1 <= d <= 255 && !(48 <= d <= 57) && Order(c) < Order(d)
    ensures Cmp(Key(s + [c] + t), Key(s + [d] + u)) == -1
  {
    SameStart(s, [c] + t, [d] + u);
    assert s + ([c] + t) == s + [c] + t && s + ([d] + u) == s + [d] + u;
    FirstOfKey(c, t);
    FirstOfKey(d, u);
    CmpStep(Key([c] + t), Key([d] + u));
  }

  lemma DecidedAtEnd(s: seq<int>, d: int, u: seq<int>)
    requires 1 <= d <= 255 && !(48 <= d <= 57) && Order(d) != 0
    ensures Cmp(Key(s), Key(s + [d] + u)) == if Order(d) > 0 then -1 else 1
  {
    SameStart(s, [], [d] + u);
    assert s + [] == s && s + ([d] + u) == s + [d] + u;
    FirstOfKey(d, u);
    CmpStep(Key([]), Key([d] + u));
  }

  // ----- the rules -----

  /** A tilde sorts before everything, even the end of a part. */
  lemma TildeFirst(s: seq<int>, t: seq<int>)
    ensures Cmp(Key(s + [126] + t), Key(s)) == -1
  {
    DecidedAtEnd(s, 126, t);
    CmpFlips(Key(s), Key(s + [126] + t));
  }

  lemma TildeBeforeOthers(s: seq<int>, t: seq<int>, d: int, u: seq<int>)
    requires 1 <= d <= 255 && !(48 <= d <= 57) && d != 126
    ensures Cmp(Key(s + [126] + t), Key(s + [d] + u)) == -1
  {
    DecidedAtOnce(s, 126, t, d, u);
  }

  /** The end comes before everything else that is not a digit. */
  lemma EndFirst(s: seq<int>, d: int, u: seq<int>)
    requires 1 <= d <= 255 && !(48 <= d <= 57) && d != 126
    ensures Cmp(Key(s), Key(s + [d] + u)) == -1
  {
    DecidedAtEnd(s, d, u);
  }

  /** Letters sort before the other characters. */
  lemma LettersFirst(s: seq<int>, c: int, t: seq<int>, d: int, u: seq<int>)
    requires 65 <= c <= 90 || 97 <= c <= 122
    requires 1 <= d <= 255 && !(65 <= d <= 90 || 97 <= d <= 122) && !(48 <= d <= 57) && d != 126
    ensures Cmp(Key(s + [c] + t), Key(s + [d] + u)) == -1
  {
    DecidedAtOnce(s, c, t, d, u);
  }

  /** Letters among themselves, and the others among themselves, by their codes. */
  lemma ByCode(s: seq<int>, c: int, t: seq<int>, d: int, u: seq<int>)
    requires 1 <= c < d <= 255 && !(48 <= c <= 57) && !(48 <= d <= 57) && c != 126 && d != 126
    requires (65 <= c <= 90 || 97 <= c <= 122) <==> (65 <= d <= 90 || 97 <= d <= 122)
    ensures Cmp(Key(s + [c] + t), Key(s + [d] + u)) == -1
  {
    DecidedAtOnce(s, c, t, d, u);
  }

  /** Numbers by their values, and equal ones not at all. */
  lemma NumbersByValue(x: seq<int>, a: seq<int>, y: seq<int>, b: seq<int>)
    requires AllDigits(x) && AllDigits(y) && x != [] && y != [] && NoDigitFirst(a) && NoDigitFirst(b)
    ensures Cmp(Key(x + a), Key(y + b)) == if Number(x) < Number(y) then -1 else if Number(x) > Number(y) then 1
            else Cmp(Key(a), Key(b))
  {
    NumberFirst(x, a);
    NumberFirst(y, b);
    AtNumbers(x + a, y + b);
    NumbersDecide(x + a, y + b);
  }

  lemma {:induction false} AllAreDigits(x: seq<int>)
    requires AllDigits(x)
    ensures Digits(x) == |x|
  {
    if x != [] {
      AllAreDigits(x[1..]);
    }
  }

  lemma NumberFirst(x: seq<int>, a: seq<int>)
    requires AllDigits(x) && x != [] && NoDigitFirst(a)
    ensures IsDigit((x + a)[0]) && Digits(x + a) == |x| && (x + a)[..|x|] == x && (x + a)[|x|..] == a
  {
    AllAreDigits(x);
    DigitsOver(x, a);
  }

  // ----- whole versions -----

  ghost predicate Without(s: seq<int>, c: int) {
    forall i :: 0 <= i < |s| ==> s[i] != c
  }

  lemma FirstColon(e: seq<int>, rest: seq<int>)
    requires Without(e, 58)
    ensures FirstOf(e + [58] + rest, 58) == Some(|e|)
  {
    var s := e + [58] + rest;
    assert s[|e|] == 58;
    var r := FirstOf(s, 58);
    assert r.Some? && forall k :: 0 <= k < |e| ==> s[k] == e[k];
  }

  lemma LastIs(s: seq<int>, c: int, p: nat)
    requires p < |s| && s[p] == c && forall k :: p < k < |s| ==> s[k] != c
    ensures LastOf(s, c) == Some(p)
  {
  }

  lemma DashPlaces(u: seq<int>, r: seq<int>, s: seq<int>)
    requires Without(r, 45) && s == u + [45] + r
    ensures |u| < |s| && s[|u|] == 45 && forall k :: |u| < k < |s| ==> s[k] != 45
  {
    forall k | |u| < k < |s|
      ensures s[k] != 45
    {
      assert s[k] == r[k - |u| - 1];
    }
  }

  lemma LastDash(u: seq<int>, r: seq<int>, s: seq<int>)
    requires Without(r, 45) && s == u + [45] + r
    ensures LastOf(s, 45) == Some(|u|)
  {
    DashPlaces(u, r, s);
    LastIs(s, 45, |u|);
  }

  lemma AtoiOf(e: seq<int>, rest: seq<int>)
    requires AllDigits(e) && e != []
    ensures Atoi(e + [58] + rest) == Number(e)
  {
    var s := e + [58] + rest;
    NumberFirst(e, [58] + rest);
    assert e + ([58] + rest) == s;
    assert SkipSpace(s) == s;
  }

  lemma EpochOf(e: seq<int>, rest: seq<int>)
    requires AllDigits(e) && e != []
    ensures Epoch(e + [58] + rest) == Number(e) % 0x1_0000_0000 && AfterEpoch(e + [58] + rest) == rest
  {
    FirstColon(e, rest);
    AtoiOf(e, rest);
    assert (e + [58] + rest)[|e| + 1..] == rest;
  }

  lemma DashSplits(s: seq<int>, u: seq<int>, r: seq<int>)
    requires AfterEpoch(s) == u + [45] + r && Without(r, 45)
    ensures Upstream(s) == u && Revision(s) == Some(r)
  {
    var rest := u + [45] + r;
    LastDash(u, r, rest);
    assert rest[..|u|] == u && rest[|u| + 1..] == r;
  }

  /** An epoch, a colon, a version, a dash and a revision are read as that. */
  lemma PartsOf(e: seq<int>, u: seq<int>, r: seq<int>)
    requires AllDigits(e) && e != [] && Without(r, 45)
    ensures var s := e + [58] + (u + [45] + r);
            Epoch(s) == Number(e) % 0x1_0000_0000 && Upstream(s) == u && Revision(s) == Some(r)
  {
    EpochOf(e, u + [45] + r);
    DashSplits(e + [58] + (u + [45] + r), u, r);
  }

  /** Without a colon the epoch is 0, and without a dash there is no revision. */
  lemma PartsWithout(u: seq<int>)
    requires Without(u, 58) && Without(u, 45)
    ensures Epoch(u) == 0 && Upstream(u) == u && Revision(u) == None
  {
  }

  lemma RevisionOnly(u: seq<int>, r: seq<int>)
    requires Without(u, 58) && Without(r, 58) && Without(r, 45)
    ensures var s := u + [45] + r; Epoch(s) == 0 && Upstream(s) == u && Revision(s) == Some(r)
  {
    var s := u + [45] + r;
    LastDash(u, r, s);
    assert Without(s, 58) by {
      forall i | 0 <= i < |s|
        ensures s[i] != 58
      {
        assert i > |u| ==> s[i] == r[i - |u| - 1];
      }
    }
    assert s[..|u|] == u && s[|u| + 1..] == r;
  }

  /** The epoch decides first, then the version, then the revision. */
  lemma PartsInTurn(e: seq<int>, u: seq<int>, r: seq<int>, e': seq<int>, u': seq<int>, r': seq<int>)
    requires AllDigits(e) && e != [] && Without(r, 45) && AllDigits(e') && e' != [] && Without(r', 45)
    requires Number(e) < 0x1_0000_0000 && Number(e') < 0x1_0000_0000
    ensures VersionCmp(e + [58] + (u + [45] + r), e' + [58] + (u' + [45] + r')) ==
            if Number(e) < Number(e') then -1 else if Number(e) > Number(e') then 1
            else if Cmp(Key(u), Key(u')) != 0 then Cmp(Key(u), Key(u'))
            else Cmp(Key(r), Key(r'))
  {
    PartsOf(e, u, r);
    PartsOf(e', u', r');
    SmallEpoch(e);
    SmallEpoch(e');
  }

  lemma SmallEpoch(e: seq<int>)
    requires AllDigits(e) && Number(e) < 0x1_0000_0000
    ensures Number(e) % 0x1_0000_0000 == Number(e)
  {
    NumberRange(e);
  }

  /** A release candidate marked by a tilde comes before the release: 1.0~rc1 before 1.0, and so for every version. */
  lemma CandidateFirst(v: seq<int>, t: seq<int>)
    requires Without(v, 58) && Without(v, 45) && Without(t, 58) && Without(t, 45)
    ensures VersionCmp(v + [126] + t, v) == -1 && Satisfies(2, v + [126] + t, v) && !Satisfies(5, v + [126] + t, v)
  {
    var s := v + [126] + t;
    assert forall i :: 0 <= i < |s| ==> s[i] == if i < |v| then v[i] else if i == |v| then 126 else t[i - |v| - 1];
    PartsWithout(s);
    PartsWithout(v);
    TildeFirst(v, t);
    VersionFlips(s, v);
  }
}
