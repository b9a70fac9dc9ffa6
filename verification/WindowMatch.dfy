/** From the window to the input: what the search along a chain finds there is what is to be found in the input. */
module WindowMatch {
  import opened CommonBytes
  import opened HashChains
  import opened LongestMatch
  import opened LazyMatch

  /** The first `n` bytes of `w` are those of the input from `base` on. */
  ghost predicate Mirrors(w: seq<bv8>, input: seq<bv8>, base: nat, n: nat) {
    n <= |w| && base + n <= |input| && forall i :: 0 <= i < n ==> w[i] == input[base + i]
  }

  function Least(a: nat, b: nat): (r: nat) { if a < b then a else b }

  /** The window up to `n` has the next 258 bytes from `s` on, or all that are left. */
  ghost predicate Ahead(w: seq<bv8>, input: seq<bv8>, base: nat, s: nat, n: nat) {
    && Mirrors(w, input, base, n) && s < n && s + 258 < |w| && (n >= s + 258 || base + n == |input|)
    && (base > 0 ==> s >= MAX_DIST)
  }

  lemma ByteAgrees(w: seq<bv8>, input: seq<bv8>, base: nat, s: nat, n: nat, q: nat, i: nat)
    requires Mirrors(w, input, base, n) && q < s && s + i < n
    ensures SameByte(input, base + s, base + q, i) <==> w[s + i] == w[q + i]
  {
    assert w[s + i] == input[base + (s + i)];
    assert w[q + i] == input[base + (q + i)];
  }

  lemma CommonAgrees(w: seq<bv8>, input: seq<bv8>, base: nat, s: nat, n: nat, q: nat)
    requires Ahead(w, input, base, s, n) && q < s
    ensures Common(input, base + s, base + q) == Least(Agreement(w, s, q), n - s)
  {
    var p, r := base + s, base + q;
    var m := Least(Agreement(w, s, q), n - s);
    forall i | 0 <= i < m
      ensures SameByte(input, p, r, i)
    {
      AgreesOn(w, s, q, i);
      ByteAgrees(w, input, base, s, n, q, i);
    }
    if m < 258 && m < n - s {
      ByteAgrees(w, input, base, s, n, q, m);
    }
    RunIs(input, p, r, if p + 258 <= |input| then p + 258 else |input|, m);
  }

  // ----- the chain holds the nearest strings -----

  lemma AgreeThrough(w: seq<bv8>, r: nat, q: nat, s: nat)
    requires KeysAgree(w, r, s) && KeysAgree(w, q, s)
    ensures KeysAgree(w, r, q)
  {
    AgreeingKeys(w, r, s);
    AgreeingKeys(w, q, s);
    AgreeingKeys(w, r, q);
  }

  /** The walk from `cur` down: candidates, nearest first, and every string with the key of `s` that is above `limit`
      and not above `cur`, unless there are more than `n`. */
  ghost predicate AllFrom(w: seq<bv8>, s: nat, cur: nat, limit: nat, list: seq<nat>, n: nat) {
    && |list| <= n
    && (forall i :: 0 <= i < |list| ==> Candidate(w, s, list[i]) && list[i] <= cur)
    && (forall i, j :: 0 <= i < j < |list| ==> list[i] > list[j])
    && forall r: nat {:trigger KeysAgree(w, r, s)} :: limit < r <= cur && KeysAgree(w, r, s) ==>
          r in list || (|list| == n && n > 0 && r < list[n - 1])
  }

  lemma OnlyOne(w: seq<bv8>, s: nat, cur: nat, q: nat, limit: nat, n: nat)
    requires Candidate(w, s, cur) && n > 0 && (q <= limit || n == 1)
    requires forall r: nat {:trigger KeysAgree(w, r, s)} :: q < r < cur ==> !KeysAgree(w, r, s)
    ensures AllFrom(w, s, cur, limit, [cur], n)
  {
  }

  lemma SkippedAll(w: seq<bv8>, prev: seq<nat>, s: nat, cur: nat)
    requires Chained(w, prev, s + 1) && Candidate(w, s, cur)
    ensures PrevOf(prev, cur) < cur
    ensures forall r: nat {:trigger KeysAgree(w, r, s)} :: PrevOf(prev, cur) < r < cur ==> !KeysAgree(w, r, s)
  {
    var q := PrevOf(prev, cur);
    assert Links(w, q, cur);
    forall r: nat | q < r < cur && KeysAgree(w, r, s)
      ensures false
    {
      AgreeThrough(w, r, cur, s);
    }
  }

  lemma {:induction false} WalkHasAll(w: seq<bv8>, prev: seq<nat>, s: nat, cur: nat, limit: nat, n: nat)
    requires Chained(w, prev, s + 1) && Candidate(w, s, cur) && limit == Limit(s) && n > 0
    ensures AllFrom(w, s, cur, limit, Walk(prev, cur, limit, n), n)
    decreases n
  {
    var q := PrevOf(prev, cur);
    SkippedAll(w, prev, s, cur);
    NextCandidate(w, prev, s, cur);
    WalkOn(prev, cur, limit, n);
    if q > limit && n > 1 {
      WalkHasAll(w, prev, s, q, limit, n - 1);
      FurtherDown(w, s, cur, q, limit, Walk(prev, q, limit, n - 1), n - 1);
      assert Walk(prev, cur, limit, n) == [cur] + Walk(prev, q, limit, n - 1);
    } else {
      OnlyOne(w, s, cur, q, limit, n);
    }
  }

  lemma FurtherDown(w: seq<bv8>, s: nat, cur: nat, q: nat, limit: nat, list: seq<nat>, n: nat)
    requires AllFrom(w, s, q, limit, list, n) && Candidate(w, s, cur) && q < cur && n > 0
    requires forall r: nat {:trigger KeysAgree(w, r, s)} :: q < r < cur ==> !KeysAgree(w, r, s)
    ensures AllFrom(w, s, cur, limit, [cur] + list, n + 1)
  {
    var more := [cur] + list;
    assert more[0] == cur && forall i :: 0 < i < |more| ==> more[i] == list[i - 1];
    forall i, j | 0 <= i < j < |more|
      ensures more[i] > more[j]
    {
      assert i > 0 ==> list[i - 1] > list[j - 1];
    }
    forall r: nat | limit < r <= cur && KeysAgree(w, r, s)
      ensures r in more || (|more| == n + 1 && r < more[n])
    {
      if r <= q && r in list {
        assert r in more;
      }
    }
  }

  // ----- in the input -----

  ghost function Places(base: nat, list: seq<nat>): (r: seq<nat>)
    ensures |r| == |list| && forall i :: 0 <= i < |r| ==> r[i] == base + list[i]
  {
    seq(|list|, i requires 0 <= i < |list| => base + list[i])
  }

  /** Three bytes in common make one key. */
  lemma CommonKeys(w: seq<bv8>, input: seq<bv8>, base: nat, s: nat, n: nat, q: nat)
    requires Ahead(w, input, base, s, n) && q < s && Common(input, base + s, base + q) >= 3
    ensures KeysAgree(w, q, s)
  {
    CommonAgrees(w, input, base, s, n, q);
    AgreesOn(w, s, q, 0);
    AgreesOn(w, s, q, 1);
    AgreesOn(w, s, q, 2);
    AgreeingKeys(w, q, s);
  }

  lemma InWindow(base: nat, s: nat, r: nat)
    requires (base > 0 ==> s >= MAX_DIST) && 0 < r < base + s < r + MAX_DIST
    ensures r > base + Limit(s)
  {
  }

  lemma ReachedByWalk(w: seq<bv8>, input: seq<bv8>, base: nat, s: nat, n: nat, head: nat, walk: seq<nat>, chain: nat,
                      r: nat)
    requires Ahead(w, input, base, s, n) && NoneBetween(w, head, s) && AllFrom(w, s, head, Limit(s), walk, chain)
    requires 0 < r < base + s < r + MAX_DIST && Common(input, base + s, r) >= 3
    ensures r in Places(base, walk) || (|walk| == chain && chain > 0 && r < base + walk[chain - 1])
  {
    InWindow(base, s, r);
    var q := r - base;
    CommonKeys(w, input, base, s, n, q);
    if q in walk {
      var i :| 0 <= i < |walk| && walk[i] == q;
      assert Places(base, walk)[i] == r;
    }
  }

  /** The strings walked are the nearest in the input. */
  lemma WalkIsNearest(w: seq<bv8>, input: seq<bv8>, base: nat, prev: seq<nat>, s: nat, n: nat, head: nat, chain: nat)
    requires Ahead(w, input, base, s, n) && Chained(w, prev, s + 1) && Links(w, head, s) && chain > 0
    requires Candidate(w, s, head) && MAX_DIST == 32506
    ensures Nearest(input, base + s, Places(base, Walk(prev, head, Limit(s), chain)), chain)
  {
    var walk, p := Walk(prev, head, Limit(s), chain), base + s;
    var list := Places(base, walk);
    WalkHasAll(w, prev, s, head, Limit(s), chain);
    forall i | 0 <= i < |list|
      ensures 0 < list[i] < p <= list[i] + 32506
    {
      assert Candidate(w, s, walk[i]);
    }
    forall r: nat | 0 < r < p < r + 32506 && Common(input, p, r) >= 3
      ensures r in list || (|list| == chain && r < list[chain - 1])
    {
      ReachedByWalk(w, input, base, s, n, head, walk, chain, r);
    }
  }

  /** With the chain empty, or its head out of reach, there are none. */
  lemma NoneIsNearest(w: seq<bv8>, input: seq<bv8>, base: nat, s: nat, n: nat, head: nat, chain: nat)
    requires Ahead(w, input, base, s, n) && Links(w, head, s) && (head == 0 || s > head + MAX_DIST)
    requires MAX_DIST == 32506 && chain > 0
    ensures Nearest(input, base + s, [], chain)
  {
    var p := base + s;
    forall r: nat | 0 < r < p < r + 32506 && Common(input, p, r) >= 3
      ensures false
    {
      InWindow(base, s, r);
      CommonKeys(w, input, base, s, n, r - base);
    }
  }

  lemma CommonOfTried(w: seq<bv8>, input: seq<bv8>, base: nat, s: nat, n: nat, walk: seq<nat>, k: nat, i: nat)
    requires Ahead(w, input, base, s, n) && i < k <= |walk| && walk[..k][i] < s
    ensures Places(base, walk)[i] < base + s && walk[..k][i] == walk[i]
    ensures Common(input, base + s, Places(base, walk)[i]) == Least(Agreement(w, s, walk[i]), n - s)
  {
    CommonAgrees(w, input, base, s, n, walk[i]);
  }

  lemma LongestInInput(w: seq<bv8>, input: seq<bv8>, base: nat, s: nat, n: nat, walk: seq<nat>, k: nat, best: nat,
                       start: nat, i: nat)
    requires Ahead(w, input, base, s, n) && k <= |walk| && best <= 258 && FirstWith(w, s, walk[..k], best, start, i)
    ensures start < s && LongestAt(input, base + s, Places(base, walk), Least(best, n - s), s - start, i)
  {
    var p, list, m := base + s, Places(base, walk), Least(best, n - s);
    forall j | 0 <= j <= i
      ensures list[j] < p && Common(input, p, list[j]) == Least(Agreement(w, s, walk[j]), n - s)
    {
      CommonOfTried(w, input, base, s, n, walk, k, j);
    }
    forall j | 0 <= j < i
      ensures p + m == |input| || Common(input, p, list[j]) < m
    {
      assert Agreement(w, s, walk[..k][j]) < best;
    }
  }

  /** What the code makes of the longest match found. */
  ghost predicate Taken(held: nat, best: nat, dist: nat, left: nat, len: nat) {
    var m := Least(best, left);
    && (m <= held ==> len <= held)
    && (m > held ==> len == if m == 3 && dist > 4096 then 2 else m)
  }

  lemma NoMoreInCommon(w: seq<bv8>, input: seq<bv8>, base: nat, s: nat, n: nat, walk: seq<nat>, held: nat, start0: nat,
                       best: nat, start: nat, k: nat)
    requires Ahead(w, input, base, s, n) && k <= |walk| && Longest(w, s, walk[..k], held, start0, best, start)
    ensures forall i :: 0 <= i < k ==> Places(base, walk)[i] < base + s
    ensures forall i :: 0 <= i < k ==> Common(input, base + s, Places(base, walk)[i]) <= Least(best, n - s)
  {
    var p, list := base + s, Places(base, walk);
    forall i | 0 <= i < k
      ensures list[i] < p && Common(input, p, list[i]) <= Least(best, n - s)
    {
      assert walk[..k][i] < s && Agreement(w, s, walk[..k][i]) <= best;
      CommonOfTried(w, input, base, s, n, walk, k, i);
    }
  }

  lemma NoneEnough(w: seq<bv8>, input: seq<bv8>, base: nat, s: nat, n: nat, walk: seq<nat>, held: nat, k: nat)
    requires Ahead(w, input, base, s, n) && 0 < k <= |walk| && held < 128
    requires forall i :: 0 <= i < k - 1 ==> walk[i] < s && NotEnough(w, s, walk[i], held)
    ensures forall i :: 0 <= i < k - 1 ==> Places(base, walk)[i] < base + s
    ensures forall i :: 0 <= i < k - 1 ==> Common(input, base + s, Places(base, walk)[i]) < 128
  {
    var p, list := base + s, Places(base, walk);
    forall i | 0 <= i < k - 1
      ensures list[i] < p && Common(input, p, list[i]) < 128
    {
      assert NotEnough(w, s, walk[i], held);
      CommonAgrees(w, input, base, s, n, walk[i]);
    }
  }

  /** What the search found, cut to what is left of the input. */
  lemma SearchedIsBest(w: seq<bv8>, input: seq<bv8>, base: nat, s: nat, n: nat, walk: seq<nat>, held: nat, start0: nat,
                       best: nat, start: nat, len: nat, k: nat)
    requires Ahead(w, input, base, s, n) && SearchedTo(w, walk, s, held, start0, best, start, k) && best <= 258
    requires held < 128
    requires Taken(held, best, if start < s then s - start else 0, n - s, len)
    ensures BestOf(input, base + s, held, len, if start < s then s - start else 0, Places(base, walk), k,
              Least(best, n - s))
  {
    NoMoreInCommon(w, input, base, s, n, walk, held, start0, best, start, k);
    NoneEnough(w, input, base, s, n, walk, held, k);
    if best > held {
      var i: nat :| FirstWith(w, s, walk[..k], best, start, i);
      LongestInInput(w, input, base, s, n, walk, k, best, start, i);
    }
  }

  /** A search along the chain finds what is to be found in the input. */
  lemma ChainFinds(w: seq<bv8>, input: seq<bv8>, base: nat, prev: seq<nat>, s: nat, n: nat, head: nat, held: nat,
                   start0: nat, best: nat, start: nat, len: nat)
    requires Ahead(w, input, base, s, n) && Chained(w, prev, s + 1) && Links(w, head, s) && Candidate(w, s, head)
    requires held < 16 && best <= 258
    requires ChainSearched(w, prev, s, head, held, start0, best, start)
    requires Taken(held, best, if start < s then s - start else 0, n - s, len)
    ensures Finds(input, base + s, held, len, if start < s then s - start else 0)
  {
    var walk := Walk(prev, head, Limit(s), ChainLength(held));
    assert Left(s, s);
    var k: nat :| SearchedTo(w, walk, s, held, start0, best, start, k);
    WalkIsNearest(w, input, base, prev, s, n, head, ChainLength(held));
    SearchedIsBest(w, input, base, s, n, walk, held, start0, best, start, len, k);
    assert BestNear(input, base + s, held, len, if start < s then s - start else 0, Places(base, walk), k,
        Least(best, n - s));
  }

  /** Without one there was nothing to be found. */
  lemma NothingFinds(w: seq<bv8>, input: seq<bv8>, base: nat, s: nat, n: nat, head: nat, held: nat, dist: nat)
    requires Ahead(w, input, base, s, n) && Links(w, head, s) && 2 <= held
    requires head == 0 || s > head + MAX_DIST || held >= 16
    ensures Finds(input, base + s, held, 2, dist)
  {
    if held < 16 {
      NoneIsNearest(w, input, base, s, n, head, ChainLength(held));
      assert BestNear(input, base + s, held, 2, dist, [], 0, 0);
    }
  }
}
