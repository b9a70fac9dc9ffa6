/** How far two strings of bytes are the same. */
module CommonBytes {

  ghost predicate SameByte(x: seq<bv8>, a: nat, b: nat, i: nat) {
    a + i < |x| && b + i < |x| && x[a + i] == x[b + i]
  }

  /** How many bytes from `a` on, up to `end`, are the same as those from `b` on. */
  ghost function Run(x: seq<bv8>, a: nat, b: nat, end: nat): (r: nat)
    requires b < a <= end <= |x|
    ensures a + r <= end && (a + r < end ==> x[a + r] != x[b + r])
    decreases end - a
  {
    if a == end || x[a] != x[b] then 0 else 1 + Run(x, a + 1, b + 1, end)
  }

  lemma {:induction false} RunSame(x: seq<bv8>, a: nat, b: nat, end: nat, i: nat)
    requires b < a <= end <= |x| && i < Run(x, a, b, end)
    ensures SameByte(x, a, b, i)
    decreases i
  {
    if i > 0 {
      RunSame(x, a + 1, b + 1, end, i - 1);
    }
  }

  lemma {:induction false} RunAtLeast(x: seq<bv8>, a: nat, b: nat, end: nat, n: nat)
    requires b < a && a + n <= end <= |x| && forall i :: 0 <= i < n ==> SameByte(x, a, b, i)
    ensures Run(x, a, b, end) >= n
    decreases n
  {
    if n > 0 {
      assert SameByte(x, a, b, 0);
      var a', b' := a + 1, b + 1;
      forall i | 0 <= i < n - 1
        ensures SameByte(x, a', b', i)
      {
        assert SameByte(x, a, b, i + 1);
      }
      RunAtLeast(x, a', b', end, n - 1);
    }
  }

  /** What cannot be made longer is all they have in common. */
  lemma RunIs(x: seq<bv8>, a: nat, b: nat, end: nat, n: nat)
    requires b < a && a + n <= end <= |x| && (forall i :: 0 <= i < n ==> SameByte(x, a, b, i))
    requires a + n == end || x[a + n] != x[b + n]
    ensures Run(x, a, b, end) == n
  {
    RunAtLeast(x, a, b, end, n);
    if Run(x, a, b, end) > n {
      RunSame(x, a, b, end, n);
    }
  }
}

/** Which tokens `deflate` makes of its input, said of the input alone: the longest match at a string is sought among
    the nearest earlier strings that begin alike, and taken unless the next string has a longer one. */
module LazyMatch {
  import opened CommonBytes
  import opened Tokens

  // ----- matches -----

  /** How many bytes, up to 258, the strings at `p` and `r` have in common. */
  ghost function Common(input: seq<bv8>, p: nat, r: nat): (n: nat)
    requires r < p <= |input|
    ensures n <= 258 && p + n <= |input|
  {
    Run(input, p, r, if p + 258 <= |input| then p + 258 else |input|)
  }

  // ----- one search -----

  /** At most `n` earlier strings, the nearest first, none nearer than 32506 bytes left out that begins with the same
      three bytes, unless all `n` are nearer. */
  ghost predicate Nearest(input: seq<bv8>, p: nat, list: seq<nat>, n: nat) {
    && p <= |input| && |list| <= n
    && (forall i :: 0 <= i < |list| ==> 0 < list[i] < p <= list[i] + 32506)
    && (forall i, j :: 0 <= i < j < |list| ==> list[i] > list[j])
    && forall r: nat :: 0 < r < p < r + 32506 && Common(input, p, r) >= 3 ==>
          r in list || (|list| == n && n > 0 && r < list[n - 1])
  }

  /** The `i`th of the strings is at this distance and has `m` bytes in common with the one at `p`; the nearer ones have
      fewer, unless those are all that are left. */
  ghost predicate LongestAt(input: seq<bv8>, p: nat, list: seq<nat>, m: nat, dist: nat, i: nat) {
    && p <= |input| && i < |list| && (forall j :: 0 <= j <= i ==> list[j] < p) && list[i] + dist == p
    && Common(input, p, list[i]) == m
    && (p + m == |input| || forall j :: 0 <= j < i ==> Common(input, p, list[j]) < m)
  }

  /** Of the first `k` strings none has more than `m` bytes in common with the one at `p`. They are all, unless the last
      has 128 bytes, which none before it has, or all that are left. A match longer than the one held back is the
      longest; one of three bytes counts only within 4096. */
  ghost predicate BestOf(input: seq<bv8>, p: nat, held: nat, len: nat, dist: nat, list: seq<nat>, k: nat, m: nat) {
    && p <= |input| && k <= |list| && (forall i :: 0 <= i < k ==> list[i] < p)
    && (k == |list| || m >= 128 || p + m == |input|)
    && (forall i :: 0 <= i < k ==> Common(input, p, list[i]) <= m && (i < k - 1 ==> Common(input, p, list[i]) < 128))
    && (m <= held ==> len <= held)
    && (m > held ==> exists i: nat :: i < k && LongestAt(input, p, list, m, dist, i))
    && (m > held ==> len == if m == 3 && dist > 4096 then 2 else m)
  }

  /** The strings searched are the nearest, 128 of them or, with a match of 8 or more held back, 32. */
  ghost predicate BestNear(input: seq<bv8>, p: nat, held: nat, len: nat, dist: nat, list: seq<nat>, k: nat, m: nat) {
    Nearest(input, p, list, if held >= 8 then 32 else 128) && BestOf(input, p, held, len, dist, list, k, m)
  }

  predicate At(m: nat, n: nat) { m == n }

  /** What the search at `p` hits while a match of `held` bytes is held back; with 16 or more there is none. Taken apart
      only where `At` is mentioned. */
  ghost predicate Finds(input: seq<bv8>, p: nat, held: nat, len: nat, dist: nat) {
    forall m: nat {:trigger At(m, p)} :: At(m, p) ==> Hits(input, p, held, len, dist)
  }

  ghost predicate Hits(input: seq<bv8>, p: nat, held: nat, len: nat, dist: nat) {
    if held >= 16 then len == 2 else exists list: seq<nat>, k: nat, m: nat ::
        BestNear(input, p, held, len, dist, list, k, m)
  }

  // ----- lazy evaluation -----

  datatype Hit = Hit(len: nat, dist: nat)

  /** Where the parse stands: whether a string is held back, the match found for it, and the tokens so far. */
  datatype Lazy = Lazy(at: nat, avail: bool, held: nat, dist: nat, tokens: seq<Token>)

  /** One string further: the match held back is taken unless a longer one was found here; else the byte before goes
      out as a literal, and the match found here is held back. */
  ghost function Next(input: seq<bv8>, st: Lazy, f: Hit): (r: Lazy) {
    if st.held >= 3 && f.len <= st.held then
      Lazy(st.at + st.held - 1, false, 2, 0, st.tokens + [Match(st.held, st.dist)])
    else
      Lazy(st.at + 1, true, f.len, f.dist, st.tokens + Before(input, st.at, st.avail))
  }

  /** The byte before `at`, if one is waiting. */
  ghost function Before(input: seq<bv8>, at: nat, avail: bool): (r: seq<Token>) {
    if avail && 0 < at <= |input| then [Literal(input[at - 1])] else []
  }

  ghost function Parsed(input: seq<bv8>, hits: seq<Hit>): (r: Lazy) {
    if hits == [] then Lazy(0, false, 2, 0, [])
    else Next(input, Parsed(input, hits[..|hits| - 1]), hits[|hits| - 1])
  }

  /** Every find is what the search at that place hits. */
  ghost predicate Sought(input: seq<bv8>, hits: seq<Hit>) {
    hits != [] ==>
      var init, f := hits[..|hits| - 1], hits[|hits| - 1];
      var st := Parsed(input, init);
      Sought(input, init) && Finds(input, st.at, st.held, f.len, f.dist)
  }

  /** The tokens of a whole input. */
  ghost predicate LazyParse(input: seq<bv8>, tokens: seq<Token>) {
    exists hits: seq<Hit> :: Parses(input, hits, tokens)
  }

  ghost predicate Parses(input: seq<bv8>, hits: seq<Hit>, tokens: seq<Token>) {
    var st := Parsed(input, hits);
    Sought(input, hits) && st.at == |input| && tokens == st.tokens + Before(input, st.at, st.avail)
  }

  /** The parse stands here; taken apart only where `At` is mentioned. */
  ghost predicate Stands(input: seq<bv8>, hits: seq<Hit>, at: nat, avail: bool, held: nat, dist: nat,
                         tokens: seq<Token>)
  {
    forall m: nat {:trigger At(m, at)} :: At(m, at) ==>
      var st := Parsed(input, hits);
      && Sought(input, hits) && st.at == at && st.avail == avail && st.held == held && st.tokens == tokens
      && (held >= 3 ==> st.dist == dist)
  }

  lemma StandsFirst(input: seq<bv8>, dist: nat)
    ensures Stands(input, [], 0, false, 2, dist, [])
  {
  }

  lemma StandsNext(input: seq<bv8>, hits: seq<Hit>, at: nat, avail: bool, held: nat, dist: nat, tokens: seq<Token>,
                   f: Hit)
    requires Stands(input, hits, at, avail, held, dist, tokens) && Finds(input, at, held, f.len, f.dist)
    ensures held >= 3 && f.len <= held ==>
              Stands(input, hits + [f], at + held - 1, false, 2, 0, tokens + [Match(held, dist)])
    ensures !(held >= 3 && f.len <= held) ==>
              Stands(input, hits + [f], at + 1, true, f.len, f.dist, tokens + Before(input, at, avail))
  {
    assert At(at, at);
    assert (hits + [f])[..|hits|] == hits;
  }

  /** Only the distance of a match held back matters. */
  lemma StandsLike(input: seq<bv8>, hits: seq<Hit>, at: nat, avail: bool, held: nat, dist: nat, dist': nat,
                   tokens: seq<Token>)
    requires Stands(input, hits, at, avail, held, dist, tokens) && (held >= 3 ==> dist == dist')
    ensures Stands(input, hits, at, avail, held, dist', tokens)
  {
    assert At(at, at);
  }

  /** The parse after one more find. */
  lemma StandsAfter(input: seq<bv8>, hits: seq<Hit>, at: nat, avail: bool, held: nat, dist: nat, tokens: seq<Token>,
                    f: Hit, at': nat, avail': bool, held': nat, dist': nat, tokens': seq<Token>)
    requires Stands(input, hits, at, avail, held, dist, tokens) && Finds(input, at, held, f.len, f.dist)
    requires avail' <==> !(held >= 3 && f.len <= held)
    requires if avail' then
               && held' == f.len && at' == at + 1 && tokens' == tokens + Before(input, at, avail)
               && (held' >= 3 ==> dist' == f.dist)
             else held' == 2 && at' == at + held - 1 && tokens' == tokens + [Match(held, dist)]
    ensures Stands(input, hits + [f], at', avail', held', dist', tokens')
  {
    StandsNext(input, hits, at, avail, held, dist, tokens, f);
    StandsLike(input, hits + [f], at', avail', held', if avail' then f.dist else 0, dist', tokens');
  }

  lemma StandsEnd(input: seq<bv8>, hits: seq<Hit>, avail: bool, held: nat, dist: nat, tokens: seq<Token>)
    requires Stands(input, hits, |input|, avail, held, dist, tokens)
    ensures LazyParse(input, tokens + Before(input, |input|, avail))
  {
    assert At(|input|, |input|);
    assert Parses(input, hits, tokens + Before(input, |input|, avail));
  }

  /** With few strings to choose from, none within reach is longer than what was found or held back. */
  lemma NothingLonger(input: seq<bv8>, p: nat, held: nat, len: nat, dist: nat, list: seq<nat>, k: nat, m: nat, r: nat)
    requires BestNear(input, p, held, len, dist, list, k, m) && |list| < 32 && m < 128 && p + m < |input|
    requires 0 < r < p < r + 32506
    ensures Common(input, p, r) <= m || Common(input, p, r) < 3
  {
    if Common(input, p, r) >= 3 {
      assert r in list;
    }
  }
}
