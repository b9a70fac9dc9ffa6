/** What deflate's tokens mean: literals and copies from what came before. */
module Tokens {

  datatype Token = Literal(c: bv8) | Match(len: nat, dist: nat)

  /** A token deflate can send. */
  ghost predicate TokenOk(t: Token) {
    t.Match? ==> 3 <= t.len <= 258 && 1 <= t.dist <= 0x8000
  }

  ghost predicate AllOk(tokens: seq<Token>) {
    forall i :: 0 <= i < |tokens| ==> TokenOk(tokens[i])
  }

  /** Appends `len` bytes, each the byte `dist` back; the copy may overlap what it writes. */
  function Copy(hist: seq<bv8>, dist: nat, len: nat): (r: seq<bv8>)
    requires 1 <= dist <= |hist|
    ensures |r| == |hist| + len
    decreases len
  {
    if len == 0 then hist else Copy(hist + [hist[|hist| - dist]], dist, len - 1)
  }

  /** A token that copies only from what is there. */
  predicate Reaches(hist: seq<bv8>, t: Token) {
    t.Match? ==> 1 <= t.dist <= |hist|
  }

  /** What one token adds; a copy from before the beginning adds nothing, and `InReach` rules it out. */
  function Apply(hist: seq<bv8>, t: Token): (r: seq<bv8>) {
    match t
    case Literal(c) => hist + [c]
    case Match(len, dist) => if 1 <= dist <= |hist| then Copy(hist, dist, len) else hist
  }

  /** What a decoder holding `hist` holds after the tokens. */
  function Expand(ts: seq<Token>, hist: seq<bv8>): (r: seq<bv8>) {
    if ts == [] then hist else Apply(Expand(ts[..|ts| - 1], hist), ts[|ts| - 1])
  }

  /** No token copies from before the beginning; a decoder refuses those that do. */
  predicate InReach(ts: seq<Token>, hist: seq<bv8>) {
    ts == [] || (InReach(ts[..|ts| - 1], hist) && Reaches(Expand(ts[..|ts| - 1], hist), ts[|ts| - 1]))
  }

  lemma InReachMore(ts: seq<Token>, t: Token, hist: seq<bv8>)
    requires InReach(ts, hist) && Reaches(Expand(ts, hist), t)
    ensures InReach(ts + [t], hist)
  {
    assert (ts + [t])[..|ts|] == ts;
  }

  lemma ExpandMore(ts: seq<Token>, t: Token, hist: seq<bv8>)
    ensures Expand(ts + [t], hist) == Apply(Expand(ts, hist), t)
  {
    assert (ts + [t])[..|ts|] == ts;
  }

  lemma {:induction false} ExpandJoin(a: seq<Token>, b: seq<Token>, hist: seq<bv8>)
    ensures Expand(a + b, hist) == Expand(b, Expand(a, hist))
    decreases |b|
  {
    if b == [] {
      assert a + b == a;
    } else {
      var b', t := b[..|b| - 1], b[|b| - 1];
      ExpandJoin(a, b', hist);
      assert a + b == (a + b') + [t];
      ExpandMore(a + b', t, hist);
    }
  }

  ghost predicate RepeatsAt(data: seq<bv8>, i: nat, dist: nat) {
    dist <= i < |data| && data[i] == data[i - dist]
  }

  /** The `len` bytes at `p` repeat those `dist` back. */
  ghost predicate Repeats(data: seq<bv8>, p: nat, dist: nat, len: nat) {
    && 1 <= dist <= p && p + len <= |data|
    && forall i :: p <= i < p + len ==> RepeatsAt(data, i, dist)
  }

  /** A copy reproduces data that repeats at the copy's distance. */
  lemma {:induction false} CopyRepeats(data: seq<bv8>, p: nat, dist: nat, len: nat)
    requires Repeats(data, p, dist, len)
    ensures Copy(data[..p], dist, len) == data[..p + len]
    decreases len
  {
    if len > 0 {
      assert RepeatsAt(data, p, dist);
      assert data[..p] + [data[..p][p - dist]] == data[..p + 1];
      CopyRepeats(data, p + 1, dist, len - 1);
    }
  }
}

/** The hash chains of `deflate`: a 13-bit rolling key over three bytes. */
module HashChains {

  const WSIZE := 0x8000
  const HASH_SIZE := 0x2000
  const MIN_LOOKAHEAD := 262
  const MAX_DIST := WSIZE - MIN_LOOKAHEAD

  /** One step of the rolling key. */
  function Update(h: bv13, c: bv8): bv13 {
    (h << 5) ^ (c as bv13)
  }

  /** The key of three bytes. */
  function Key(a: bv8, b: bv8, c: bv8): bv13 {
    Update(Update(Update(0, a), b), c)
  }

  /** Facts about bit patterns are stated for every key that is the same as the one in question, so
      that the patterns are looked into only where `Same` is mentioned. */
  predicate Same(k: bv13, h: bv13) { k == h }

  /** `h` has rolled over `a` and `b`, whatever came earlier. */
  ghost predicate Primed(h: bv13, a: bv8, b: bv8) {
    forall k: bv13 {:trigger Same(k, h)} :: Same(k, h) ==> Rolled(k, a, b)
  }

  ghost predicate Rolled(h: bv13, a: bv8, b: bv8) {
    h << 5 == Update(Update(0, a), b) << 5
  }

  /** Three updates forget everything before them. */
  lemma UpdateForgets(h: bv13, a: bv8, b: bv8, c: bv8)
    ensures Rolled(h, a, b) ==> Update(h, c) == Key(a, b, c) && Rolled(Update(h, c), b, c)
    ensures Rolled(Update(Update(h, a), b), a, b)
  {
  }

  /** Equal keys and two equal bytes leave no choice for the third. */
  lemma KeyDecidesThird(a: bv8, b: bv8, c: bv8, c': bv8)
    requires Key(a, b, c) == Key(a, b, c')
    ensures c == c'
  {
  }

  ghost function KeyAt(w: seq<bv8>, p: nat): bv13
    requires p + 2 < |w|
  {
    Key(w[p], w[p + 1], w[p + 2])
  }

  /** The string at `p` has this key. */
  ghost predicate HasKey(w: seq<bv8>, p: nat, key: bv13) {
    p + 2 < |w| && forall k: bv13 {:trigger Same(k, key)} :: Same(k, key) ==> KeyAt(w, p) == k
  }

  lemma KeyOf(w: seq<bv8>, p: nat, key: bv13)
    requires p + 2 < |w|
    ensures HasKey(w, p, key) <==> KeyAt(w, p) == key
  {
    assert Same(key, key);
  }

  /** The strings at `q` and `p` have the same key. */
  ghost predicate KeysAgree(w: seq<bv8>, q: nat, p: nat) {
    && q + 2 < |w| && p + 2 < |w|
    && forall key: bv13 {:trigger HasKey(w, q, key)} {:trigger HasKey(w, p, key)} :: HasKey(w, q, key) <==>
          HasKey(w, p, key)
  }

  lemma AgreeingKeys(w: seq<bv8>, q: nat, p: nat)
    requires q + 2 < |w| && p + 2 < |w|
    ensures KeysAgree(w, q, p) <==> KeyAt(w, q) == KeyAt(w, p)
  {
    KeyOf(w, q, KeyAt(w, q));
    KeyOf(w, p, KeyAt(w, q));
    forall key: bv13
      ensures KeyAt(w, q) == KeyAt(w, p) ==> (HasKey(w, q, key) <==> HasKey(w, p, key))
    {
      KeyOf(w, q, key);
      KeyOf(w, p, key);
    }
  }

  /** An entry of `prev` or `head`. */
  type Pos16 = n: nat | n < 0x1_0000

  /** The previous position on the chain of position `p`. */
  function PrevOf(prev: seq<nat>, p: nat): nat
    requires |prev| == 2 * WSIZE
  {
    prev[p % WSIZE]
  }

  function HeadOf(prev: seq<nat>, h: bv13): nat
    requires |prev| == 2 * WSIZE
  {
    prev[WSIZE + h as int]
  }

  /** No string between `q` and `p` has this key. */
  ghost predicate NoneKeyed(w: seq<bv8>, q: nat, p: nat, key: bv13) {
    forall r: nat {:trigger HasKey(w, r, key)} :: q < r < p ==> !HasKey(w, r, key)
  }

  /** No string between `q` and `p` has the key of `p`. */
  ghost predicate NoneBetween(w: seq<bv8>, q: nat, p: nat) {
    forall r: nat {:trigger KeysAgree(w, r, p)} :: q < r < p ==> !KeysAgree(w, r, p)
  }

  /** `q` is the latest position before `p` with this key, or 0 if there is none but perhaps that. */
  ghost predicate Heads(w: seq<bv8>, q: nat, p: nat, key: bv13) {
    (q == 0 || (q < p && HasKey(w, q, key))) && NoneKeyed(w, q, p, key)
  }

  /** `q` is the latest position before `p` with the same key, or 0 if there is none but perhaps that. */
  ghost predicate Links(w: seq<bv8>, q: nat, p: nat) {
    (q == 0 || (q < p && KeysAgree(w, q, p))) && NoneBetween(w, q, p)
  }

  /** All strings before `s` are chained: those within reach by `prev`, the latest of each key by `head`. */
  ghost predicate Chained(w: seq<bv8>, prev: seq<nat>, s: nat) {
    && |prev| == 2 * WSIZE && s + 2 <= |w|
    && (forall p {:trigger PrevOf(prev, p)} :: 0 <= p < s && s < p + WSIZE ==> Links(w, PrevOf(prev, p), p))
    && (forall h {:trigger HeadOf(prev, h)} :: Heads(w, HeadOf(prev, h), s, h))
  }

  /** Inserting the string at `s` at the head of its chain. */
  function Inserted(prev: seq<nat>, s: nat, h: bv13): (r: seq<nat>)
    requires |prev| == 2 * WSIZE
    ensures |r| == |prev|
  {
    prev[s % WSIZE := HeadOf(prev, h)][WSIZE + h as int := s]
  }

  lemma SlotsDiffer(h: bv13, key: bv13)
    requires h as int == key as int
    ensures h == key
  {
    assert (h as int) as bv13 == h;
  }

  lemma InsertedHead(prev: seq<nat>, s: nat, key: bv13, h: bv13)
    requires |prev| == 2 * WSIZE
    ensures HeadOf(Inserted(prev, s, key), h) == if h == key then s else HeadOf(prev, h)
  {
    if h != key && h as int == key as int {
      SlotsDiffer(h, key);
    }
  }

  lemma InsertedPrev(prev: seq<nat>, s: nat, key: bv13, p: nat)
    requires |prev| == 2 * WSIZE && p <= s < p + WSIZE
    ensures PrevOf(Inserted(prev, s, key), p) == if p == s then HeadOf(prev, key) else PrevOf(prev, p)
  {
  }

  /** The head of a string's own chain precedes it there. */
  lemma HeadLinks(w: seq<bv8>, q: nat, s: nat, key: bv13)
    requires Heads(w, q, s, key) && HasKey(w, s, key)
    ensures Links(w, q, s)
  {
    if q != 0 {
      KeyOf(w, q, key);
      KeyOf(w, s, key);
      AgreeingKeys(w, q, s);
    }
    forall r: nat | q < r < s
      ensures !KeysAgree(w, r, s)
    {
      assert !HasKey(w, r, key);
    }
  }

  lemma OneKey(w: seq<bv8>, p: nat, key: bv13, h: bv13)
    requires HasKey(w, p, key) && h != key
    ensures !HasKey(w, p, h)
  {
    KeyOf(w, p, key);
    KeyOf(w, p, h);
  }

  lemma InsertKeepsChains(w: seq<bv8>, prev: seq<nat>, s: nat, key: bv13)
    requires Chained(w, prev, s) && HasKey(w, s, key)
    ensures Chained(w, Inserted(prev, s, key), s + 1) && Links(w, HeadOf(prev, key), s)
  {
    var prev' := Inserted(prev, s, key);
    assert Heads(w, HeadOf(prev, key), s, key);
    HeadLinks(w, HeadOf(prev, key), s, key);
    forall p | 0 <= p < s + 1 && s + 1 < p + WSIZE
      ensures Links(w, PrevOf(prev', p), p)
    {
      InsertedPrev(prev, s, key, p);
      assert p < s ==> Links(w, PrevOf(prev, p), p);
    }
    forall h: bv13
      ensures Heads(w, HeadOf(prev', h), s + 1, h)
    {
      InsertedHead(prev, s, key, h);
      assert Heads(w, HeadOf(prev, h), s, h);
      if h != key {
        OneKey(w, s, key, h);
      }
    }
  }

  /** What the window slide makes of a chain entry. */
  function Slid(q: nat): nat {
    if q >= WSIZE then q - WSIZE else 0
  }

  /** `w'` is `w` moved down by half a window. */
  ghost predicate MovedDown(w: seq<bv8>, w': seq<bv8>) {
    2 * WSIZE <= |w| == |w'| && forall i :: 0 <= i < WSIZE ==> w'[i] == w[i + WSIZE]
  }

  /** Moving the upper half of the window down keeps the chains. */
  lemma SlideKeepsChains(w: seq<bv8>, w': seq<bv8>, prev: seq<nat>, prev': seq<nat>, s: nat)
    requires Chained(w, prev, s) && WSIZE <= s && s + 2 <= 2 * WSIZE && MovedDown(w, w') && |prev'| == |prev|
    requires forall i :: 0 <= i < WSIZE + HASH_SIZE ==> prev'[i] == Slid(prev[i])
    ensures Chained(w', prev', s - WSIZE)
  {
    forall p | 0 <= p < s - WSIZE && s - WSIZE < p + WSIZE
      ensures Links(w', PrevOf(prev', p), p)
    {
      assert PrevOf(prev', p) == Slid(PrevOf(prev, p + WSIZE));
      assert Links(w, PrevOf(prev, p + WSIZE), p + WSIZE);
      SlideLink(w, w', PrevOf(prev, p + WSIZE), p);
    }
    forall h: bv13
      ensures Heads(w', HeadOf(prev', h), s - WSIZE, h)
    {
      assert Heads(w, HeadOf(prev, h), s, h);
      assert HeadOf(prev', h) == Slid(HeadOf(prev, h));
      SlideHead(w, w', HeadOf(prev, h), s - WSIZE, h);
    }
  }

  lemma SlideKey(w: seq<bv8>, w': seq<bv8>, p: nat)
    requires p + 2 < WSIZE && MovedDown(w, w')
    ensures KeyAt(w', p) == KeyAt(w, p + WSIZE)
  {
    assert w'[p + 1] == w[p + 1 + WSIZE] && w'[p + 2] == w[p + 2 + WSIZE];
  }

  lemma SlideAgree(w: seq<bv8>, w': seq<bv8>, r: nat, p: nat)
    requires MovedDown(w, w') && p + 2 < WSIZE && r + 2 < WSIZE
    ensures KeysAgree(w', r, p) <==> KeysAgree(w, r + WSIZE, p + WSIZE)
  {
    SlideKey(w, w', r);
    SlideKey(w, w', p);
    AgreeingKeys(w, r + WSIZE, p + WSIZE);
    AgreeingKeys(w', r, p);
  }

  lemma SlideLink(w: seq<bv8>, w': seq<bv8>, q: nat, p: nat)
    requires MovedDown(w, w') && p + 2 < WSIZE && Links(w, q, p + WSIZE)
    ensures Links(w', Slid(q), p)
  {
    if q > WSIZE {
      SlideAgree(w, w', q - WSIZE, p);
    }
    forall r: nat | Slid(q) < r < p
      ensures !KeysAgree(w', r, p)
    {
      SlideAgree(w, w', r, p);
    }
  }

  lemma SlideHas(w: seq<bv8>, w': seq<bv8>, r: nat, key: bv13)
    requires MovedDown(w, w') && r + 2 < WSIZE
    ensures HasKey(w', r, key) <==> HasKey(w, r + WSIZE, key)
  {
    SlideKey(w, w', r);
    KeyOf(w, r + WSIZE, key);
    KeyOf(w', r, key);
  }

  lemma SlideHead(w: seq<bv8>, w': seq<bv8>, q: nat, p: nat, key: bv13)
    requires MovedDown(w, w') && p + 2 <= WSIZE && Heads(w, q, p + WSIZE, key)
    ensures Heads(w', Slid(q), p, key)
  {
    if q > WSIZE {
      SlideHas(w, w', q - WSIZE, key);
    }
    forall r: nat | Slid(q) < r < p
      ensures !HasKey(w', r, key)
    {
      SlideHas(w, w', r, key);
    }
  }
}
