/** `longest_match`: the search along one hash chain. */
module LongestMatch {
  import opened HashChains
  import opened CommonBytes

  const MAX_MATCH := 258

  ghost predicate SameAt(w: seq<bv8>, s: nat, m: nat, t: nat) {
    s + t < |w| && m + t < |w| && w[m + t] == w[s + t]
  }

  /** The strings at `s` and `m` agree on `len` bytes. */
  ghost predicate MatchAt(w: seq<bv8>, s: nat, m: nat, len: nat) {
    forall t :: 0 <= t < len ==> SameAt(w, s, m, t)
  }

  /** How many bytes, up to 258, the strings at `s` and `m` have in common. */
  ghost function Agreement(w: seq<bv8>, s: nat, m: nat): (r: nat)
    requires s + 258 < |w| && m < s
    ensures r <= 258
  {
    Run(w, s, m, s + 258)
  }

  lemma AgreesOn(w: seq<bv8>, s: nat, m: nat, i: nat)
    requires s + 258 < |w| && m < s && i < Agreement(w, s, m)
    ensures w[s + i] == w[m + i]
  {
    RunSame(w, s, m, s + 258, i);
  }

  /** A match that cannot be made longer is the agreement. */
  lemma ExactMatch(w: seq<bv8>, s: nat, m: nat, len: nat)
    requires s + 258 < |w| && m < s && len <= 258 && MatchAt(w, s, m, len) && (len < 258 ==> w[s + len] != w[m + len])
    ensures Agreement(w, s, m) == len
  {
    forall i | 0 <= i < len
      ensures SameByte(w, s, m, i)
    {
      assert SameAt(w, s, m, i);
    }
    RunIs(w, s, m, s + 258, len);
  }

  /** How far two strings known to share three bytes agree, looked at eight bytes at a time. */
  method Compare(window: array<bv8>, s: nat, m: nat) returns (len: nat)
    requires m < s && s + MAX_MATCH < window.Length && MatchAt(window[..], s, m, 3)
    ensures 3 <= len <= MAX_MATCH && MatchAt(window[..], s, m, len) && len == Agreement(window[..], s, m)
  {
    len := 2;
    while true
      invariant 2 <= len < MAX_MATCH && len % 8 == 2
      invariant MatchAt(window[..], s, m, len + 1)
      decreases MAX_MATCH - len
    {
      var k := 0;
      ghost var start := len;
      while k < 8
        invariant 0 <= k <= 8 && (len - k) % 8 == 2 && 2 <= len - k < MAX_MATCH
        invariant MatchAt(window[..], s, m, len + 1) && len == start + k
        decreases 8 - k
      {
        len := len + 1;
        if window[s + len] != window[m + len] {
          ExactMatch(window[..], s, m, len);
          return;
        }
        k := k + 1;
      }
      if !(len < MAX_MATCH) {
        break;
      }
    }
    ExactMatch(window[..], s, m, len);
  }

  /** Candidates on the chain of `s`: earlier, within reach, with the key of `s`. */
  ghost predicate Candidate(w: seq<bv8>, s: nat, q: nat) {
    0 < q < s <= q + MAX_DIST && KeysAgree(w, q, s)
  }

  /** Two shared bytes on one chain are three. */
  lemma ThirdByte(w: seq<bv8>, s: nat, q: nat)
    requires Candidate(w, s, q) && w[q] == w[s] && w[q + 1] == w[s + 1]
    ensures MatchAt(w, s, q, 3)
  {
    AgreeingKeys(w, q, s);
    KeyDecidesThird(w[s], w[s + 1], w[q + 2], w[s + 2]);
  }

  /** The next link of a candidate's chain, if within reach, is a candidate. */
  lemma NextCandidate(w: seq<bv8>, prev: seq<nat>, s: nat, q: nat)
    requires Chained(w, prev, s + 1) && Candidate(w, s, q)
    ensures PrevOf(prev, q) > 0 && s <= PrevOf(prev, q) + MAX_DIST ==> Candidate(w, s, PrevOf(prev, q))
  {
    assert Links(w, PrevOf(prev, q), q);
    if PrevOf(prev, q) > 0 {
      AgreeingKeys(w, PrevOf(prev, q), q);
      AgreeingKeys(w, q, s);
      AgreeingKeys(w, PrevOf(prev, q), s);
    }
  }

  /** If one of these bytes differs, the candidate is no better. */
  lemma NotBetter(w: seq<bv8>, s: nat, q: nat, bestLen: nat)
    requires s + 258 < |w| && q < s && 1 <= bestLen < 258
    requires w[q + bestLen] != w[s + bestLen] || w[q + bestLen - 1] != w[s + bestLen - 1] || w[q] != w[s]
             || w[q + 1] != w[s + 1]
    ensures Agreement(w, s, q) <= bestLen
  {
    if Agreement(w, s, q) > bestLen {
      AgreesOn(w, s, q, 0);
      AgreesOn(w, s, q, 1);
      AgreesOn(w, s, q, bestLen);
      AgreesOn(w, s, q, bestLen - 1);
    }
  }

  /** One candidate: its match if it beats `bestLen`, else nothing. */
  method TryCandidate(window: array<bv8>, s: nat, q: nat, bestLen: nat, scanEnd1: bv8, scanEnd: bv8) returns (len: nat)
    requires Candidate(window[..], s, q) && s + MAX_MATCH < window.Length && 1 <= bestLen < MAX_MATCH
    requires scanEnd1 == window[s + bestLen - 1] && scanEnd == window[s + bestLen]
    ensures len == 0 || (3 <= len <= MAX_MATCH && MatchAt(window[..], s, q, len))
    ensures if len > bestLen then len == Agreement(window[..], s, q) else Agreement(window[..], s, q) <= bestLen
  {
    if window[q + bestLen] != scanEnd || window[q + bestLen - 1] != scanEnd1
       || window[q] != window[s] || window[q + 1] != window[s + 1] {
      NotBetter(window[..], s, q, bestLen);
      return 0;
    }
    ThirdByte(window[..], s, q);
    len := Compare(window, s, q);
  }

  /** Up to `n` candidates along the chain from `cur`, none but perhaps the first at or below `limit`. */
  ghost function Walk(prev: seq<nat>, cur: nat, limit: nat, n: nat): (r: seq<nat>)
    requires |prev| == 2 * WSIZE
    ensures |r| <= n
    decreases n
  {
    if n == 0 then []
    else [cur] + if PrevOf(prev, cur) > limit then Walk(prev, PrevOf(prev, cur), limit, n - 1) else []
  }

  /** `start` is the first of the candidates that agrees on `len` bytes. */
  ghost predicate FirstWith(w: seq<bv8>, s: nat, tried: seq<nat>, len: nat, start: nat, i: nat) {
    && s + 258 < |w| && i < |tried| && (forall j :: 0 <= j <= i ==> tried[j] < s) && tried[i] == start
    && Agreement(w, s, start) == len && forall j :: 0 <= j < i ==> Agreement(w, s, tried[j]) < len
  }

  /** Of the candidates tried none agrees on more than `len` bytes; unless that is what there was before, `start` is the
      first that agrees on as many. */
  ghost predicate Longest(w: seq<bv8>, s: nat, tried: seq<nat>, len0: nat, start0: nat, len: nat, start: nat) {
    && s + 258 < |w| && len0 <= len
    && (forall i :: 0 <= i < |tried| ==> tried[i] < s && Agreement(w, s, tried[i]) <= len)
    && (if len == len0 then start == start0 else exists i: nat :: FirstWith(w, s, tried, len, start, i))
  }

  lemma LongestMore(w: seq<bv8>, s: nat, tried: seq<nat>, len0: nat, start0: nat, len: nat, start: nat, q: nat)
    requires Longest(w, s, tried, len0, start0, len, start) && q < s
    ensures Agreement(w, s, q) <= len ==> Longest(w, s, tried + [q], len0, start0, len, start)
    ensures Agreement(w, s, q) > len ==> Longest(w, s, tried + [q], len0, start0, Agreement(w, s, q), q)
  {
    var more := tried + [q];
    if Agreement(w, s, q) > len {
      assert FirstWith(w, s, more, Agreement(w, s, q), q, |tried|);
    } else if len > len0 {
      var i: nat :| FirstWith(w, s, tried, len, start, i);
      assert FirstWith(w, s, more, len, start, i);
    }
  }

  lemma {:induction false} WalkOn(prev: seq<nat>, cur: nat, limit: nat, n: nat)
    requires |prev| == 2 * WSIZE && n > 0
    ensures Walk(prev, cur, limit, n) != [] && Walk(prev, cur, limit, n)[0] == cur
    ensures PrevOf(prev, cur) > limit ==> Walk(prev, cur, limit, n)[1..] == Walk(prev, PrevOf(prev, cur), limit, n - 1)
    ensures PrevOf(prev, cur) <= limit || n == 1 ==> Walk(prev, cur, limit, n) == [cur]
  {
  }

  predicate Left(m: nat, n: nat) { m == n }

  /** What the search has found: the longest match of all candidates on the walk, or of those up to the first that
      agrees on 128 bytes or more. */
  ghost predicate Searched(w: seq<bv8>, walk: seq<nat>, s: nat, len0: nat, start0: nat, len: nat, start: nat) {
    exists k: nat :: SearchedTo(w, walk, s, len0, start0, len, start, k)
  }

  ghost predicate SearchedTo(w: seq<bv8>, walk: seq<nat>, s: nat, len0: nat, start0: nat, len: nat, start: nat, k: nat)
  {
    && 0 < k <= |walk| && Longest(w, s, walk[..k], len0, start0, len, start)
    && (k == |walk| || (len >= 128 && len > len0 && start == walk[k - 1]))
    && forall i :: 0 <= i < k - 1 ==> walk[i] < s && NotEnough(w, s, walk[i], len0)
  }

  /** A candidate the search does not stop at. */
  ghost predicate NotEnough(w: seq<bv8>, s: nat, q: nat, len0: nat)
    requires q < s && s + 258 < |w|
  {
    Agreement(w, s, q) < 128 || Agreement(w, s, q) <= len0
  }

  /** The same for the chain from `head`, taken apart only where `Left` is mentioned. */
  ghost predicate ChainSearched(w: seq<bv8>, prev: seq<nat>, s: nat, head: nat, len0: nat, start0: nat, len: nat,
                                start: nat)
  {
    forall m: nat {:trigger Left(m, s)} :: Left(m, s) ==>
        |prev| == 2 * WSIZE
          && Searched(w, Walk(prev, head, Limit(s), ChainLength(len0)), s, len0, start0, len, start)
  }

  /** How many candidates are tried: fewer if there is a good match already. */
  function ChainLength(prevLength: nat): (r: nat)
    ensures r == if prevLength >= 8 then 32 else 128
  {
    if prevLength >= 8 then 32 else 128
  }

  /** How far back the search goes. */
  function Limit(strstart: nat): (r: nat) { if strstart > MAX_DIST then strstart - MAX_DIST else 0 }

  /** Tries `cur`: whether the match is long enough to stop at. */
  method TryHere(window: array<bv8>, ghost prev: seq<nat>, ghost walk: seq<nat>, ghost tried: seq<nat>, s: nat,
                 ghost len0: nat, ghost start0: nat, bestLen0: nat, matchStart0: nat, cur: nat, ghost limit: nat,
                 ghost n: nat, scanEnd1: bv8, scanEnd: bv8)
    returns (bestLen: nat, matchStart: nat, enough: bool)
    requires Searching(window[..], prev, walk, tried, s, len0, start0, bestLen0, matchStart0, cur, limit, n) && n > 0
    requires s + MAX_MATCH < window.Length && 1 <= len0 <= bestLen0 < MAX_MATCH && |prev| == 2 * WSIZE
    requires scanEnd1 == window[s + bestLen0 - 1] && scanEnd == window[s + bestLen0]
    ensures bestLen0 <= bestLen <= MAX_MATCH && (!enough ==> bestLen < MAX_MATCH)
    ensures enough || PrevOf(prev, cur) <= limit || n == 1 ==>
              Found(window[..], walk, s, len0, start0, bestLen, matchStart)
    ensures !enough && PrevOf(prev, cur) > limit ==>
              Searching(window[..], prev, walk, tried + [cur], s, len0, start0, bestLen, matchStart, PrevOf(prev, cur),
                limit, n - 1)
  {
    SearchHere(window[..], prev, walk, tried, s, len0, start0, bestLen0, matchStart0, cur, limit, n);
    bestLen, matchStart, enough := bestLen0, matchStart0, false;
    var len := TryCandidate(window, s, cur, bestLen, scanEnd1, scanEnd);
    if len > bestLen {
      matchStart := cur;
      bestLen := len;
      enough := len >= 128;
    }
    SearchStep(window[..], prev, walk, tried, s, len0, start0, bestLen0, matchStart0, cur, limit, n, bestLen,
        matchStart);
  }

  /** `longest_match`: a longer match than `prevLength` with its start, the longest of those tried, or nothing new. */
  method Find(window: array<bv8>, prev: array<Pos16>, strstart: nat, prevLength: nat, matchStart0: nat, hashHead: nat)
    returns (bestLen: nat, matchStart: nat)
    requires strstart + MAX_MATCH < window.Length && 1 <= prevLength < MAX_MATCH
    requires Chained(window[..], prev[..], strstart + 1) && Candidate(window[..], strstart, hashHead)
    requires strstart <= hashHead + MAX_DIST
    ensures prevLength <= bestLen <= MAX_MATCH && (bestLen > prevLength ==> strstart <= matchStart + MAX_DIST)
    ensures bestLen > prevLength ==>
            Candidate(window[..], strstart, matchStart) && MatchAt(window[..], strstart, matchStart, bestLen)
    ensures bestLen == prevLength ==> matchStart == matchStart0
    ensures ChainSearched(window[..], prev[..], strstart, hashHead, prevLength, matchStart0, bestLen, matchStart)
  {
    ghost var w: seq<bv8>, links: seq<nat> := window[..], prev[..];
    bestLen, matchStart := prevLength, matchStart0;
    var chainLength := ChainLength(prevLength);
    var limit := if strstart > MAX_DIST then strstart - MAX_DIST else 0;
    var curMatch: nat := hashHead;
    var scanEnd1, scanEnd := window[strstart + bestLen - 1], window[strstart + bestLen];
    ghost var walk: seq<nat>, tried: seq<nat> := Walk(links, hashHead, limit, chainLength), [];
    SearchStarts(w, links, walk, strstart, prevLength, matchStart0, hashHead, limit, chainLength);
    while true
      invariant prevLength <= bestLen < MAX_MATCH && 0 < chainLength && limit == Limit(strstart)
      invariant scanEnd1 == window[strstart + bestLen - 1] && scanEnd == window[strstart + bestLen]
      invariant Searching(w, links, walk, tried, strstart, prevLength, matchStart0, bestLen, matchStart, curMatch,
                limit,
                  chainLength)
      decreases chainLength
    {
      var enough;
      bestLen, matchStart, enough := TryHere(window, links, walk, tried, strstart, prevLength, matchStart0, bestLen,
          matchStart, curMatch, limit, chainLength, scanEnd1, scanEnd);
      if enough {
        break;
      }
      scanEnd1, scanEnd := window[strstart + bestLen - 1], window[strstart + bestLen];
      tried := tried + [curMatch];
      curMatch := PrevOf(prev[..], curMatch);
      if !(curMatch > limit) {
        break;
      }
      chainLength := chainLength - 1;
      if chainLength == 0 {
        break;
      }
    }
    FoundParts(w, walk, strstart, prevLength, matchStart0, bestLen, matchStart);
  }

  /** Every candidate tried, and nothing longer among them. */
  ghost predicate AllTried(w: seq<bv8>, s: nat, tried: seq<nat>, len0: nat, start0: nat, len: nat, start: nat) {
    && Longest(w, s, tried, len0, start0, len, start)
    && forall i :: 0 <= i < |tried| ==> Candidate(w, s, tried[i])
  }

  ghost predicate SearchingAt(w: seq<bv8>, prev: seq<nat>, walk: seq<nat>, tried: seq<nat>, s: nat, len0: nat,
                              start0: nat, len: nat, start: nat, cur: nat, limit: nat, n: nat)
  {
    && |prev| == 2 * WSIZE && Chained(w, prev, s + 1) && Candidate(w, s, cur) && limit == Limit(s)
    && walk == tried + Walk(prev, cur, limit, n) && AllTried(w, s, tried, len0, start0, len, start)
    && (len < 128 || len == len0)
  }

  /** The state of the search before it tries `cur`, taken apart only where `Left` is mentioned. */
  ghost predicate Searching(w: seq<bv8>, prev: seq<nat>, walk: seq<nat>, tried: seq<nat>, s: nat, len0: nat,
                            start0: nat,
                            len: nat, start: nat, cur: nat, limit: nat, n: nat)
  {
    forall m: nat {:trigger Left(m, n)} :: Left(m, n) ==>
        SearchingAt(w, prev, walk, tried, s, len0, start0, len, start, cur, limit, n)
  }

  /** The outcome, taken apart only where `Left` is mentioned. */
  ghost predicate Found(w: seq<bv8>, walk: seq<nat>, s: nat, len0: nat, start0: nat, len: nat, start: nat) {
    forall m: nat {:trigger Left(m, s)} :: Left(m, s) ==>
      && Searched(w, walk, s, len0, start0, len, start)
      && (if len == len0 then start == start0 else Candidate(w, s, start) && MatchAt(w, s, start, len))
  }

  lemma FoundParts(w: seq<bv8>, walk: seq<nat>, s: nat, len0: nat, start0: nat, len: nat, start: nat)
    requires Found(w, walk, s, len0, start0, len, start)
    ensures Searched(w, walk, s, len0, start0, len, start)
    ensures if len == len0 then start == start0 else Candidate(w, s, start) && MatchAt(w, s, start, len)
  {
    assert Left(s, s);
  }

  lemma SearchStarts(w: seq<bv8>, prev: seq<nat>, walk: seq<nat>, s: nat, len0: nat, start0: nat, cur: nat, limit: nat,
                     n: nat)
    requires |prev| == 2 * WSIZE && Chained(w, prev, s + 1) && Candidate(w, s, cur) && limit == Limit(s)
    requires walk == Walk(prev, cur, limit, n) && s + 258 < |w|
    ensures Searching(w, prev, walk, [], s, len0, start0, len0, start0, cur, limit, n)
  {
    assert [] + walk == walk;
  }

  lemma SearchHere(w: seq<bv8>, prev: seq<nat>, walk: seq<nat>, tried: seq<nat>, s: nat, len0: nat, start0: nat,
                   len: nat,
                   start: nat, cur: nat, limit: nat, n: nat)
    requires Searching(w, prev, walk, tried, s, len0, start0, len, start, cur, limit, n)
    ensures Candidate(w, s, cur) && s + 258 < |w|
  {
    assert Left(n, n);
  }

  lemma WalkSplit(prev: seq<nat>, walk: seq<nat>, tried: seq<nat>, cur: nat, limit: nat, n: nat)
    requires |prev| == 2 * WSIZE && n > 0 && walk == tried + Walk(prev, cur, limit, n)
    ensures |tried| < |walk| && walk[|tried|] == cur && walk[..|tried| + 1] == tried + [cur]
    ensures PrevOf(prev, cur) <= limit || n == 1 ==> walk == tried + [cur]
    ensures PrevOf(prev, cur) > limit ==> walk == tried + [cur] + Walk(prev, PrevOf(prev, cur), limit, n - 1)
  {
    WalkOn(prev, cur, limit, n);
    var rest := Walk(prev, cur, limit, n);
    assert rest == [cur] + rest[1..];
    assert tried + ([cur] + rest[1..]) == tried + [cur] + rest[1..];
  }

  /** `cur` tried: the search goes on at the next candidate, or has found what it finds. */
  lemma SearchStep(w: seq<bv8>, prev: seq<nat>, walk: seq<nat>, tried: seq<nat>, s: nat, len0: nat, start0: nat,
                   len: nat,
                   start: nat, cur: nat, limit: nat, n: nat, len': nat, start': nat)
    requires Searching(w, prev, walk, tried, s, len0, start0, len, start, cur, limit, n) && n > 0 && s + 258 < |w|
    requires cur < s && len0 <= len <= 258
    requires if Agreement(w, s, cur) > len then len' == Agreement(w, s, cur) && start' == cur
             else len' == len && start' == start
    ensures |prev| == 2 * WSIZE
    ensures PrevOf(prev, cur) <= limit || n == 1 || (len' > len && len' >= 128) ==>
              Found(w, walk, s, len0, start0, len', start')
    ensures PrevOf(prev, cur) > limit && !(len' > len && len' >= 128) ==>
              Searching(w, prev, walk, tried + [cur], s, len0, start0, len', start', PrevOf(prev, cur), limit, n - 1)
  {
    assert Left(n, n);
    LongestMore(w, s, tried, len0, start0, len, start, cur);
    WalkSplit(prev, walk, tried, cur, limit, n);
    NextCandidate(w, prev, s, cur);
    if PrevOf(prev, cur) <= limit || n == 1 || (len' > len && len' >= 128) {
      SearchEnds(w, walk, tried, cur, s, len0, start0, len, start, len', start');
    }
  }

  lemma SearchEnds(w: seq<bv8>, walk: seq<nat>, tried: seq<nat>, cur: nat, s: nat, len0: nat, start0: nat, len: nat,
                   start: nat, len': nat, start': nat)
    requires Longest(w, s, tried, len0, start0, len, start) && (len < 128 || len == len0) && |tried| < |walk|
    requires AllTried(w, s, tried + [cur], len0, start0, len', start')
    requires walk[..|tried| + 1] == tried + [cur] && len' <= 258
    requires walk == tried + [cur] || (len' >= 128 && len' > len0 && start' == cur)
    ensures Found(w, walk, s, len0, start0, len', start')
  {
    var k := |tried| + 1;
    assert walk[k - 1] == (walk[..k])[k - 1] == cur;
    forall i | 0 <= i < k - 1
      ensures walk[i] < s && NotEnough(w, s, walk[i], len0)
    {
      assert walk[i] == (walk[..k])[i] == tried[i];
    }
    assert SearchedTo(w, walk, s, len0, start0, len', start', k);
    if len' > len0 {
      StartAgrees(w, s, tried + [cur], len', start');
    }
  }

  lemma StartAgrees(w: seq<bv8>, s: nat, tried: seq<nat>, len: nat, start: nat)
    requires exists i: nat :: FirstWith(w, s, tried, len, start, i)
    requires (forall i :: 0 <= i < |tried| ==> Candidate(w, s, tried[i])) && len <= 258
    ensures Candidate(w, s, start) && MatchAt(w, s, start, len)
  {
    var i: nat :| FirstWith(w, s, tried, len, start, i);
    forall t | 0 <= t < len
      ensures SameAt(w, s, start, t)
    {
      AgreesOn(w, s, start, t);
    }
  }
}

/** The window of `deflate`: reading input into it, sliding it, and chaining its strings. */
module Window {
  import opened HashChains
  import opened LongestMatch
  import opened LazyMatch
  import opened WindowMatch
  import opened Tokens
  import opened PrefixCode

  const WINDOW_SIZE := 2 * WSIZE
  const TWO32 := 0x1_0000_0000

  function Sub32(a: nat, b: nat): (r: nat)
    requires a < TWO32 && b < TWO32
    ensures r < TWO32
  {
    if a >= b then a - b else a - b + TWO32
  }

  /** One `flush_block` call: the tokens tallied for input bytes from..to-1, with
      those bytes themselves when they are still in the window. */
  datatype Block = Block(tokens: seq<Token>, from: nat, to: nat, buf: Option<seq<bv8>>, eof: bool)

  ghost predicate BlockMeans(input: seq<bv8>, b: Block) {
    && b.from <= b.to <= |input| && |b.tokens| <= 8191 && AllOk(b.tokens)
    && Expand(b.tokens, input[..b.from]) == input[..b.to] && InReach(b.tokens, input[..b.from])
    && (b.buf.Some? ==> b.buf.value == input[b.from..b.to])
  }

  /** The blocks follow one another and stand for the first `end` bytes. */
  ghost predicate Emitted(input: seq<bv8>, blocks: seq<Block>, end: int) {
    if blocks == [] then end == 0
    else
      var b := blocks[|blocks| - 1];
      BlockMeans(input, b) && b.to == end && Emitted(input, blocks[..|blocks| - 1], b.from)
  }

  function AllTokens(blocks: seq<Block>): (r: seq<Token>) {
    if blocks == [] then [] else AllTokens(blocks[..|blocks| - 1]) + blocks[|blocks| - 1].tokens
  }

  lemma TokensOfBlock(blocks: seq<Block>, b: Block)
    ensures AllTokens(blocks + [b]) + [] == AllTokens(blocks) + b.tokens
  {
    assert (blocks + [b])[..|blocks|] == blocks;
  }

  /** Decoding all blocks one after the other gives the input they stand for. */
  lemma {:induction false} EmittedExpands(input: seq<bv8>, blocks: seq<Block>, end: nat)
    requires end <= |input| && Emitted(input, blocks, end)
    ensures Expand(AllTokens(blocks), []) == input[..end]
    decreases |blocks|
  {
    if blocks != [] {
      var init, b := blocks[..|blocks| - 1], blocks[|blocks| - 1];
      EmittedExpands(input, init, b.from);
      ExpandJoin(AllTokens(init), b.tokens, []);
    }
  }

  lemma EmittedMore(input: seq<bv8>, blocks: seq<Block>, b: Block)
    requires Emitted(input, blocks, b.from) && BlockMeans(input, b)
    ensures Emitted(input, blocks + [b], b.to)
  {
    assert (blocks + [b])[..|blocks|] == blocks;
  }

  /** The blocks stand for the first `at` bytes, the pending tokens for those from there to `n`. */
  ghost predicate StandFor(input: seq<bv8>, blocks: seq<Block>, pending: seq<Token>, at: nat, n: nat) {
    && at <= n <= |input| && AllOk(pending) && (forall i :: 0 <= i < |blocks| ==> !blocks[i].eof)
    && Emitted(input, blocks, at)
    && Expand(pending, input[..at]) == input[..n] && InReach(pending, input[..at])
  }

  predicate Here(m: int, n: int) { m == n }

  /** The same, said of every place that is `n`, so that it is taken apart only where `Here` is mentioned. */
  ghost predicate AccountsFor(input: seq<bv8>, blocks: seq<Block>, pending: seq<Token>, at: int, n: int) {
    0 <= at <= n <= |input| && forall m: nat {:trigger Here(m, n)} :: Here(m, n) ==>
        StandFor(input, blocks, pending, at, n)
  }

  lemma AccountsLiteral(input: seq<bv8>, blocks: seq<Block>, pending: seq<Token>, at: int, n: int, c: bv8)
    requires AccountsFor(input, blocks, pending, at, n - 1) && 0 < n <= |input| && c == input[n - 1]
    ensures AccountsFor(input, blocks, pending + [Literal(c)], at, n)
  {
    assert Here(n - 1, n - 1);
    ExpandMore(pending, Literal(c), input[..at]);
    InReachMore(pending, Literal(c), input[..at]);
    assert input[..n - 1] + [c] == input[..n];
  }

  lemma NoneIsLast(input: seq<bv8>, blocks: seq<Block>, pending: seq<Token>, at: int, n: int)
    requires AccountsFor(input, blocks, pending, at, n)
    ensures forall i :: 0 <= i < |blocks| ==> !blocks[i].eof
  {
    assert Here(n, n);
  }

  /** Exactly the last block is marked as such. */
  ghost predicate OnlyLast(blocks: seq<Block>) {
    |blocks| > 0 && forall i :: 0 <= i < |blocks| ==> blocks[i].eof == (i == |blocks| - 1)
  }

  lemma OneIsLast(done: seq<Block>, blocks: seq<Block>)
    requires |blocks| > 0 && blocks[..|blocks| - 1] == done && blocks[|blocks| - 1].eof
    requires forall i :: 0 <= i < |done| ==> !done[i].eof
    ensures OnlyLast(blocks)
  {
    assert forall i :: 0 <= i < |done| ==> blocks[i] == done[i];
  }

  lemma NothingYet(input: seq<bv8>)
    ensures AccountsFor(input, [], [], 0, 0)
  {
  }

  /** A match that can be sent: `len` bytes at `p` that repeat those `dist` back. */
  ghost predicate Usable(input: seq<bv8>, p: nat, dist: nat, len: nat) {
    Repeats(input, p, dist, len) && dist <= MAX_DIST && len <= MAX_MATCH
  }

  lemma AccountsMatch(input: seq<bv8>, blocks: seq<Block>, pending: seq<Token>, at: int, n: nat, len: nat, dist: nat)
    requires AccountsFor(input, blocks, pending, at, n) && Usable(input, n, dist, len) && 3 <= len
    ensures AccountsFor(input, blocks, pending + [Match(len, dist)], at, n + len)
  {
    assert Here(n, n);
    ExpandMore(pending, Match(len, dist), input[..at]);
    InReachMore(pending, Match(len, dist), input[..at]);
    CopyRepeats(input, n, dist, len);
  }

  lemma AccountsFlush(input: seq<bv8>, blocks: seq<Block>, pending: seq<Token>, at: int, n: int, buf: Option<seq<bv8>>,
                      eof: bool)
    requires AccountsFor(input, blocks, pending, at, n) && (buf.Some? ==> buf.value == input[at..n])
    requires |pending| <= 8191
    ensures Emitted(input, blocks + [Block(pending, at, n, buf, eof)], n)
    ensures !eof ==> AccountsFor(input, blocks + [Block(pending, at, n, buf, eof)], [], n, n)
  {
    assert Here(n, n);
    EmittedMore(input, blocks, Block(pending, at, n, buf, eof));
    assert Expand([], input[..n]) == input[..n];
  }

  /** `input` is what the reads deliver, in arbitrary chunks, before the end of the file or an error;
      `pos` bytes of it have been read. Window bytes past the lookahead, and past the window's end,
      hold anything. */
  class State {
    const input: seq<bv8>
    const window: array<bv8>
    const prev: array<Pos16>
    var pos: nat
    var base: nat
    var strstart: nat
    var lookahead: nat
    var matchStart: nat
    var blockStart: int
    var insH: bv13
    var eofile: bool
    var pending: seq<Token>
    var blocks: seq<Block>

    /** Fresh state: buffers with anything in them, every counter zero. */
    constructor (input: seq<bv8>)
      ensures this.input == input && fresh(window) && fresh(prev) && HoldsTo(0) && strstart == lookahead == 0
      ensures blockStart == 0 && !eofile && pending == [] && blocks == [] && base == pos == 0
    {
      this.input := input;
      window := new bv8[WINDOW_SIZE + 264];
      prev := new Pos16[2 * WSIZE];
      pos, base, strstart, lookahead, matchStart, blockStart := 0, 0, 0, 0, 0, 0;
      insH, eofile, pending, blocks := 0, false, [], [];
    }

    /** The window holds the input around the current position. */
    ghost predicate Holds()
      reads this, window
    {
      HoldsTo(strstart + lookahead)
    }

    /** The first `n` bytes of the window are the last `n` bytes read. */
    ghost predicate HoldsTo(n: nat)
      reads this, window
    {
      && window.Length >= WINDOW_SIZE + 264 && prev.Length == 2 * WSIZE && window as object != prev
      && n <= WINDOW_SIZE && matchStart < TWO32
      && base + n == pos <= |input| && (eofile ==> pos == |input|)
      && Mirrors(window[..], input, base, n)
    }

    /** Every string before the current one is on its chain, and the window reaches far enough back. */
    ghost predicate Chains()
      reads this, window, prev
    {
      Chained(window[..], prev[..], strstart) && Deep()
    }

    ghost predicate Deep()
      reads this
    {
      base > 0 ==> strstart >= MAX_DIST
    }

    /** All tokens so far. */
    ghost function SentTokens(): (r: seq<Token>)
      reads this
    {
      AllTokens(blocks) + pending
    }

    /** The rolling key has seen the first two bytes of the current string. */
    ghost predicate Keyed()
      reads this, window
    {
      strstart + 1 < window.Length && Primed(insH, window[strstart], window[strstart + 1])
    }

    /** How many input bytes lie before the current string. */
    function Cur(): nat
      reads this
    {
      base + strstart
    }

    /** From the string before the current one back to `matchStart`, in 32-bit arithmetic. */
    function Distance(): nat
      requires strstart <= WINDOW_SIZE && matchStart < TWO32
      reads this
    {
      Sub32(Sub32(strstart, 1), matchStart)
    }

    /** `file_read`: any number of bytes, but none only when no more will come. */
    method FileRead(at: nat, size: nat) returns (n: nat)
      requires pos <= |input| && 0 < size && at + size <= window.Length
      modifies this`pos, window
      ensures n <= size && pos == old(pos) + n <= |input| && (n == 0 ==> pos == |input|)
      ensures forall j :: at <= j < at + n ==> window[j] == input[old(pos) + (j - at)]
      ensures forall i :: 0 <= i < window.Length && !(at <= i < at + n) ==> window[i] == old(window[i])
    {
      n := 0;
      if pos < |input| {
        n :| 0 < n <= size && pos + n <= |input|;
      }
      for i := 0 to n
        invariant pos == old(pos)
        invariant forall j :: at <= j < at + i ==> window[j] == input[pos + (j - at)]
        invariant forall k :: 0 <= k < window.Length && !(at <= k < at + i) ==> window[k] == old(window[k])
      {
        window[at + i] := input[pos + i];
      }
      pos := pos + n;
    }

    /** The first half of the slide: `memcpy` of the upper half of the window onto the lower. */
    method MoveDown()
      requires window.Length >= WINDOW_SIZE
      modifies window
      ensures forall i :: 0 <= i < WSIZE ==> window[i] == old(window[i + WSIZE])
    {
      for i := 0 to WSIZE
        invariant forall k :: 0 <= k < i ==> window[k] == old(window[k + WSIZE])
        invariant forall k :: i <= k < window.Length ==> window[k] == old(window[k])
      {
        window[i] := window[i + WSIZE];
      }
    }

    /** The second half: every chain entry follows, or falls off the end. */
    method Relink()
      requires prev.Length == 2 * WSIZE
      modifies prev
      ensures forall i :: 0 <= i < WSIZE + HASH_SIZE ==> prev[i] == Slid(old(prev[i]))
    {
      for n := 0 to HASH_SIZE
        invariant forall i :: WSIZE <= i < WSIZE + n ==> prev[i] == Slid(old(prev[i]))
        invariant forall i :: 0 <= i < prev.Length && !(WSIZE <= i < WSIZE + n) ==> prev[i] == old(prev[i])
      {
        var m := prev[WSIZE + n];
        prev[WSIZE + n] := if m >= WSIZE then m - WSIZE else 0;
      }
      for n := 0 to WSIZE
        invariant forall i :: 0 <= i < n || WSIZE <= i < WSIZE + HASH_SIZE ==> prev[i] == Slid(old(prev[i]))
        invariant forall i :: n <= i < WSIZE ==> prev[i] == old(prev[i])
      {
        var m := prev[n];
        prev[n] := if m >= WSIZE then m - WSIZE else 0;
      }
    }

    /** The slide: half a window further on, with everything at the same place in the input. */
    method Slide()
      requires Holds() && Chains() && strstart >= WSIZE + MAX_DIST && 2 <= lookahead
      modifies this`base, this`strstart, this`matchStart, this`blockStart, window, prev
      ensures Holds() && Chains() && Cur() == old(Cur()) && strstart == old(strstart) - WSIZE
      ensures base + blockStart == old(base + blockStart)
      ensures Distance() == old(Distance())
      ensures window[strstart] == old(window[strstart]) && window[strstart + 1] == old(window[strstart + 1])
    {
      ghost var w, p := window[..], prev[..];
      MoveDown();
      Relink();
      SlideKeepsChains(w, window[..], p, prev[..], strstart);
      base := base + WSIZE;
      matchStart := Sub32(matchStart, WSIZE);
      strstart := strstart - WSIZE;
      blockStart := blockStart - WSIZE;
    }

    /** The read that ends `fill_window`. */
    method ReadMore(more: nat)
      requires Holds() && Chains() && (strstart == 0 || lookahead >= 2)
      requires 2 <= more <= WINDOW_SIZE - lookahead - strstart
      modifies this`pos, this`lookahead, this`eofile, window
      ensures Holds() && Chains() && lookahead >= old(lookahead) && (eofile || pos > old(pos))
      ensures eofile && !old(eofile) ==> lookahead == old(lookahead)
      ensures old(lookahead) >= 2 ==>
              window[strstart] == old(window[strstart]) && window[strstart + 1] == old(window[strstart + 1])
    {
      ghost var w := window[..];
      var n := FileRead(strstart + lookahead, more);
      ChainedFrame(w, window[..], prev[..], strstart);
      if n == 0 {
        eofile := true;
      } else {
        lookahead := lookahead + n;
      }
    }

    /** `fill_window`: the window always has room for two bytes more, so that a read of none means the end. */
    method FillWindow()
      requires Holds() && Chains() && lookahead < MIN_LOOKAHEAD && (strstart == 0 || lookahead >= 2) && !eofile
      modifies this`pos, this`base, this`strstart, this`lookahead, this`matchStart, this`blockStart, this`eofile,
               window, prev
      ensures Holds() && Chains() && Cur() == old(Cur()) && lookahead >= old(lookahead)
      ensures base + blockStart == old(base + blockStart) && (strstart == 0 <==> old(strstart) == 0)
      ensures old(strstart) > 0 ==> Distance() == old(Distance())
      ensures eofile || pos > old(pos)
      ensures old(lookahead) >= 2 ==>
              window[strstart] == old(window[strstart]) && window[strstart + 1] == old(window[strstart + 1])
    {
      var more := WINDOW_SIZE - lookahead - strstart;
      if strstart >= WSIZE + MAX_DIST {
        Slide();
        more := more + WSIZE;
      }
      assert 2 <= more;
      ReadMore(more);
    }

    /** Keeps enough lookahead for the longest match and the string after it. */
    method FillWindowIfNeeded()
      requires Holds() && Chains() && (strstart == 0 || lookahead >= 2 || eofile)
      modifies this`pos, this`base, this`strstart, this`lookahead, this`matchStart, this`blockStart, this`eofile,
               window, prev
      ensures Holds() && Chains() && Cur() == old(Cur()) && lookahead >= old(lookahead)
      ensures base + blockStart == old(base + blockStart) && (strstart == 0 <==> old(strstart) == 0)
      ensures (old(strstart) > 0 ==> Distance() == old(Distance()))
      ensures eofile || lookahead >= MIN_LOOKAHEAD
      ensures old(lookahead) >= 2 || old(eofile) ==>
                window[strstart] == old(window[strstart]) && window[strstart + 1] == old(window[strstart + 1])
      ensures old(eofile) ==>
              eofile && strstart == old(strstart) && lookahead == old(lookahead) && matchStart == old(matchStart)
    {
      while lookahead < MIN_LOOKAHEAD && !eofile
        invariant Holds() && Chains() && Cur() == old(Cur()) && lookahead >= old(lookahead)
        invariant base + blockStart == old(base + blockStart) && (strstart == 0 <==> old(strstart) == 0)
        invariant (old(strstart) > 0 ==> Distance() == old(Distance()))
        invariant old(lookahead) >= 2 || old(eofile) ==>
                    window[strstart] == old(window[strstart]) && window[strstart + 1] == old(window[strstart + 1])
        invariant old(eofile) ==>
                  eofile && strstart == old(strstart) && lookahead == old(lookahead) && matchStart == old(matchStart)
        decreases |input| - pos, !eofile
      {
        FillWindow();
      }
    }

    /** `INSERT_STRING`: the current string becomes the head of its chain. */
    method InsertString() returns (hashHead: nat)
      requires prev.Length == 2 * WSIZE && window as object != prev && strstart + 2 < window.Length && Chains()
      requires strstart < WINDOW_SIZE
      requires Keyed()
      modifies this`insH, prev
      ensures Chained(window[..], prev[..], strstart + 1) && Primed(insH, window[strstart + 1], window[strstart + 2])
      ensures Links(window[..], hashHead, strstart)
    {
      StringInserted(window[..], prev[..], strstart, insH);
      insH := Update(insH, window[strstart + 2]);
      hashHead := LinkIn(insH);
    }

    /** Puts the current string at the head of the chain of its key; its position fits the 16 bits of an entry. */
    method LinkIn(key: bv13) returns (hashHead: nat)
      requires prev.Length == 2 * WSIZE && strstart < WINDOW_SIZE
      modifies prev
      ensures prev[..] == Inserted(old(prev[..]), strstart, key) && hashHead == HeadOf(old(prev[..]), key)
    {
      var slot := WSIZE + key as int;
      hashHead := prev[slot];
      SetTwo(strstart % WSIZE, hashHead, slot, strstart);
    }

    method SetTwo(i: nat, x: Pos16, j: nat, y: Pos16)
      requires i < prev.Length && j < prev.Length
      modifies prev
      ensures prev[..] == old(prev[..])[i := x][j := y]
    {
      prev[i] := x;
      prev[j] := y;
    }

    /** `ct_tally` as far as the token goes; it asks for a flush when its buffer is full, or earlier if it likes. */
    method Tally(token: Token) returns (flush: bool)
      requires |pending| < 8191
      modifies this`pending
      ensures pending == old(pending) + [token] && (|pending| == 8191 ==> flush)
      ensures SentTokens() == old(SentTokens()) + [token]
      ensures (old(Holds()) ==> Holds()) && (old(Advanced()) ==> Advanced())
    {
      assert AllTokens(blocks) + (pending + [token]) == AllTokens(blocks) + pending + [token];
      pending := pending + [token];
      flush := *;
      if |pending| == 8191 {
        flush := true;
      }
    }

    /** The pending tokens stand for everything since the last block, up to `n` input bytes. */
    ghost predicate Accounts(n: int)
      reads this
    {
      AccountsFor(input, blocks, pending, base + blockStart, n)
    }

    /** The bytes of the block, if they are still in the window. */
    method BlockBytes() returns (buf: Option<seq<bv8>>)
      requires Holds() && blockStart <= strstart
      ensures buf == if blockStart >= 0 then Some(input[base + blockStart..Cur()]) else None
    {
      buf := None;
      if blockStart >= 0 {
        buf := Some(window[blockStart..strstart]);
        assert window[blockStart..strstart] == input[base + blockStart..base + strstart];
      }
    }

    /** The byte before the current string. */
    method ByteBefore() returns (c: bv8)
      requires Holds() && strstart >= 1
      ensures 0 < Cur() <= |input| && c == input[Cur() - 1]
    {
      c := window[strstart - 1];
    }

    /** `flush_block` as `deflate` sees it, with the bytes it may store if they are still in the window. */
    method FlushBlock(eof: bool)
      requires Holds() && Accounts(Cur()) && |pending| <= 8191
      modifies this`pending, this`blocks, this`blockStart
      ensures pending == [] && blockStart == strstart && (!eof ==> Accounts(Cur())) && Emitted(input, blocks, Cur())
      ensures SentTokens() == old(SentTokens())
      ensures blocks == old(blocks) + [Block(old(pending), old(base + blockStart), Cur(),
                if old(blockStart) >= 0 then Some(input[old(base + blockStart)..Cur()]) else None, eof)]
    {
      var buf := BlockBytes();
      ghost var at, done := Cur(), blocks + [Block(pending, base + blockStart, Cur(), buf, eof)];
      AccountsFlush(input, blocks, pending, base + blockStart, at, buf, eof);
      TokensOfBlock(blocks, Block(pending, base + blockStart, Cur(), buf, eof));
      blocks := blocks + [Block(pending, base + blockStart, Cur(), buf, eof)];
      pending := [];
      blockStart := strstart;
      assert blocks == done && base + blockStart == Cur() == at;
    }

    // ----- the main loop -----

    /** A match held back at the previous string is still good, wherever the window has slid. */
    ghost predicate Lazy(avail: bool, matchLength: nat)
      reads this
    {
      && 1 <= matchLength <= MAX_MATCH && (avail ==> strstart >= 1) && (lookahead != 0 ==> matchLength >= 2)
      && strstart <= WINDOW_SIZE && matchStart < TWO32
      && (matchLength >= 3 ==>
            avail && matchLength <= lookahead + 1 && Usable(input, Cur() - 1, Distance(), matchLength))
    }

    /** How far back the match found at the current string is. */
    ghost function FoundDist(): (r: nat)
      reads this
    {
      if matchStart < strstart then strstart - matchStart else 0
    }

    /** The tokens so far are those of the lazy parse. */
    ghost predicate Parsing(avail: bool, matchLength: nat, hits: seq<Hit>)
      reads this
    {
      && strstart <= WINDOW_SIZE && matchStart < TWO32
      && Stands(input, hits, Cur(), avail, matchLength, Distance(), SentTokens())
    }

    /** What the main loop of `deflate` keeps. */
    ghost predicate Ready(avail: bool, matchLength: nat, hits: seq<Hit>)
      reads this, window, prev
    {
      && Holds() && Chains() && (lookahead != 0 ==> Keyed()) && |pending| < 8191
      && Lazy(avail, matchLength) && Parsing(avail, matchLength, hits)
      && Accounts(Cur() - if avail then 1 else 0)
      && (eofile || lookahead >= MIN_LOOKAHEAD)
    }

    /** The current string is on its chain and the key has moved on to the next. */
    ghost predicate Advanced()
      reads this, window, prev
    {
      && Chained(window[..], prev[..], strstart + 1) && Deep() && strstart + 2 < window.Length
      && Primed(insH, window[strstart + 1], window[strstart + 2])
    }

    /** Searches the chain and cuts what it finds to the lookahead. */
    method Search(hashHead: nat, prevLength: nat) returns (matchLength: nat, start: nat, ghost best: nat)
      requires Holds() && Advanced() && lookahead != 0 && 1 <= prevLength < MAX_MATCH
      requires Candidate(window[..], strstart, hashHead) && strstart <= hashHead + MAX_DIST
      ensures 1 <= matchLength <= MAX_MATCH && start < TWO32
      ensures matchLength > prevLength ==>
                start < strstart && matchLength <= lookahead && Usable(input, Cur(), strstart - start, matchLength)
      ensures matchLength == Least(best, lookahead) && prevLength <= best <= MAX_MATCH
      ensures ChainSearched(window[..], prev[..], strstart, hashHead, prevLength, matchStart, best, start)
    {
      matchLength, start := Find(window, prev, strstart, prevLength, matchStart, hashHead);
      best := matchLength;
      if matchLength > lookahead {
        matchLength := lookahead;
      }
      if matchLength > prevLength {
        MatchRepeats(window[..], input, base, strstart, strstart + lookahead, start, matchLength);
      }
    }

    /** What is known of a match found `start` bytes into the window. */
    ghost predicate Good(prevLength: nat, matchLength: nat, start: nat)
      reads this
    {
      && 1 <= matchLength <= MAX_MATCH && (lookahead >= 2 ==> matchLength >= 2) && start < TWO32
      && (matchLength > prevLength && matchLength >= 3 ==>
            start < strstart && matchLength <= lookahead && Usable(input, Cur(), strstart - start, matchLength))
      && (matchLength > prevLength && matchLength == 3 ==> strstart - start <= 4096)
      && Finds(input, Cur(), prevLength, matchLength, if start < strstart then strstart - start else 0)
    }

    /** Searches the chain; a match of length three must not be too distant. */
    method SearchNear(hashHead: nat, prevLength: nat) returns (matchLength: nat, start: nat)
      requires Holds() && Advanced() && Ahead(window[..], input, base, strstart, strstart + lookahead)
      requires 2 <= prevLength < 16 && Links(window[..], hashHead, strstart)
      requires Candidate(window[..], strstart, hashHead) && strstart <= hashHead + MAX_DIST
      ensures Good(prevLength, matchLength, start)
    {
      ghost var best;
      matchLength, start, best := Search(hashHead, prevLength);
      ghost var found := matchLength;
      if matchLength == 3 && Sub32(strstart, start) > 4096 {
        matchLength := matchLength - 1;
      }
      TakenIs(prevLength, best, strstart, start, lookahead, found, matchLength);
      ChainFinds(window[..], input, base, prev[..], strstart, strstart + lookahead, hashHead, prevLength, matchStart,
          best, start, matchLength);
    }

    /** The best match for the current string. */
    method FindMatch(hashHead: nat, prevLength: nat) returns (matchLength: nat)
      requires Holds() && Advanced() && lookahead != 0 && 2 <= prevLength <= MAX_MATCH
      requires Links(window[..], hashHead, strstart) && (eofile || lookahead >= MIN_LOOKAHEAD)
      modifies this`matchStart
      ensures Holds() && Advanced() && Good(prevLength, matchLength, matchStart)
    {
      matchLength := 2;
      assert Ahead(window[..], input, base, strstart, strstart + lookahead);
      if hashHead != 0 && prevLength < 16 && strstart - hashHead <= MAX_DIST {
        var start;
        matchLength, start := SearchNear(hashHead, prevLength);
        matchStart := start;
        Kept();
      } else {
        NothingFinds(window[..], input, base, strstart, strstart + lookahead, hashHead, prevLength, FoundDist());
      }
    }

    /** Chains the strings inside an emitted match. */
    method InsertInside(count: nat)
      requires base <= pos && HoldsTo(pos - base) && Advanced() && strstart + count < WINDOW_SIZE
      modifies this`insH, this`strstart, prev
      ensures strstart == old(strstart) + count && HoldsTo(pos - base) && Advanced()
    {
      var n := count;
      while n != 0
        invariant 0 <= n <= count && strstart == old(strstart) + count - n
        invariant HoldsTo(pos - base) && Advanced()
      {
        strstart := strstart + 1;
        var hashHead := InsertString();
        n := n - 1;
      }
    }

    method TallyMatch(len: nat, dist: nat) returns (flush: bool)
      requires |pending| < 8191 && Cur() >= 1 && Accounts(Cur() - 1) && Usable(input, Cur() - 1, dist, len) && 3 <= len
      requires Holds() && Advanced()
      modifies this`pending
      ensures Holds() && Advanced()
      ensures Accounts(Cur() - 1 + len) && |pending| <= 8191 && (|pending| == 8191 ==> flush)
      ensures SentTokens() == old(SentTokens()) + [Match(len, dist)]
    {
      AccountsMatch(input, blocks, pending, base + blockStart, Cur() - 1, len, dist);
      flush := Tally(Match(len, dist));
    }

    method TallyLiteral() returns (flush: bool)
      requires Holds() && |pending| < 8191 && strstart >= 1 && Accounts(Cur() - 1)
      modifies this`pending
      ensures Holds() && (old(Advanced()) ==> Advanced())
      ensures Accounts(Cur()) && |pending| <= 8191 && (|pending| == 8191 ==> flush)
      ensures SentTokens() == old(SentTokens()) + Before(input, Cur(), true)
    {
      var c := ByteBefore();
      AccountsLiteral(input, blocks, pending, base + blockStart, Cur(), c);
      flush := Tally(Literal(c));
    }

    /** Moves over a match that starts one string back. */
    method SkipMatch(len: nat)
      requires Holds() && Advanced() && 3 <= len <= lookahead + 1
      modifies this`lookahead, this`strstart, this`insH, prev
      ensures Holds() && Chains() && Keyed()
      ensures strstart == old(strstart) + len - 1 && lookahead == old(lookahead) - (len - 1)
    {
      lookahead := lookahead - (len - 1);
      InsertInside(len - 2);
      label inside:
      strstart := strstart + 1;
      MovedOn@inside();
    }

    method FlushIf(flush: bool)
      requires Holds() && Accounts(Cur()) && |pending| <= 8191 && (|pending| == 8191 ==> flush)
      modifies this`pending, this`blocks, this`blockStart
      ensures Accounts(Cur()) && |pending| < 8191 && Holds() && SentTokens() == old(SentTokens())
      ensures old(Advanced()) ==> Advanced()
      ensures old(Chains() && Keyed()) ==> Chains() && Keyed()
    {
      if flush {
        FlushBlock(false);
        Kept();
      }
    }

    /** What does not touch the window, the chains and the place leaves them as they are. */
    twostate lemma Kept()
      requires unchanged(window) && unchanged(prev) && unchanged(this`strstart) && unchanged(this`insH)
      requires unchanged(this`base) && unchanged(this`lookahead) && unchanged(this`pos) && unchanged(this`eofile)
      ensures old(Holds()) && matchStart < TWO32 ==> Holds()
      ensures old(Advanced()) ==> Advanced()
      ensures old(Chains() && Keyed()) ==> Chains() && Keyed()
    {
      assert window[..] == old(window[..]) && prev[..] == old(prev[..]);
    }

    /** One string on, the key is ready and the chains are complete. */
    twostate lemma MovedOn()
      requires unchanged(window) && unchanged(prev) && strstart == old(strstart) + 1 && unchanged(this`insH)
      requires unchanged(this`base) && unchanged(this`pos) && unchanged(this`eofile) && unchanged(this`matchStart)
      ensures old(Advanced()) ==> Chains() && Keyed()
      ensures base <= pos && old(HoldsTo(pos - base)) ==> HoldsTo(pos - base)
    {
      assert window[..] == old(window[..]) && prev[..] == old(prev[..]);
    }

    /** The window and its chains, one string on. */
    ghost predicate Steady()
      reads this, window, prev
    {
      Holds() && Chains() && Keyed()
    }

    method PassMatch(len: nat, dist: nat) returns (flush: bool)
      requires Holds() && Advanced() && |pending| < 8191 && 3 <= len <= lookahead + 1 && strstart >= 1
      requires Accounts(Cur() - 1) && Usable(input, Cur() - 1, dist, len)
      modifies this`pending, this`lookahead, this`strstart, this`insH, prev
      ensures Steady() && |pending| <= 8191 && (|pending| == 8191 ==> flush) && Accounts(Cur())
      ensures Cur() == old(Cur()) + len - 1 && lookahead == old(lookahead) - (len - 1)
      ensures SentTokens() == old(SentTokens()) + [Match(len, dist)]
    {
      flush := TallyMatch(len, dist);
      ghost var tokens, to := SentTokens(), Cur() - 1 + len;
      SkipMatch(len);
      assert SentTokens() == tokens && Cur() == to;
    }

    /** Branch one: emits the match held back and moves past it. */
    method EmitMatch(len: nat, dist: nat)
      requires Holds() && Advanced() && |pending| < 8191 && 3 <= len <= lookahead + 1 && strstart >= 1
      requires Accounts(Cur() - 1) && Usable(input, Cur() - 1, dist, len)
      modifies this`pending, this`blocks, this`blockStart, this`lookahead, this`strstart, this`insH, prev
      ensures Steady() && |pending| < 8191 && Accounts(Cur())
      ensures Cur() == old(Cur()) + len - 1 && lookahead == old(lookahead) - (len - 1)
      ensures SentTokens() == old(SentTokens()) + [Match(len, dist)]
    {
      var flush := PassMatch(len, dist);
      FlushIf(flush);
    }

    method NextString()
      requires Holds() && Advanced() && lookahead != 0
      modifies this`strstart, this`lookahead
      ensures Steady() && strstart == old(strstart) + 1 && lookahead == old(lookahead) - 1
      ensures old(Accounts(Cur())) ==> Accounts(Cur() - 1)
    {
      ghost var at := Cur();
      strstart := strstart + 1;
      lookahead := lookahead - 1;
      MovedOn();
      assert Cur() - 1 == at;
      assert Accounts(Cur() - 1) == AccountsFor(input, blocks, pending, base + blockStart, at);
    }

    /** Branch two: emits the previous string's first byte as a literal. */
    method EmitLiteral()
      requires Holds() && Advanced() && |pending| < 8191 && lookahead != 0 && strstart >= 1 && Accounts(Cur() - 1)
      modifies this`pending, this`blocks, this`blockStart, this`lookahead, this`strstart
      ensures Steady() && |pending| < 8191 && Accounts(Cur() - 1)
      ensures strstart == old(strstart) + 1 && lookahead == old(lookahead) - 1
      ensures SentTokens() == old(SentTokens()) + Before(input, old(Cur()), true)
    {
      var flush := TallyLiteral();
      FlushIf(flush);
      NextString();
    }

    /** What is known when it is time to choose: the match held back (`dist`, `prevLength`) and the one found here. */
    ghost predicate Choice(avail: bool, prevLength: nat, dist: nat, matchLength: nat)
      reads this
    {
      && (avail ==> strstart >= 1) && matchStart < TWO32 && 1 <= matchLength <= MAX_MATCH
      && 1 <= prevLength <= MAX_MATCH && (lookahead >= 2 ==> matchLength >= 2)
      && (prevLength >= 3 ==> avail && prevLength <= lookahead + 1 && Usable(input, Cur() - 1, dist, prevLength))
      && (matchLength > prevLength && matchLength >= 3 ==>
            matchStart < strstart && matchLength <= lookahead
                && Usable(input, Cur(), strstart - matchStart, matchLength))
    }

    /** Branches two and three: the match found here is held back, a byte left over goes out as a literal. */
    method HoldBack(avail0: bool, prevLength: nat, dist: nat, matchLength: nat)
      requires Holds() && Advanced() && lookahead != 0 && |pending| < 8191
      requires !(prevLength >= 3 && matchLength <= prevLength)
      requires Choice(avail0, prevLength, dist, matchLength) && Accounts(Cur() - if avail0 then 1 else 0)
      modifies this`pending, this`blocks, this`blockStart, this`lookahead, this`strstart
      ensures Steady() && |pending| < 8191 && Lazy(true, matchLength) && Accounts(Cur() - 1)
      ensures strstart == old(strstart) + 1 && lookahead == old(lookahead) - 1
      ensures SentTokens() == old(SentTokens()) + Before(input, old(Cur()), avail0)
    {
      ghost var at, dist' := Cur(), FoundDist();
      if avail0 {
        EmitLiteral();
      } else {
        NextString();
        assert SentTokens() + [] == SentTokens();
      }
      assert Cur() - 1 == at && (matchStart < strstart - 1 ==> Distance() == dist');
    }

    /** The three-way choice of lazy matching. */
    method Choose(avail0: bool, prevLength: nat, dist: nat, matchLength0: nat) returns (avail: bool, matchLength: nat)
      requires Holds() && Advanced() && lookahead != 0 && |pending| < 8191
      requires Choice(avail0, prevLength, dist, matchLength0) && Accounts(Cur() - if avail0 then 1 else 0)
      modifies this`pending, this`blocks, this`blockStart, this`lookahead, this`strstart, this`insH, prev
      ensures Steady() && |pending| < 8191 && Lazy(avail, matchLength) && strstart > 0
      ensures Accounts(Cur() - if avail then 1 else 0)
      ensures Cur() > old(Cur()) && lookahead >= old(lookahead) - 257
      ensures avail <==> !(prevLength >= 3 && matchLength0 <= prevLength)
      ensures if avail then
                && matchLength == matchLength0 && Cur() == old(Cur()) + 1
                && (matchLength >= 3 ==> Distance() == old(FoundDist()))
                && SentTokens() == old(SentTokens()) + Before(input, old(Cur()), avail0)
              else
                && matchLength == 2 && Cur() == old(Cur()) + prevLength - 1
                && SentTokens() == old(SentTokens()) + [Match(prevLength, dist)]
    {
      if prevLength >= 3 && matchLength0 <= prevLength {
        EmitMatch(prevLength, dist);
        return false, 2;
      }
      HoldBack(avail0, prevLength, dist, matchLength0);
      return true, matchLength0;
    }

    /** Chains the current string and looks for a match for it; the one held back is `dist` away. */
    method Look(avail: bool, prevLength: nat, ghost hits: seq<Hit>) returns (dist: nat, matchLength: nat)
      requires Ready(avail, prevLength, hits) && lookahead != 0
      modifies this`insH, this`matchStart, prev
      ensures Holds() && Advanced() && Choice(avail, prevLength, dist, matchLength)
      ensures dist == old(Distance()) && Finds(input, Cur(), prevLength, matchLength, FoundDist())
    {
      var hashHead := InsertString();
      dist := Sub32(Sub32(strstart, 1), matchStart);
      matchLength := FindMatch(hashHead, prevLength);
    }

    /** The choice, and what it does to the parse. */
    method Decide(avail0: bool, prevLength: nat, dist: nat, matchLength0: nat, ghost hits0: seq<Hit>)
      returns (avail: bool, matchLength: nat, ghost hits: seq<Hit>)
      requires Holds() && Advanced() && lookahead != 0 && |pending| < 8191
      requires Choice(avail0, prevLength, dist, matchLength0) && Accounts(Cur() - if avail0 then 1 else 0)
      requires Stands(input, hits0, Cur(), avail0, prevLength, dist, SentTokens())
      requires Finds(input, Cur(), prevLength, matchLength0, FoundDist())
      modifies this`pending, this`blocks, this`blockStart, this`lookahead, this`strstart, this`insH, prev
      ensures Turned(avail, matchLength, hits) && Cur() > old(Cur()) && lookahead >= old(lookahead) - 257
    {
      ghost var at, tokens, hit := Cur(), SentTokens(), Hit(matchLength0, FoundDist());
      avail, matchLength := Choose(avail0, prevLength, dist, matchLength0);
      StandsAfter(input, hits0, at, avail0, prevLength, dist, tokens, hit, Cur(), avail, matchLength, Distance(),
          SentTokens());
      hits := hits0 + [hit];
    }

    /** What one turn of the main loop keeps before the refill. */
    ghost predicate Turned(avail: bool, matchLength: nat, hits: seq<Hit>)
      reads this, window, prev
    {
      && Steady() && |pending| < 8191 && Lazy(avail, matchLength) && strstart > 0 && Parsing(avail, matchLength, hits)
      && Accounts(Cur() - if avail then 1 else 0)
    }

    /** One turn of the main loop up to the refill. */
    method Turn(avail0: bool, matchLength0: nat, ghost hits0: seq<Hit>)
      returns (avail: bool, matchLength: nat, ghost hits: seq<Hit>)
      requires Ready(avail0, matchLength0, hits0) && lookahead != 0
      modifies this`pending, this`blocks, this`blockStart, this`lookahead, this`strstart, this`insH, this`matchStart,
               prev
      ensures Turned(avail, matchLength, hits) && Cur() > old(Cur()) && lookahead >= old(lookahead) - 257
    {
      var dist;
      dist, matchLength := Look(avail0, matchLength0, hits0);
      avail, matchLength, hits := Decide(avail0, matchLength0, dist, matchLength, hits0);
    }

    /** Reads on if the lookahead has become short. */
    method Refill(avail: bool, matchLength: nat, ghost hits: seq<Hit>)
      requires Turned(avail, matchLength, hits) && (lookahead >= 2 || eofile)
      modifies this`pos, this`base, this`strstart, this`lookahead, this`matchStart, this`blockStart, this`eofile,
               window, prev
      ensures Ready(avail, matchLength, hits) && Cur() == old(Cur())
    {
      FillWindowIfNeeded();
    }

    /** One turn of the main loop. */
    method Iterate(avail0: bool, matchLength0: nat, ghost hits0: seq<Hit>)
      returns (avail: bool, matchLength: nat, ghost hits: seq<Hit>)
      requires Ready(avail0, matchLength0, hits0) && lookahead != 0
      modifies this, window, prev
      ensures Ready(avail, matchLength, hits) && Cur() > old(Cur())
    {
      avail, matchLength, hits := Turn(avail0, matchLength0, hits0);
      Refill(avail, matchLength, hits);
    }

    /** The end: a byte held back goes out, and the last block. */
    method Finish(avail: bool, ghost matchLength: nat, ghost dist: nat, ghost hits: seq<Hit>)
      requires Holds() && Cur() == |input| && |pending| < 8191 && (avail ==> strstart >= 1)
      requires Stands(input, hits, |input|, avail, matchLength, dist, SentTokens())
      requires Accounts(Cur() - if avail then 1 else 0)
      modifies this`pending, this`blocks, this`blockStart
      ensures Emitted(input, blocks, |input|) && LazyParse(input, AllTokens(blocks))
      ensures |blocks| > 0 && blocks[..|blocks| - 1] == old(blocks) && blocks[|blocks| - 1].eof
    {
      ghost var tokens := SentTokens();
      StandsEnd(input, hits, avail, matchLength, dist, tokens);
      if avail {
        var flush := TallyLiteral();
      }
      assert SentTokens() == tokens + Before(input, |input|, avail);
      FlushBlock(true);
      assert AllTokens(blocks) == SentTokens();
    }

    method Close(avail: bool, matchLength: nat, ghost hits: seq<Hit>)
      requires Ready(avail, matchLength, hits) && lookahead == 0
      modifies this`pending, this`blocks, this`blockStart
      ensures eofile && pos == |input| && Emitted(input, blocks, |input|) && LazyParse(input, AllTokens(blocks))
      ensures OnlyLast(blocks) && Expand(AllTokens(blocks), []) == input
    {
      NoneIsLast(input, blocks, pending, base + blockStart, Cur() - if avail then 1 else 0);
      Finish(avail, matchLength, Distance(), hits);
      OneIsLast(old(blocks), blocks);
      EmittedExpands(input, blocks, |input|);
      assert input[..|input|] == input;
    }

    /** `deflate`: over the whole run the emitted blocks stand for exactly the input, and their tokens are those of its
        lazy parse. */
    method Deflate(matchLength0: nat)
      requires Ready(false, matchLength0, [])
      modifies this, window, prev
      ensures eofile && pos == |input| && Emitted(input, blocks, |input|)
      ensures OnlyLast(blocks)
      ensures Expand(AllTokens(blocks), []) == input && LazyParse(input, AllTokens(blocks))
    {
      var avail, matchLength := false, matchLength0;
      ghost var hits: seq<Hit> := [];
      while lookahead != 0
        invariant Ready(avail, matchLength, hits)
        decreases |input| - Cur()
      {
        avail, matchLength, hits := Iterate(avail, matchLength, hits);
      }
      Close(avail, matchLength, hits);
    }

    method ClearHeads()
      requires prev.Length == 2 * WSIZE && window.Length >= 2
      modifies prev
      ensures Chained(window[..], prev[..], 0)
    {
      for i := 0 to HASH_SIZE
        invariant forall k :: WSIZE <= k < WSIZE + i ==> prev[k] == 0
      {
        prev[WSIZE + i] := 0;
      }
    }

    /** `lm_init`: empty chains, the first read, and the key over the first two bytes. */
    method LmInit()
      requires HoldsTo(0) && strstart == lookahead == blockStart == 0 && !eofile && pending == [] && blocks == []
      requires base == pos == 0
      modifies this, window, prev
      ensures Ready(false, 2, [])
    {
      FirstRead();
      if eofile {
        lookahead := 0;
      } else {
        FillWindowIfNeeded();
        PrimeKey();
      }
      StandsFirst(input, Distance());
    }

    method FirstRead()
      requires HoldsTo(0) && strstart == lookahead == blockStart == 0 && !eofile && pending == [] && blocks == []
      requires base == pos == 0
      modifies this`pos, this`lookahead, this`eofile, window, prev
      ensures Holds() && Chains() && Accounts(0) && (eofile ==> lookahead == 0)
    {
      ClearHeads();
      ReadMore(WINDOW_SIZE);
      NothingYet(input);
    }

    method PrimeKey()
      requires window.Length >= 2 && strstart == 0
      modifies this`insH
      ensures Keyed()
    {
      insH := Update(0, window[0]);
      insH := Update(insH, window[1]);
      KeyPrimed(window[0], window[1], insH);
    }
  }

  /** A whole run on any input, however it is delivered: the tokens of all blocks,
      decoded in order, give back the input. */
  method Run(input: seq<bv8>) returns (s: State)
    ensures s.input == input && s.eofile && s.pos == |input|
    ensures Expand(AllTokens(s.blocks), []) == input && LazyParse(input, AllTokens(s.blocks))
    ensures Emitted(input, s.blocks, |input|)
    ensures OnlyLast(s.blocks)
  {
    s := new State(input);
    s.LmInit();
    s.Deflate(2);
  }

  lemma TakenIs(held: nat, best: nat, s: nat, start: nat, left: nat, found: nat, len: nat)
    requires found == Least(best, left) && 2 <= held && s < TWO32 && start < TWO32 && (found > held ==> start < s)
    requires len == if found == 3 && Sub32(s, start) > 4096 then found - 1 else found
    ensures Taken(held, best, if start < s then s - start else 0, left, len)
  {
  }

  lemma StringInserted(w: seq<bv8>, prev: seq<nat>, s: nat, h: bv13)
    requires Chained(w, prev, s) && s + 3 <= |w| && Primed(h, w[s], w[s + 1])
    ensures var key := Update(h, w[s + 2]);
            && Primed(key, w[s + 1], w[s + 2]) && Links(w, HeadOf(prev, key), s)
            && Chained(w, Inserted(prev, s, key), s + 1)
  {
    var key := KeyRolls(w, s, h);
    InsertKeepsChains(w, prev, s, key);
  }

  /** The rolling key, moved on by the third byte, is the key of the string. */
  lemma KeyRolls(w: seq<bv8>, s: nat, h: bv13) returns (key: bv13)
    requires s + 3 <= |w| && Primed(h, w[s], w[s + 1])
    ensures key == Update(h, w[s + 2]) && HasKey(w, s, key) && Primed(key, w[s + 1], w[s + 2])
  {
    key := Update(h, w[s + 2]);
    assert Same(h, h);
    UpdateForgets(h, w[s], w[s + 1], w[s + 2]);
    KeyOf(w, s, key);
  }

  lemma KeyPrimed(a: bv8, b: bv8, h: bv13)
    requires h == Update(Update(0, a), b)
    ensures Primed(h, a, b)
  {
    UpdateForgets(0, a, b, 0);
  }

  lemma SameKeys(w: seq<bv8>, w': seq<bv8>, p: nat, n: nat)
    requires p + 2 < n <= |w| == |w'| && forall i :: 0 <= i < n ==> w[i] == w'[i]
    ensures KeyAt(w, p) == KeyAt(w', p)
  {
  }

  lemma SameHas(w: seq<bv8>, w': seq<bv8>, p: nat, n: nat, key: bv13)
    requires p + 2 < n <= |w| == |w'| && forall i :: 0 <= i < n ==> w[i] == w'[i]
    ensures HasKey(w', p, key) <==> HasKey(w, p, key)
  {
    SameKeys(w, w', p, n);
    KeyOf(w, p, key);
    KeyOf(w', p, key);
  }

  lemma SameAgree(w: seq<bv8>, w': seq<bv8>, q: nat, p: nat, n: nat)
    requires q + 2 < n && p + 2 < n <= |w| == |w'| && forall i :: 0 <= i < n ==> w[i] == w'[i]
    ensures KeysAgree(w', q, p) <==> KeysAgree(w, q, p)
  {
    SameKeys(w, w', q, n);
    SameKeys(w, w', p, n);
    AgreeingKeys(w, q, p);
    AgreeingKeys(w', q, p);
  }

  /** Bytes read past the strings already chained change no chain. */
  lemma ChainedFrame(w: seq<bv8>, w': seq<bv8>, prev: seq<nat>, s: nat)
    requires Chained(w, prev, s) && |w| == |w'| && (s > 0 ==> forall i :: 0 <= i < s + 2 && i < |w| ==> w[i] == w'[i])
    ensures Chained(w', prev, s)
  {
    forall h: bv13
      ensures Heads(w', HeadOf(prev, h), s, h)
    {
      var q := HeadOf(prev, h);
      assert Heads(w, q, s, h);
      if q != 0 {
        SameHas(w, w', q, s + 2, h);
      }
      forall r: nat | q < r < s
        ensures !HasKey(w', r, h)
      {
        SameHas(w, w', r, s + 2, h);
      }
    }
    forall p | 0 <= p < s && s < p + WSIZE
      ensures Links(w', PrevOf(prev, p), p)
    {
      var q := PrevOf(prev, p);
      assert Links(w, q, p);
      if q != 0 {
        SameAgree(w, w', q, p, s + 2);
      }
      forall r: nat | q < r < p
        ensures !KeysAgree(w', r, p)
      {
        SameAgree(w, w', r, p, s + 2);
      }
    }
  }

  /** A match in the window, within the lookahead, is a repeat in the input. */
  lemma MatchRepeats(w: seq<bv8>, input: seq<bv8>, base: nat, s: nat, n: nat, m: nat, len: nat)
    requires Mirrors(w, input, base, n)
    requires m < s && s + len <= n && MatchAt(w, s, m, len)
    ensures Repeats(input, base + s, s - m, len)
  {
    var d := s - m;
    forall i | base + s <= i < base + s + len
      ensures RepeatsAt(input, i, d)
    {
      var t := i - base - s;
      assert SameAt(w, s, m, t);
      assert w[m + t] == input[base + (m + t)] && w[s + t] == input[base + (s + t)];
    }
  }
}
