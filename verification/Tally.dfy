/** How tokens become symbols by the tables of `ct_init`, and the lists of symbols the trees are built for. */
module TokenSymbols {
  import opened Tokens
  import opened DeflateFormat
  import opened LengthTables
  import opened GenBitlen
  import opened Pricing
  import opened BitStrings

  datatype Tables = Tables(baseLength: seq<nat>, lengthCode: seq<nat>, baseDist: seq<nat>, distCode: seq<nat>) {
    ghost predicate Right() {
      LengthTable(baseLength, lengthCode) && DistTable(baseDist, distCode)
    }
  }

  ghost function SymOf(T: Tables, t: Token): (r: Symbols)
    requires T.Right() && TokenOk(t)
    ensures Spells(r, t) && InTables(r)
  {
    if t.Literal? then Plain(t.c)
    else
      LengthTableRight(T.baseLength, T.lengthCode, t.len - 3);
      DistTableRight(T.baseDist, T.distCode, t.dist - 1);
      Pair(T.lengthCode[t.len - 3], LengthRest(T.baseLength, T.lengthCode, t.len - 3),
           DCode(T.distCode, t.dist - 1), DistRest(T.baseDist, T.distCode, t.dist - 1))
  }

  ghost function SymsOf(T: Tables, tokens: seq<Token>): (r: seq<Symbols>)
    requires T.Right() && AllOk(tokens)
    ensures |r| == |tokens| && AllSpell(r, tokens) && forall i :: 0 <= i < |r| ==> InTables(r[i])
  {
    seq(|tokens|, i requires 0 <= i < |tokens| => SymOf(T, tokens[i]))
  }

  /** The literal or length symbol. */
  function LSym(s: Symbols): (r: nat) {
    match s
    case Plain(c) => c as nat
    case Pair(lc, lx, dc, dx) => 257 + lc
  }

  ghost function LList(syms: seq<Symbols>): (r: seq<nat>)
    ensures |r| == |syms|
  {
    seq(|syms|, i requires 0 <= i < |syms| => LSym(syms[i]))
  }

  /** The distance symbols, of the matches alone. */
  ghost function DList(syms: seq<Symbols>): (r: seq<nat>) {
    if syms == [] then []
    else
      var s := syms[|syms| - 1];
      DList(syms[..|syms| - 1]) + if s.Pair? then [s.dc] else []
  }

  lemma LListMore(syms: seq<Symbols>, s: Symbols)
    ensures LList(syms + [s]) == LList(syms) + [LSym(s)]
  {
  }

  lemma DListMore(syms: seq<Symbols>, s: Symbols)
    ensures DList(syms + [s]) == DList(syms) + if s.Pair? then [s.dc] else []
  {
    assert (syms + [s])[..|syms|] == syms;
  }

  // ----- the descriptions of the literal and distance trees -----

  ghost predicate IsLDesc(d: Desc) {
    d.elems == 286 && d.extraBase == 257 && |d.extraBits| == 29 && d.maxLength == 15 && forall c :: 0 <= c < 29 ==>
        d.extraBits[c] == LengthExtra(c)
  }

  ghost predicate IsDDesc(d: Desc) {
    d.elems == 30 && d.extraBase == 0 && |d.extraBits| == 30 && d.maxLength == 15 && forall c :: 0 <= c < 30 ==>
        d.extraBits[c] == DistExtra(c)
  }

  ghost predicate AllInTables(syms: seq<Symbols>) {
    forall i :: 0 <= i < |syms| ==> InTables(syms[i])
  }

  lemma LSymSmall(s: Symbols)
    requires InTables(s)
    ensures LSym(s) < 286 && (s.Plain? ==> LSym(s) < 256)
  {
  }

  lemma LListSmall(syms: seq<Symbols>)
    requires AllInTables(syms)
    ensures forall i :: 0 <= i < |syms| ==> LList(syms)[i] < 286
  {
    forall i | 0 <= i < |syms|
      ensures LList(syms)[i] < 286
    {
      LSymSmall(syms[i]);
    }
  }

  lemma {:induction false} DListSmall(syms: seq<Symbols>)
    requires AllInTables(syms)
    ensures forall i :: 0 <= i < |DList(syms)| ==> DList(syms)[i] < 30
  {
    if syms != [] {
      DListSmall(syms[..|syms| - 1]);
    }
  }

  /** One token's bits are the prices of its symbols. */
  lemma SymbolPrice(ld: Desc, dd: Desc, s: Symbols, l: seq<nat>, d: seq<nat>)
    requires IsLDesc(ld) && IsDDesc(dd) && InTables(s) && Coverable(s, l, d) && 286 <= |l| && 30 <= |d|
    ensures LSym(s) < 286
    ensures |SymbolBits(s, l, d)| == l[LSym(s)] + ld.Extra(LSym(s)) + if s.Pair? then d[s.dc] + dd.Extra(s.dc) else 0
  {
    LSymSmall(s);
  }

  lemma PartsMore(syms: seq<Symbols>, s: Symbols, l: seq<nat>, d: seq<nat>)
    requires AllCoverable(syms, l, d) && Coverable(s, l, d) && InTables(s)
    ensures AllCoverable(syms + [s], l, d)
    ensures |Flat(SymbolParts(syms + [s], l, d))| == |Flat(SymbolParts(syms, l, d))| + |SymbolBits(s, l, d)|
  {
    var parts := SymbolParts(syms + [s], l, d);
    assert parts[..|syms|] == SymbolParts(syms, l, d) && parts[..|syms| + 1] == parts;
    FlatMore(parts, |syms|);
  }

  /** One more token: one more symbol in the first list and, for a match, in the second. */
  lemma PricesMore(ld: Desc, dd: Desc, syms: seq<Symbols>, s: Symbols, l: seq<nat>, d: seq<nat>)
    requires IsLDesc(ld) && IsDDesc(dd) && AllInTables(syms) && InTables(s) && Coverable(s, l, d) && 286 <= |l|
    requires 30 <= |d|
    ensures ListsSmall(syms) && ListsSmall(syms + [s])
    ensures Price(ld, l, LList(syms + [s])) + Price(dd, d, DList(syms + [s])) ==
            Price(ld, l, LList(syms)) + Price(dd, d, DList(syms)) + |SymbolBits(s, l, d)|
  {
    SmallLists(syms);
    SymbolPrice(ld, dd, s, l, d);
    LListMore(syms, s);
    PriceMore(ld, l, LList(syms), LSym(s));
    DistPriceMore(dd, syms, s, d);
  }

  lemma DistPriceMore(dd: Desc, syms: seq<Symbols>, s: Symbols, d: seq<nat>)
    requires IsDDesc(dd) && AllInTables(syms) && InTables(s) && 30 <= |d| && ListsSmall(syms)
    ensures forall i :: 0 <= i < |DList(syms + [s])| ==> DList(syms + [s])[i] < 30
    ensures Price(dd, d, DList(syms + [s])) == Price(dd, d, DList(syms)) + if s.Pair? then d[s.dc] + dd.Extra(s.dc)
            else 0
  {
    DListMore(syms, s);
    if s.Pair? {
      PriceMore(dd, d, DList(syms), s.dc);
    } else {
      assert DList(syms) + [] == DList(syms);
    }
  }

  /** Both lists are within their alphabets. */
  ghost predicate ListsSmall(syms: seq<Symbols>) {
    (forall i :: 0 <= i < |LList(syms)| ==> LList(syms)[i] < 286) && forall i :: 0 <= i < |DList(syms)| ==>
        DList(syms)[i] < 30
  }

  lemma SmallLists(syms: seq<Symbols>)
    requires AllInTables(syms)
    ensures ListsSmall(syms)
  {
    LListSmall(syms);
    DListSmall(syms);
  }

  /** All tokens' bits are the prices of the two lists of symbols. */
  lemma {:induction false} SymbolsPrice(ld: Desc, dd: Desc, syms: seq<Symbols>, l: seq<nat>, d: seq<nat>)
    requires IsLDesc(ld) && IsDDesc(dd) && AllInTables(syms) && AllCoverable(syms, l, d) && 286 <= |l| && 30 <= |d|
    ensures ListsSmall(syms) && |Flat(SymbolParts(syms, l, d))| == Price(ld, l, LList(syms)) + Price(dd, d, DList(syms))
    decreases |syms|
  {
    SmallLists(syms);
    if syms == [] {
      assert SymbolParts(syms, l, d) == [] && LList(syms) == [] && DList(syms) == [];
    } else {
      var init, s := syms[..|syms| - 1], syms[|syms| - 1];
      assert syms == init + [s];
      SymbolsPrice(ld, dd, init, l, d);
      PartsMore(init, s, l, d);
      PricesMore(ld, dd, init, s, l, d);
    }
  }

  /** The data of a block takes exactly the price of its symbols and the end-of-block code. */
  lemma DataPrice(ld: Desc, dd: Desc, syms: seq<Symbols>, l: seq<nat>, d: seq<nat>)
    requires IsLDesc(ld) && IsDDesc(dd) && AllInTables(syms) && AllCoverable(syms, l, d) && 286 <= |l| && 30 <= |d|
    ensures (forall i :: 0 <= i < |syms| + 1 ==> (LList(syms) + [END_BLOCK])[i] < 286)
    ensures forall i :: 0 <= i < |DList(syms)| ==> DList(syms)[i] < 30
    ensures |DataBits(syms, l, d)| == Price(ld, l, LList(syms) + [END_BLOCK]) + Price(dd, d, DList(syms))
  {
    SymbolsPrice(ld, dd, syms, l, d);
    PriceMore(ld, l, LList(syms), END_BLOCK);
  }
}

/** `ct_tally` and the buffers it fills: a byte per token, a distance per match, a flag bit per token. */
module Tally {
  import opened Powers
  import opened LsbFirst
  import opened BitOps
  import opened LsbOps
  import opened Tokens
  import opened DeflateFormat
  import opened LengthTables
  import opened Pricing
  import opened Occurrences
  import opened TokenSymbols

  const LIT_BUFSIZE := 0x2000

  /** What the literal buffer holds for a token. */
  function LcOf(t: Token): (r: nat)
    requires t.Match? ==> t.len >= 3
  {
    if t.Literal? then t.c as nat else t.len - 3
  }

  /** The distances of the matches, less 1. */
  ghost function DistsOf(tokens: seq<Token>): (r: seq<int>) {
    if tokens == [] then []
    else
      var t := tokens[|tokens| - 1];
      DistsOf(tokens[..|tokens| - 1]) + if t.Match? then [t.dist - 1] else []
  }

  lemma DistsMore(tokens: seq<Token>, t: Token)
    ensures DistsOf(tokens + [t]) == DistsOf(tokens) + if t.Match? then [t.dist - 1] else []
  {
    assert (tokens + [t])[..|tokens|] == tokens;
  }

  lemma {:induction false} DistsBound(tokens: seq<Token>)
    ensures |DistsOf(tokens)| <= |tokens|
  {
    if tokens != [] {
      DistsBound(tokens[..|tokens| - 1]);
    }
  }

  /** Which tokens are matches. */
  ghost function Kinds(tokens: seq<Token>): (r: seq<bool>)
    ensures |r| == |tokens|
  {
    seq(|tokens|, i requires 0 <= i < |tokens| => tokens[i].Match?)
  }

  /** Byte `j` of the flags holds the kinds of eight tokens, as far as there are tokens. */
  ghost predicate FlagByte(v: nat, kinds: seq<bool>, j: nat) {
    8 * j <= |kinds| &&
    var n := if 8 * j + 8 <= |kinds| then 8 else |kinds| - 8 * j;
    Lsb(v, n) == kinds[8 * j..8 * j + n]
  }

  /** The buffers hold the tokens. */
  ghost predicate Buffered(lBuf: seq<nat>, dBuf: seq<nat>, tokens: seq<Token>) {
    && AllOk(tokens) && |tokens| <= |lBuf| && |DistsOf(tokens)| <= |dBuf|
    && (forall i :: 0 <= i < |tokens| ==> lBuf[i] == LcOf(tokens[i]))
    && (forall i :: 0 <= i < |DistsOf(tokens)| ==> dBuf[i] == DistsOf(tokens)[i])
  }

  lemma BufferedMore(lBuf: seq<nat>, dBuf: seq<nat>, tokens: seq<Token>, t: Token)
    requires Buffered(lBuf, dBuf, tokens) && TokenOk(t) && |tokens| < |lBuf| && |DistsOf(tokens)| < |dBuf|
    ensures var lBuf', k := lBuf[|tokens| := LcOf(t)], |DistsOf(tokens)|;
            Buffered(lBuf', if t.Match? then dBuf[k := t.dist - 1] else dBuf, tokens + [t])
  {
    DistsMore(tokens, t);
  }

  /** Full flag bytes, and the one being filled. */
  ghost predicate Flagged(flagBuf: seq<nat>, lastFlags: nat, flags: nat, flagBit: nat, tokens: seq<Token>) {
    && lastFlags == |tokens| / 8 <= |flagBuf| && flagBit == Pow2(|tokens| % 8) && flags < flagBit
    && Lsb(flags, |tokens| % 8) == Kinds(tokens)[8 * lastFlags..]
    && forall j :: 0 <= j < lastFlags ==> FlagByte(flagBuf[j], Kinds(tokens), j)
  }

  lemma FlagBytesKept(flagBuf: seq<nat>, tokens: seq<Token>, t: Token, n: nat)
    requires n <= |tokens| / 8 && n <= |flagBuf| && forall j :: 0 <= j < n ==> FlagByte(flagBuf[j], Kinds(tokens), j)
    ensures forall j :: 0 <= j < n ==> FlagByte(flagBuf[j], Kinds(tokens + [t]), j)
  {
    forall j | 0 <= j < n
      ensures FlagByte(flagBuf[j], Kinds(tokens + [t]), j)
    {
      assert FlagByte(flagBuf[j], Kinds(tokens), j);
      assert Kinds(tokens + [t])[8 * j..8 * j + 8] == Kinds(tokens)[8 * j..8 * j + 8];
    }
  }

  /** The flag of one more token. */
  lemma FlagAdded(flags: nat, k: nat, kinds: seq<bool>, b: bool)
    requires flags < Pow2(k) && Lsb(flags, k) == kinds
    ensures var flags' := if b then Or(flags, Pow2(k)) else flags;
            flags' < Pow2(k + 1) && Lsb(flags', k + 1) == kinds + [b]
  {
    var bit := if b then 1 else 0;
    OrStacked(flags, k, 1);
    LsbStacked(flags, k, bit, 1);
    assert Lsb(bit, 1) == [b] + Lsb(bit / 2, 0);
  }

  lemma SymsMore(T: Tables, tokens: seq<Token>, t: Token)
    requires T.Right() && AllOk(tokens) && TokenOk(t)
    ensures AllOk(tokens + [t]) && SymsOf(T, tokens + [t]) == SymsOf(T, tokens) + [SymOf(T, t)]
  {
  }

  /** The frequencies are those of the symbols to be sent, end-of-block code included. */
  ghost predicate Counted(T: Tables, lFreq: seq<nat>, dFreq: seq<nat>, tokens: seq<Token>) {
    && T.Right() && AllOk(tokens)
    && IsCount(lFreq, LList(SymsOf(T, tokens)) + [END_BLOCK], 286) && IsCount(dFreq, DList(SymsOf(T, tokens)), 30)
  }

  lemma BumpBeforeEnd(freq: seq<nat>, list: seq<nat>, x: nat, m: nat)
    requires IsCount(freq, list + [END_BLOCK], m) && x < m
    ensures IsCount(freq[x := freq[x] + 1], list + [x] + [END_BLOCK], m)
  {
    forall n | 0 <= n < m
      ensures freq[x := freq[x] + 1][n] == Count(list + [x] + [END_BLOCK], n)
    {
      CountMore(list, END_BLOCK, n);
      CountMore(list, x, n);
      CountMore(list + [x], END_BLOCK, n);
    }
  }

  lemma Bump(freq: seq<nat>, list: seq<nat>, x: nat, m: nat)
    requires IsCount(freq, list, m) && x < m
    ensures IsCount(freq[x := freq[x] + 1], list + [x], m)
  {
    forall n | 0 <= n < m
      ensures freq[x := freq[x] + 1][n] == Count(list + [x], n)
    {
      CountMore(list, x, n);
    }
  }

  lemma CountedMore(T: Tables, lFreq: seq<nat>, dFreq: seq<nat>, tokens: seq<Token>, t: Token)
    requires Counted(T, lFreq, dFreq, tokens) && TokenOk(t)
    ensures var s := SymOf(T, t);
            && LSym(s) < 286 && (s.Pair? ==> s.dc < 30)
            && Counted(T, lFreq[LSym(s) := lFreq[LSym(s)] + 1], if s.Pair? then dFreq[s.dc := dFreq[s.dc] + 1]
                  else dFreq, tokens + [t])
  {
    var s, syms := SymOf(T, t), SymsOf(T, tokens);
    SymsMore(T, tokens, t);
    LSymSmall(s);
    LListMore(syms, s);
    DListMore(syms, s);
    BumpBeforeEnd(lFreq, LList(syms), LSym(s), 286);
    if s.Pair? {
      Bump(dFreq, DList(syms), s.dc, 30);
    } else {
      assert DList(syms) + [] == DList(syms);
    }
  }

  /** Names the places where the contents of the buffers are looked into; elsewhere `Valid` is only passed on. */
  predicate Inside(n: nat) { n >= 0 }

  class Buffers {
    const T: Tables
    const lBuf: array<nat>
    const dBuf: array<nat>
    const flagBuf: array<nat>
    const lFreq: array<nat>
    const dFreq: array<nat>
    var lastLit: nat
    var lastDist: nat
    var lastFlags: nat
    var flags: nat
    var flagBit: nat
    ghost var tokens: seq<Token>

    ghost function Parts(): (r: set<object>) {
      {lBuf, dBuf, flagBuf, lFreq, dFreq}
    }

    ghost predicate Shape() {
      && lBuf.Length == dBuf.Length == LIT_BUFSIZE && flagBuf.Length == LIT_BUFSIZE / 8 && lFreq.Length == 573
      && dFreq.Length == 61
      && lBuf != dBuf && flagBuf !in {lBuf, dBuf} && lFreq !in {lBuf, dBuf, flagBuf}
      && dFreq !in {lBuf, dBuf, flagBuf, lFreq}
    }

    ghost predicate Valid()
      reads this, lBuf, dBuf, flagBuf, lFreq, dFreq
    {
      && Shape() && T.Right() && lastLit == |tokens| < LIT_BUFSIZE
      && forall n: nat {:trigger Inside(n)} :: Inside(n) ==> Tallied()
    }

    /** The buffers hold the tokens and the frequencies count their symbols. */
    ghost predicate Tallied()
      reads this, lBuf, dBuf, flagBuf, lFreq, dFreq
    {
      && lastDist == |DistsOf(tokens)| && Buffered(lBuf[..], dBuf[..], tokens)
      && Flagged(flagBuf[..], lastFlags, flags, flagBit, tokens)
      && Counted(T, lFreq[..], dFreq[..], tokens)
    }

    /** The rest of `ct_init`: empty buffers for these tables. */
    constructor (T: Tables)
      requires T.Right()
      ensures Valid() && tokens == [] && this.T == T
      ensures fresh(Parts())
    {
      this.T := T;
      lBuf, dBuf, flagBuf := new nat[LIT_BUFSIZE](i => 0), new nat[LIT_BUFSIZE](i => 0),
          new nat[LIT_BUFSIZE / 8](i => 0);
      lFreq, dFreq := new nat[573](i => 0), new nat[61](i => 0);
      new;
      InitBlock();
    }

    /** `init_block`, for the literal and distance trees. */
    method InitBlock()
      requires Shape() && T.Right()
      modifies this, lFreq, dFreq
      ensures Valid() && tokens == []
    {
      ClearFreq(lFreq, 286);
      ClearFreq(dFreq, 30);
      lFreq[END_BLOCK] := 1;
      lastLit, lastDist, lastFlags, flags, flagBit := 0, 0, 0, 0, 1;
      tokens := [];
      NothingCounted(T, lFreq[..], dFreq[..]);
      assert Pow2(0) == 1 && Kinds([])[8 * 0..] == [];
    }

    /** Puts the token into the literal and distance buffers. */
    method Store(t: Token)
      requires Shape() && TokenOk(t) && lastLit == |tokens| < LIT_BUFSIZE && lastDist == |DistsOf(tokens)|
      requires Buffered(lBuf[..], dBuf[..], tokens)
      modifies this`lastLit, this`lastDist, lBuf, dBuf
      ensures lastLit == |tokens + [t]| && lastDist == |DistsOf(tokens + [t])|
      ensures Buffered(lBuf[..], dBuf[..], tokens + [t])
    {
      DistsBound(tokens);
      BufferedMore(lBuf[..], dBuf[..], tokens, t);
      DistsMore(tokens, t);
      ghost var l: seq<nat>, d: seq<nat> := lBuf[..], dBuf[..];
      lBuf[lastLit] := LcOf(t);
      lastLit := lastLit + 1;
      assert lBuf[..] == l[|tokens| := LcOf(t)];
      if t.Match? {
        dBuf[lastDist] := t.dist - 1;
        assert dBuf[..] == d[lastDist := t.dist - 1];
        lastDist := lastDist + 1;
      }
    }

    /** Counts the token's symbols. */
    method CountSymbols(t: Token)
      requires Shape() && TokenOk(t) && Counted(T, lFreq[..], dFreq[..], tokens)
      modifies lFreq, dFreq
      ensures Counted(T, lFreq[..], dFreq[..], tokens + [t])
    {
      CountedMore(T, lFreq[..], dFreq[..], tokens, t);
      ghost var l: seq<nat>, d: seq<nat> := lFreq[..], dFreq[..];
      if t.Literal? {
        var lc := t.c as nat;
        lFreq[lc] := lFreq[lc] + 1;
        assert lFreq[..] == l[lc := l[lc] + 1];
      } else {
        var lc, dc := T.lengthCode[t.len - 3] + 256 + 1, DCode(T.distCode, t.dist - 1);
        lFreq[lc] := lFreq[lc] + 1;
        dFreq[dc] := dFreq[dc] + 1;
        assert lFreq[..] == l[lc := l[lc] + 1];
        assert dFreq[..] == d[dc := d[dc] + 1];
      }
    }

    /** Records whether the token is a match. */
    method Flag(t: Token)
      requires Shape() && |tokens| < LIT_BUFSIZE - 1 && lastLit == |tokens| + 1
      requires Flagged(flagBuf[..], lastFlags, flags, flagBit, tokens)
      modifies this`lastFlags, this`flags, this`flagBit, flagBuf
      ensures Flagged(flagBuf[..], lastFlags, flags, flagBit, tokens + [t])
    {
      FlagStep(flagBuf[..], lastFlags, flags, flagBit, tokens, t);
      ghost var f: seq<nat> := flagBuf[..];
      if t.Match? {
        flags := Or(flags, flagBit);
      }
      flagBit := flagBit * 2 % 256;
      if lastLit % 8 == 0 {
        flagBuf[lastFlags] := flags;
        assert flagBuf[..] == f[lastFlags := flags];
        lastFlags := lastFlags + 1;
        flags := 0;
        flagBit := 1;
      }
    }

    /** `ct_tally`, up to its guess whether to end the block; a full buffer always ends it. */
    method Add(t: Token) returns (full: bool)
      requires Valid() && TokenOk(t) && |tokens| < LIT_BUFSIZE - 1
      modifies this, lBuf, dBuf, flagBuf, lFreq, dFreq
      ensures Valid() && tokens == old(tokens) + [t] && full == (|tokens| == LIT_BUFSIZE - 1)
    {
      assert Inside(0);
      Store(t);
      CountSymbols(t);
      Flag(t);
      tokens := tokens + [t];
      DistsBound(tokens);
      full := lastLit == LIT_BUFSIZE - 1 || lastDist == LIT_BUFSIZE;
    }

    /** All tokens of a block. */
    method AddAll(ts: seq<Token>)
      requires Valid() && tokens == [] && AllOk(ts) && |ts| < LIT_BUFSIZE
      modifies this, lBuf, dBuf, flagBuf, lFreq, dFreq
      ensures Valid() && tokens == ts
    {
      assert ts[..0] == [];
      for i := 0 to |ts|
        invariant Valid() && tokens == ts[..i]
      {
        var full := Add(ts[i]);
        OneMoreOf(ts, i);
      }
      assert ts[..|ts|] == ts;
    }
  }

  lemma OneMoreOf(ts: seq<Token>, i: nat)
    requires i < |ts|
    ensures ts[..i] + [ts[i]] == ts[..i + 1]
  {
  }

  method ClearFreq(freq: array<nat>, m: nat)
    requires m <= freq.Length
    modifies freq
    ensures forall n :: 0 <= n < m ==> freq[n] == 0
    ensures forall n :: m <= n < freq.Length ==> freq[n] == old(freq[n])
  {
    for n := 0 to m
      invariant forall i :: 0 <= i < n ==> freq[i] == 0
      invariant forall i :: n <= i < freq.Length ==> freq[i] == old(freq[i])
    {
      freq[n] := 0;
    }
  }

  lemma NothingCounted(T: Tables, lFreq: seq<nat>, dFreq: seq<nat>)
    requires T.Right() && |lFreq| >= 286 && |dFreq| >= 30
    requires (forall n :: 0 <= n < 286 ==> lFreq[n] == if n == END_BLOCK then 1 else 0)
    requires forall n :: 0 <= n < 30 ==> dFreq[n] == 0
    ensures Counted(T, lFreq, dFreq, [])
  {
    var list := LList(SymsOf(T, [])) + [END_BLOCK];
    assert list == [] + [END_BLOCK];
    forall n | 0 <= n < 286
      ensures lFreq[n] == Count(list, n)
    {
      CountMore([], END_BLOCK, n);
    }
  }

  /** One more kind in the flag byte being filled. */
  lemma KindAdded(flags: nat, lastFlags: nat, tokens: seq<Token>, t: Token)
    requires lastFlags == |tokens| / 8 && flags < Pow2(|tokens| % 8)
    requires Lsb(flags, |tokens| % 8) == Kinds(tokens)[8 * lastFlags..]
    ensures var flags' := if t.Match? then Or(flags, Pow2(|tokens| % 8)) else flags;
            flags' < Pow2(|tokens| % 8 + 1) && Lsb(flags', |tokens| % 8 + 1) == Kinds(tokens + [t])[8 * lastFlags..]
  {
    FlagAdded(flags, |tokens| % 8, Kinds(tokens)[8 * lastFlags..], t.Match?);
    assert Kinds(tokens + [t])[8 * lastFlags..] == Kinds(tokens)[8 * lastFlags..] + [t.Match?];
  }

  /** The flag bit moves up without leaving its byte. */
  lemma FlagBitUp(k: nat)
    requires k < 7
    ensures Pow2(k) * 2 % 256 == Pow2(k + 1)
  {
    Pow2Mono(k + 1, 7);
    Pow2Values();
  }

  lemma FlagFull(flags: nat, kinds: seq<bool>, j: nat)
    requires |kinds| == 8 * j + 8 && Lsb(flags, 8) == kinds[8 * j..]
    ensures FlagByte(flags, kinds, j)
  {
    assert kinds[8 * j..8 * j + 8] == kinds[8 * j..];
  }

  lemma FlagStep(flagBuf: seq<nat>, lastFlags: nat, flags: nat, flagBit: nat, tokens: seq<Token>, t: Token)
    requires Flagged(flagBuf, lastFlags, flags, flagBit, tokens) && lastFlags < |flagBuf|
    ensures var flags' := if t.Match? then Or(flags, flagBit) else flags;
            if (|tokens| + 1) % 8 == 0 then Flagged(flagBuf[lastFlags := flags'], lastFlags + 1, 0, 1, tokens + [t])
            else Flagged(flagBuf, lastFlags, flags', flagBit * 2 % 256, tokens + [t])
  {
    var flags' := if t.Match? then Or(flags, flagBit) else flags;
    var k := |tokens| - 8 * lastFlags;
    KindAdded(flags, lastFlags, tokens, t);
    FlagBytesKept(flagBuf, tokens, t, lastFlags);
    if k == 7 {
      FlagByteDone(flagBuf, lastFlags, flags', tokens + [t]);
    } else {
      FlagBitUp(k);
      FlagByteOpen(flagBuf, lastFlags, flags', k + 1, tokens + [t]);
    }
  }

  /** A flag byte with room for more. */
  lemma FlagByteOpen(flagBuf: seq<nat>, j: nat, flags: nat, k: nat, tokens: seq<Token>)
    requires |tokens| == 8 * j + k && k < 8 && j < |flagBuf| && flags < Pow2(k)
    requires Lsb(flags, k) == Kinds(tokens)[8 * j..]
    requires forall i :: 0 <= i < j ==> FlagByte(flagBuf[i], Kinds(tokens), i)
    ensures Flagged(flagBuf, j, flags, Pow2(k), tokens)
  {
  }

  /** A full flag byte is stored and the next one begun. */
  lemma FlagByteDone(flagBuf: seq<nat>, j: nat, flags: nat, tokens: seq<Token>)
    requires |tokens| == 8 * j + 8 && j < |flagBuf| && Lsb(flags, 8) == Kinds(tokens)[8 * j..]
    requires forall i :: 0 <= i < j ==> FlagByte(flagBuf[i], Kinds(tokens), i)
    ensures Flagged(flagBuf[j := flags], j + 1, 0, 1, tokens)
  {
    FlagFull(flags, Kinds(tokens), j);
    assert Kinds(tokens)[8 * (j + 1)..] == [] && Lsb(0, 0) == [];
  }
}
