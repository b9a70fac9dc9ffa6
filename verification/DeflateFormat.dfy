/** Section 3.2 of RFC 1951: the decoder for the blocks of a deflate stream. */
module DeflateFormat {
  import opened Powers
  import opened PrefixCode
  import opened LsbFirst
  import opened BitStrings
  import opened Tokens

  // ----- numbers, least significant bit first -----

  ghost function LsbValue(bits: seq<bool>): (r: nat) {
    if bits == [] then 0 else (if bits[0] then 1 else 0) + 2 * LsbValue(bits[1..])
  }

  lemma {:induction false} LsbValueOf(v: nat, n: nat)
    requires v < Pow2(n)
    ensures LsbValue(Lsb(v, n)) == v
  {
    if n > 0 {
      LsbValueOf(v / 2, n - 1);
      assert Lsb(v, n)[1..] == Lsb(v / 2, n - 1);
    }
  }

  ghost function ReadLsb(bits: seq<bool>, n: nat): (r: Option<(nat, seq<bool>)>)
    ensures r.Some? ==> |r.value.1| + n == |bits|
  {
    if |bits| < n then None else Some((LsbValue(bits[..n]), bits[n..]))
  }

  lemma ReadsLsb(v: nat, n: nat, rest: seq<bool>)
    requires v < Pow2(n)
    ensures ReadLsb(Lsb(v, n) + rest, n) == Some((v, rest))
  {
    LsbValueOf(v, n);
    assert (Lsb(v, n) + rest)[..n] == Lsb(v, n);
  }

  // ----- lengths and distances (section 3.2.5) -----

  /** Extra bits of length code `c`, that is symbol 257 + `c`. */
  function LengthExtra(c: nat): (r: nat) {
    if c < 8 || c >= 28 then 0 else (c - 4) / 4
  }

  /** Match lengths, less 3, below those of code `c`. */
  function LengthsBefore(c: nat): (r: nat) {
    if c == 0 then 0 else LengthsBefore(c - 1) + Pow2(LengthExtra(c - 1))
  }

  /** The first match length of code `c`; the last code stands for 258 alone. */
  function LengthBase(c: nat): (r: nat) {
    if c == 28 then 258 else 3 + LengthsBefore(c)
  }

  function DistExtra(c: nat): (r: nat) {
    if c < 4 then 0 else (c - 2) / 2
  }

  function DistsBefore(c: nat): (r: nat) {
    if c == 0 then 0 else DistsBefore(c - 1) + Pow2(DistExtra(c - 1))
  }

  function DistBase(c: nat): (r: nat) {
    1 + DistsBefore(c)
  }

  lemma LengthStep(c: nat, x: nat, e: nat)
    requires LengthsBefore(c) == x && LengthExtra(c) == e
    ensures LengthsBefore(c + 1) == x + Pow2(e)
  {
  }

  lemma DistStep(c: nat, x: nat, e: nat)
    requires DistsBefore(c) == x && DistExtra(c) == e
    ensures DistsBefore(c + 1) == x + Pow2(e)
  {
  }

  lemma LengthValues8()
    ensures LengthsBefore(8) == 8 && forall c :: 0 <= c <= 8 ==> LengthBase(c) == 3 + c
  {
    assert Pow2(0) == 1;
    LengthStep(0, 0, 0); LengthStep(1, 1, 0); LengthStep(2, 2, 0); LengthStep(3, 3, 0);
    LengthStep(4, 4, 0); LengthStep(5, 5, 0); LengthStep(6, 6, 0); LengthStep(7, 7, 0);
  }

  lemma LengthValues20()
    ensures LengthBase(9) == 13 && LengthBase(10) == 15 && LengthBase(11) == 17 && LengthBase(12) == 19
    ensures LengthBase(13) == 23 && LengthBase(14) == 27 && LengthBase(15) == 31 && LengthBase(16) == 35
    ensures LengthBase(17) == 43 && LengthBase(18) == 51 && LengthBase(19) == 59 && LengthBase(20) == 67
  {
    Pow2Values();
    LengthValues8();
    LengthStep(8, 8, 1); LengthStep(9, 10, 1); LengthStep(10, 12, 1); LengthStep(11, 14, 1);
    LengthStep(12, 16, 2); LengthStep(13, 20, 2); LengthStep(14, 24, 2); LengthStep(15, 28, 2);
    LengthStep(16, 32, 3); LengthStep(17, 40, 3); LengthStep(18, 48, 3); LengthStep(19, 56, 3);
  }

  /** The base lengths as the table of section 3.2.5 lists them. */
  lemma LengthValues28()
    ensures LengthBase(21) == 83 && LengthBase(22) == 99 && LengthBase(23) == 115 && LengthBase(24) == 131
    ensures LengthBase(25) == 163 && LengthBase(26) == 195 && LengthBase(27) == 227 && LengthsBefore(28) == 256
  {
    Pow2Values();
    LengthValues20();
    LengthStep(20, 64, 4); LengthStep(21, 80, 4); LengthStep(22, 96, 4); LengthStep(23, 112, 4);
    LengthStep(24, 128, 5); LengthStep(25, 160, 5); LengthStep(26, 192, 5); LengthStep(27, 224, 5);
  }

  lemma DistValues16()
    ensures DistBase(0) == 1 && DistBase(1) == 2 && DistBase(2) == 3 && DistBase(3) == 4 && DistBase(4) == 5
    ensures DistBase(5) == 7
    ensures DistBase(6) == 9 && DistBase(7) == 13 && DistBase(8) == 17 && DistBase(9) == 25 && DistBase(10) == 33
    ensures DistBase(11) == 49
    ensures DistBase(12) == 65 && DistBase(13) == 97 && DistBase(14) == 129 && DistBase(15) == 193
    ensures DistBase(16) == 257
  {
    Pow2Values();
    DistStep(0, 0, 0); DistStep(1, 1, 0); DistStep(2, 2, 0); DistStep(3, 3, 0);
    DistStep(4, 4, 1); DistStep(5, 6, 1); DistStep(6, 8, 2); DistStep(7, 12, 2);
    DistStep(8, 16, 3); DistStep(9, 24, 3); DistStep(10, 32, 4); DistStep(11, 48, 4);
    DistStep(12, 64, 5); DistStep(13, 96, 5); DistStep(14, 128, 6); DistStep(15, 192, 6);
  }

  lemma BigPowers()
    ensures Pow2(9) == 512 && Pow2(10) == 1024 && Pow2(11) == 2048 && Pow2(12) == 4096 && Pow2(13) == 8192
  {
    Pow2Values();
    assert Pow2(10) == 2 * Pow2(9);
    assert Pow2(12) == 2 * Pow2(11);
  }

  /** The base distances as the table of section 3.2.5 lists them. */
  lemma DistValues30()
    ensures DistBase(17) == 385 && DistBase(18) == 513 && DistBase(19) == 769 && DistBase(20) == 1025
    ensures DistBase(21) == 1537
    ensures DistBase(22) == 2049 && DistBase(23) == 3073 && DistBase(24) == 4097 && DistBase(25) == 6145
    ensures DistBase(26) == 8193
    ensures DistBase(27) == 12289 && DistBase(28) == 16385 && DistBase(29) == 24577 && DistsBefore(30) == 32768
  {
    Pow2Values();
    BigPowers();
    DistValues16();
    DistStep(16, 256, 7); DistStep(17, 384, 7); DistStep(18, 512, 8); DistStep(19, 768, 8);
    DistStep(20, 1024, 9); DistStep(21, 1536, 9); DistStep(22, 2048, 10); DistStep(23, 3072, 10);
    DistStep(24, 4096, 11); DistStep(25, 6144, 11); DistStep(26, 8192, 12); DistStep(27, 12288, 12);
    DistStep(28, 16384, 13); DistStep(29, 24576, 13);
  }

  const END_BLOCK := 256

  /** A match length that length code `c` can express, with the extra bits' value. */
  ghost predicate LengthOf(c: nat, extra: nat, len: nat) {
    c < 29 && len == LengthBase(c) + extra && extra < Pow2(LengthExtra(c))
  }

  ghost predicate DistOf(c: nat, extra: nat, dist: nat) {
    c < 30 && dist == DistBase(c) + extra && extra < Pow2(DistExtra(c))
  }

  // ----- the data of a compressed block -----

  /** How one token is written: its literal, or the two codes with their extra bits. */
  datatype Symbols = Plain(c: bv8) | Pair(lc: nat, lx: nat, dc: nat, dx: nat)

  ghost predicate Spells(s: Symbols, t: Token) {
    match s
    case Plain(c) => t == Literal(c)
    case Pair(lc, lx, dc, dx) => t.Match? && LengthOf(lc, lx, t.len) && DistOf(dc, dx, t.dist)
  }

  /** The trees have codes for the symbols. */
  ghost predicate Coverable(s: Symbols, l: seq<nat>, d: seq<nat>) {
    match s
    case Plain(c) => c as nat < |l| && l[c as nat] > 0
    case Pair(lc, lx, dc, dx) => 257 + lc < |l| && l[257 + lc] > 0 && dc < |d| && d[dc] > 0
  }

  ghost function SymbolBits(s: Symbols, l: seq<nat>, d: seq<nat>): (r: seq<bool>)
    requires Coverable(s, l, d) && (s.Pair? ==> s.lc < 29 && s.dc < 30)
  {
    match s
    case Plain(c) => Encode(l, c as nat)
    case Pair(lc, lx, dc, dx) =>
      Encode(l, 257 + lc) + Lsb(lx, LengthExtra(lc)) + Encode(d, dc) + Lsb(dx, DistExtra(dc))
  }

  /** After a length code: extra bits, distance code, extra bits. */
  ghost function ReadDist(bits: seq<bool>, lc: nat, d: seq<nat>): (r: Option<(Token, seq<bool>)>)
    requires lc < 29
    ensures r.Some? ==> |r.value.1| <= |bits|
  {
    match ReadLsb(bits, LengthExtra(lc))
    case None => None
    case Some(x) =>
      match DecodeSym(d, x.1)
      case None => None
      case Some(s) =>
        if s.0 >= 30 then None
        else match ReadLsb(s.1, DistExtra(s.0))
          case None => None
          case Some(y) => Some((Match(LengthBase(lc) + x.0, DistBase(s.0) + y.0), y.1))
  }

  /** The tokens up to the end-of-block code. */
  ghost function ReadTokens(bits: seq<bool>, l: seq<nat>, d: seq<nat>): (r: Option<(seq<Token>, seq<bool>)>)
    decreases |bits|
  {
    match DecodeSym(l, bits)
    case None => None
    case Some(s) =>
      if s.0 == END_BLOCK then Some(([], s.1))
      else if s.0 < 256 then AddToken(Literal(s.0 as bv8), ReadTokens(s.1, l, d))
      else if s.0 >= 286 then None
      else match ReadDist(s.1, s.0 - 257, d)
        case None => None
        case Some(t) => AddToken(t.0, ReadTokens(t.1, l, d))
  }

  ghost function AddToken(t: Token, more: Option<(seq<Token>, seq<bool>)>): (r: Option<(seq<Token>, seq<bool>)>) {
    match more
    case None => None
    case Some(r) => Some(([t] + r.0, r.1))
  }

  lemma ReadsDist(s: Symbols, t: Token, l: seq<nat>, d: seq<nat>, top: nat, rest: seq<bool>)
    requires s.Pair? && Spells(s, t) && Coverable(s, l, d) && Fits(d, top)
    ensures ReadDist(Lsb(s.lx, LengthExtra(s.lc)) + (Encode(d, s.dc) + (Lsb(s.dx, DistExtra(s.dc)) + rest)), s.lc, d) ==
            Some((t, rest))
  {
    var dist := Lsb(s.dx, DistExtra(s.dc)) + rest;
    ReadsLsb(s.lx, LengthExtra(s.lc), Encode(d, s.dc) + dist);
    DecodeEncode(d, top, s.dc, dist);
    ReadsLsb(s.dx, DistExtra(s.dc), rest);
  }

  lemma ReadsLiteral(c: bv8, l: seq<nat>, d: seq<nat>, top: nat, rest: seq<bool>)
    requires c as nat < |l| && l[c as nat] > 0 && Fits(l, top)
    ensures ReadTokens(Encode(l, c as nat) + rest, l, d) == AddToken(Literal(c), ReadTokens(rest, l, d))
  {
    DecodeEncode(l, top, c as nat, rest);
    assert (c as nat) as bv8 == c;
  }

  lemma ReadsMatch(lc: nat, more: seq<bool>, t: Token, l: seq<nat>, d: seq<nat>, top: nat, rest: seq<bool>)
    requires lc < 29 && 257 + lc < |l| && l[257 + lc] > 0 && Fits(l, top)
    requires ReadDist(more, lc, d) == Some((t, rest))
    ensures ReadTokens(Encode(l, 257 + lc) + more, l, d) == AddToken(t, ReadTokens(rest, l, d))
  {
    DecodeEncode(l, top, 257 + lc, more);
  }

  lemma PairFirst(a: seq<bool>, b: seq<bool>, c: seq<bool>, e: seq<bool>, rest: seq<bool>)
    ensures a + b + c + e + rest == a + (b + (c + (e + rest)))
  {
  }

  /** One token written is the first token read. */
  lemma ReadsToken(s: Symbols, t: Token, l: seq<nat>, d: seq<nat>, top: nat, rest: seq<bool>)
    requires Spells(s, t) && Coverable(s, l, d) && Fits(l, top) && Fits(d, top)
    ensures ReadTokens(SymbolBits(s, l, d) + rest, l, d) == AddToken(t, ReadTokens(rest, l, d))
  {
    if s.Plain? {
      ReadsLiteral(s.c, l, d, top, rest);
    } else {
      ReadsPair(s, t, l, d, top, rest);
    }
  }

  lemma ReadsPair(s: Symbols, t: Token, l: seq<nat>, d: seq<nat>, top: nat, rest: seq<bool>)
    requires s.Pair? && Spells(s, t) && Coverable(s, l, d) && Fits(l, top) && Fits(d, top)
    ensures ReadTokens(SymbolBits(s, l, d) + rest, l, d) == AddToken(t, ReadTokens(rest, l, d))
  {
    var a, b, e := Lsb(s.lx, LengthExtra(s.lc)), Encode(d, s.dc), Lsb(s.dx, DistExtra(s.dc));
    PairFirst(Encode(l, 257 + s.lc), a, b, e, rest);
    ReadsDist(s, t, l, d, top, rest);
    ReadsMatch(s.lc, a + (b + (e + rest)), t, l, d, top, rest);
  }

  lemma ReadsEndBlock(l: seq<nat>, d: seq<nat>, top: nat, rest: seq<bool>)
    requires Fits(l, top) && END_BLOCK < |l| && l[END_BLOCK] > 0
    ensures ReadTokens(Encode(l, END_BLOCK) + rest, l, d) == Some(([], rest))
  {
    DecodeEncode(l, top, END_BLOCK, rest);
  }

  // ----- all tokens of a block -----

  ghost predicate AllSpell(syms: seq<Symbols>, tokens: seq<Token>) {
    |syms| == |tokens| && forall i :: 0 <= i < |syms| ==> Spells(syms[i], tokens[i])
  }

  ghost predicate AllCoverable(syms: seq<Symbols>, l: seq<nat>, d: seq<nat>) {
    forall i :: 0 <= i < |syms| ==> Coverable(syms[i], l, d) && InTables(syms[i])
  }

  ghost predicate InTables(s: Symbols) {
    s.Pair? ==> s.lc < 29 && s.dc < 30
  }

  ghost function SymbolParts(syms: seq<Symbols>, l: seq<nat>, d: seq<nat>): (r: seq<seq<bool>>)
    requires AllCoverable(syms, l, d)
    ensures |r| == |syms|
  {
    seq(|syms|, i requires 0 <= i < |syms| => SymbolBits(syms[i], l, d))
  }

  /** The data of a block: its tokens and the end-of-block code. */
  ghost function DataBits(syms: seq<Symbols>, l: seq<nat>, d: seq<nat>): (r: seq<bool>)
    requires AllCoverable(syms, l, d) && END_BLOCK < |l|
  {
    Flat(SymbolParts(syms, l, d)) + Encode(l, END_BLOCK)
  }

  lemma ReadsNext(syms: seq<Symbols>, tokens: seq<Token>, l: seq<nat>, d: seq<nat>, top: nat, i: nat,
                  more: seq<bool>, tail: seq<Token>, rest: seq<bool>)
    requires AllSpell(syms, tokens) && AllCoverable(syms, l, d) && Fits(l, top) && Fits(d, top) && i < |syms|
    requires ReadTokens(more, l, d) == Some((tail, rest))
    ensures ReadTokens(SymbolParts(syms, l, d)[i] + more, l, d) == Some(([tokens[i]] + tail, rest))
  {
    ReadsToken(syms[i], tokens[i], l, d, top, more);
  }

  lemma TailOf<T>(s: seq<T>, i: nat)
    requires i < |s|
    ensures s[i..] == [s[i]] + s[i + 1..]
  {
  }

  lemma {:induction false} ReadsTokens(syms: seq<Symbols>, tokens: seq<Token>, l: seq<nat>, d: seq<nat>, top: nat,
                                       i: nat, rest: seq<bool>)
    requires AllSpell(syms, tokens) && AllCoverable(syms, l, d) && Fits(l, top) && Fits(d, top)
    requires END_BLOCK < |l| && l[END_BLOCK] > 0 && i <= |syms|
    ensures ReadTokens(Flat(SymbolParts(syms, l, d)[i..]) + (Encode(l, END_BLOCK) + rest), l, d) ==
            Some((tokens[i..], rest))
    decreases |syms| - i
  {
    var parts := SymbolParts(syms, l, d);
    var end := Encode(l, END_BLOCK) + rest;
    if i == |syms| {
      NothingLeft(parts, i, end);
      ReadsEndBlock(l, d, top, rest);
      assert tokens[i..] == [];
    } else {
      ReadsTokens(syms, tokens, l, d, top, i + 1, rest);
      FlatFrom(parts, i);
      Regroup(parts[i], Flat(parts[i + 1..]), end);
      ReadsNext(syms, tokens, l, d, top, i, Flat(parts[i + 1..]) + end, tokens[i + 1..], rest);
      TailOf(tokens, i);
    }
  }

  /** The data of a block reads back as its tokens. */
  lemma ReadsData(syms: seq<Symbols>, tokens: seq<Token>, l: seq<nat>, d: seq<nat>, top: nat, rest: seq<bool>)
    requires AllSpell(syms, tokens) && AllCoverable(syms, l, d) && Fits(l, top) && Fits(d, top)
    requires END_BLOCK < |l| && l[END_BLOCK] > 0
    ensures ReadTokens(DataBits(syms, l, d) + rest, l, d) == Some((tokens, rest))
  {
    var parts := SymbolParts(syms, l, d);
    ReadsTokens(syms, tokens, l, d, top, 0, rest);
    Regroup(Flat(parts), Encode(l, END_BLOCK), rest);
    assert parts[0..] == parts && tokens[0..] == tokens;
  }
}
