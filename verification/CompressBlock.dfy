/** `compress_block`: the buffered tokens, sent with a literal and a distance tree. */
module CompressBlock {
  import opened Powers
  import opened PrefixCode
  import opened LsbFirst
  import opened BitOps
  import opened LsbOps
  import opened BitStrings
  import opened Tokens
  import opened DeflateFormat
  import opened LengthTables
  import opened TokenSymbols
  import opened Tally
  import opened SendTree
  import LW = LsbWriter
  import GC = GenCodes

  // ----- reading the flags -----

  lemma LsbAt(v: nat, n: nat, i: nat)
    requires i < n
    ensures Lsb(v, n)[i] == (Shr(v, i) % 2 == 1)
  {
    LsbSplit(v, i, n - i, Shr(v, i));
    assert Lsb(v, n)[i] == Lsb(Shr(v, i), n - i)[0];
  }

  lemma ShrNext(v: nat, i: nat)
    ensures Shr(v, i) / 2 == Shr(v, i + 1) && Shr(v, 0) == v
  {
    GC.DivSwap(v, Pow2(i));
    assert Pow2(0) == 1;
  }

  ghost predicate FlagsReadable(flagBuf: seq<nat>, tokens: seq<Token>) {
    (|tokens| + 7) / 8 <= |flagBuf| && forall j :: 0 <= j < (|tokens| + 7) / 8 ==>
        FlagByte(flagBuf[j], Kinds(tokens), j)
  }

  lemma FlagRead(flagBuf: seq<nat>, tokens: seq<Token>, i: nat)
    requires FlagsReadable(flagBuf, tokens) && i < |tokens|
    ensures (Shr(flagBuf[i / 8], i % 8) % 2 == 1) == tokens[i].Match?
  {
    var j, k := i / 8, i % 8;
    assert FlagByte(flagBuf[j], Kinds(tokens), j);
    var n := if 8 * j + 8 <= |tokens| then 8 else |tokens| - 8 * j;
    LsbAt(flagBuf[j], n, k);
    assert Kinds(tokens)[8 * j..8 * j + n][k] == Kinds(tokens)[i];
  }

  /** Storing the flags of the last few tokens makes all of them readable. */
  lemma FlagsStored(flagBuf: seq<nat>, lastFlags: nat, flags: nat, flagBit: nat, tokens: seq<Token>)
    requires Flagged(flagBuf, lastFlags, flags, flagBit, tokens) && lastFlags < |flagBuf|
    ensures FlagsReadable(flagBuf[lastFlags := flags], tokens)
  {
    var flagBuf' := flagBuf[lastFlags := flags];
    forall j | 0 <= j < (|tokens| + 7) / 8
      ensures FlagByte(flagBuf'[j], Kinds(tokens), j)
    {
      if j < lastFlags {
        assert FlagByte(flagBuf[j], Kinds(tokens), j);
      } else {
        assert Kinds(tokens)[8 * j..8 * j + |tokens| % 8] == Kinds(tokens)[8 * lastFlags..];
      }
    }
  }

  // ----- sending -----

  /** A literal and a distance tree as `compress_block` takes them. */
  datatype Trees = Trees(l: seq<nat>, lc: seq<nat>, d: seq<nat>, dc: seq<nat>) {
    ghost predicate Valid() {
      TreeCodes(l, lc) && TreeCodes(d, dc)
    }
  }

  /** One code of a tree. */
  method SendCode(o: LW.Output, lens: seq<nat>, codes: seq<nat>, s: nat)
    requires o.Valid() && TreeCodes(lens, codes) && s < |lens| && lens[s] > 0
    modifies o, o.outbuf
    ensures o.Valid() && o.stream == old(o.stream) + Encode(lens, s)
  {
    assert GC.Coded(lens, codes[s], s);
    o.SendBits(codes[s], lens[s]);
  }

  /** Extra bits, if there are any. */
  method SendExtra(o: LW.Output, v: nat, n: nat)
    requires o.Valid() && n <= 16 && v < Pow2(n)
    modifies o, o.outbuf
    ensures o.Valid() && o.stream == old(o.stream) + Lsb(v, n)
  {
    if n != 0 {
      o.SendBits(v, n);
    } else {
      assert o.stream + [] == o.stream;
    }
  }

  method SendMatch(o: LW.Output, T: Tables, trees: Trees, lc: nat, dist: nat)
    requires o.Valid() && T.Right() && trees.Valid() && lc < 256 && dist < 0x8000
    requires Coverable(SymOf(T, Match(lc + 3, dist + 1)), trees.l, trees.d)
    modifies o, o.outbuf
    ensures o.Valid() && o.stream == old(o.stream) + SymbolBits(SymOf(T, Match(lc + 3, dist + 1)), trees.l, trees.d)
  {
    LengthTableRight(T.baseLength, T.lengthCode, lc);
    DistTableRight(T.baseDist, T.distCode, dist);
    var code := T.lengthCode[lc];
    SendCode(o, trees.l, trees.lc, code + 256 + 1);
    SendExtra(o, LengthRest(T.baseLength, T.lengthCode, lc), LengthExtra(code));
    var dcode := DCode(T.distCode, dist);
    SendCode(o, trees.d, trees.dc, dcode);
    SendExtra(o, DistRest(T.baseDist, T.distCode, dist), DistExtra(dcode));
    ghost var s0, a, b := old(o.stream), Encode(trees.l, 257 + code),
        Lsb(LengthRest(T.baseLength, T.lengthCode, lc), LengthExtra(code));
    ghost var c, d := Encode(trees.d, dcode), Lsb(DistRest(T.baseDist, T.distCode, dist), DistExtra(dcode));
    RegroupFour(s0, a, b, c);
    Regroup(s0, a + b + c, d);
  }

  ghost predicate AllCovered(T: Tables, tokens: seq<Token>, trees: Trees) {
    T.Right() && AllOk(tokens) && AllCoverable(SymsOf(T, tokens), trees.l, trees.d)
  }

  /** One token off the buffers, the `lx`th token and, if a match, the `dx`th distance. */
  method SendToken(o: LW.Output, T: Tables, trees: Trees, lBuf: array<nat>, dBuf: array<nat>, isMatch: bool, lx: nat,
                   dx: nat, ghost tokens: seq<Token>)
    requires o.Valid() && trees.Valid() && AllCovered(T, tokens, trees) && Buffered(lBuf[..], dBuf[..], tokens)
    requires o.outbuf != lBuf && o.outbuf != dBuf
    requires lx < |tokens| && isMatch == tokens[lx].Match? && dx == |DistsOf(tokens[..lx])|
    modifies o, o.outbuf
    ensures o.Valid() && o.stream == old(o.stream) + SymbolBits(SymsOf(T, tokens)[lx], trees.l, trees.d)
  {
    ghost var t := tokens[lx];
    assert Coverable(SymsOf(T, tokens)[lx], trees.l, trees.d) && TokenOk(t);
    var lc := lBuf[lx];
    assert lc == LcOf(t);
    if !isMatch {
      SendCode(o, trees.l, trees.lc, lc);
    } else {
      DistAt(tokens, lx);
      var dist := dBuf[dx];
      assert dist == t.dist - 1 && t == Match(lc + 3, dist + 1);
      SendMatch(o, T, trees, lc, dist);
    }
  }

  /** Where the distance of a match is found. */
  lemma DistAt(tokens: seq<Token>, i: nat)
    requires i < |tokens| && tokens[i].Match?
    ensures |DistsOf(tokens[..i])| < |DistsOf(tokens)| && DistsOf(tokens)[|DistsOf(tokens[..i])|] == tokens[i].dist - 1
  {
    assert tokens[..i + 1] == tokens[..i] + [tokens[i]];
    DistsMore(tokens[..i], tokens[i]);
    DistsPrefix(tokens, i + 1);
  }

  lemma {:induction false} DistsPrefix(tokens: seq<Token>, n: nat)
    requires n <= |tokens|
    ensures DistsOf(tokens[..n]) <= DistsOf(tokens)
    decreases |tokens|
  {
    if n == |tokens| {
      assert tokens[..n] == tokens;
    } else {
      var init := tokens[..|tokens| - 1];
      DistsPrefix(init, n);
      assert init[..n] == tokens[..n];
    }
  }

  /** ... added to what has been sent since `s0`. */
  method SendNextToken(o: LW.Output, T: Tables, trees: Trees, lBuf: array<nat>, dBuf: array<nat>, isMatch: bool,
                       lx: nat, dx: nat,
                       ghost tokens: seq<Token>, ghost s0: seq<bool>)
    returns (dx': nat)
    requires o.Valid() && trees.Valid() && AllCovered(T, tokens, trees) && Buffered(lBuf[..], dBuf[..], tokens)
    requires o.outbuf != lBuf && o.outbuf != dBuf
    requires lx < |tokens| && isMatch == tokens[lx].Match? && dx == |DistsOf(tokens[..lx])|
    requires o.stream == s0 + Flat(SymbolParts(SymsOf(T, tokens), trees.l, trees.d)[..lx])
    modifies o, o.outbuf
    ensures o.Valid() && dx' == |DistsOf(tokens[..lx + 1])|
    ensures o.stream == s0 + Flat(SymbolParts(SymsOf(T, tokens), trees.l, trees.d)[..lx + 1])
  {
    ghost var parts := SymbolParts(SymsOf(T, tokens), trees.l, trees.d);
    FlatMore(parts, lx);
    Regroup(s0, Flat(parts[..lx]), parts[lx]);
    assert tokens[..lx + 1] == tokens[..lx] + [tokens[lx]];
    DistsMore(tokens[..lx], tokens[lx]);
    SendToken(o, T, trees, lBuf, dBuf, isMatch, lx, dx, tokens);
    dx' := if isMatch then dx + 1 else dx;
  }

  /** `flag` holds what is left of the flag byte that token `lx` belongs to. */
  ghost predicate FlagHeld(flagBuf: seq<nat>, lx: nat, fx: nat, flag: nat) {
    fx == (lx + 7) / 8 && (lx % 8 != 0 ==> lx / 8 < |flagBuf| && flag == Shr(flagBuf[lx / 8], lx % 8))
  }

  lemma FlagShifted(flagBuf: seq<nat>, lx: nat, flag: nat)
    requires lx / 8 < |flagBuf| && flag == Shr(flagBuf[lx / 8], lx % 8)
    ensures FlagHeld(flagBuf, lx + 1, (lx + 8) / 8, flag / 2)
  {
    ShrNext(flagBuf[lx / 8], lx % 8);
  }

  /** Whether the next token is a match. */
  method NextFlag(flagBuf: array<nat>, lx: nat, fx0: nat, flag0: nat, ghost tokens: seq<Token>)
    returns (fx: nat, flag: nat, isMatch: bool)
    requires FlagsReadable(flagBuf[..], tokens) && lx < |tokens| && FlagHeld(flagBuf[..], lx, fx0, flag0)
    ensures FlagHeld(flagBuf[..], lx + 1, fx, flag) && isMatch == tokens[lx].Match?
  {
    fx, flag := fx0, flag0;
    if lx % 8 == 0 {
      ShrNext(flagBuf[fx], 0);
      flag := flagBuf[fx];
      fx := fx + 1;
    }
    FlagRead(flagBuf[..], tokens, lx);
    FlagShifted(flagBuf[..], lx, flag);
    isMatch := flag % 2 == 1;
    flag := flag / 2;
  }

  /** One token, with its flag. */
  method SendOne(o: LW.Output, T: Tables, trees: Trees, lBuf: array<nat>, dBuf: array<nat>, flagBuf: array<nat>,
                 lx: nat, dx0: nat,
                 fx0: nat, flag0: nat, ghost tokens: seq<Token>, ghost s0: seq<bool>)
    returns (dx: nat, fx: nat, flag: nat)
    requires o.Valid() && trees.Valid() && AllCovered(T, tokens, trees) && Buffered(lBuf[..], dBuf[..], tokens)
    requires o.outbuf !in {lBuf, dBuf, flagBuf} && FlagsReadable(flagBuf[..], tokens) && lx < |tokens|
    requires dx0 == |DistsOf(tokens[..lx])| && FlagHeld(flagBuf[..], lx, fx0, flag0)
    requires o.stream == s0 + Flat(SymbolParts(SymsOf(T, tokens), trees.l, trees.d)[..lx])
    modifies o, o.outbuf
    ensures o.Valid() && dx == |DistsOf(tokens[..lx + 1])| && FlagHeld(flagBuf[..], lx + 1, fx, flag)
    ensures o.stream == s0 + Flat(SymbolParts(SymsOf(T, tokens), trees.l, trees.d)[..lx + 1])
  {
    ghost var fb: seq<nat> := flagBuf[..];
    var isMatch;
    fx, flag, isMatch := NextFlag(flagBuf, lx, fx0, flag0, tokens);
    dx := SendNextToken(o, T, trees, lBuf, dBuf, isMatch, lx, dx0, tokens, s0);
    assert flagBuf[..] == fb;
  }

  /** All tokens, in order. */
  method SendTokens(o: LW.Output, T: Tables, trees: Trees, lBuf: array<nat>, dBuf: array<nat>, flagBuf: array<nat>,
                    lastLit: nat, ghost tokens: seq<Token>)
    requires o.Valid() && trees.Valid() && AllCovered(T, tokens, trees) && Buffered(lBuf[..], dBuf[..], tokens)
    requires lastLit == |tokens|
    requires o.outbuf !in {lBuf, dBuf, flagBuf} && FlagsReadable(flagBuf[..], tokens)
    modifies o, o.outbuf
    ensures o.Valid() && o.stream == old(o.stream) + Flat(SymbolParts(SymsOf(T, tokens), trees.l, trees.d))
  {
    ghost var s0, parts := o.stream, SymbolParts(SymsOf(T, tokens), trees.l, trees.d);
    ghost var lb: seq<nat>, db: seq<nat>, fb: seq<nat> := lBuf[..], dBuf[..], flagBuf[..];
    var lx, dx, fx, flag := 0, 0, 0, 0;
    assert parts[..0] == [] && Flat([]) == [] && tokens[..0] == [];
    while lx < lastLit
      invariant 0 <= lx <= lastLit && o.Valid() && 0 <= dx && dx == |DistsOf(tokens[..lx])|
      invariant lBuf[..] == lb && dBuf[..] == db && flagBuf[..] == fb
      invariant 0 <= flag && 0 <= fx && FlagHeld(fb, lx, fx, flag)
      invariant o.stream == s0 + Flat(parts[..lx])
    {
      dx, fx, flag := SendOne(o, T, trees, lBuf, dBuf, flagBuf, lx, dx, fx, flag, tokens, s0);
      lx := lx + 1;
    }
    assert parts[..lastLit] == parts;
  }

  /** `compress_block`: the tokens and the end-of-block code. */
  method Compress(o: LW.Output, T: Tables, trees: Trees, lBuf: array<nat>, dBuf: array<nat>, flagBuf: array<nat>,
                  lastLit: nat, ghost tokens: seq<Token>)
    requires o.Valid() && trees.Valid() && AllCovered(T, tokens, trees) && Buffered(lBuf[..], dBuf[..], tokens)
    requires lastLit == |tokens|
    requires o.outbuf !in {lBuf, dBuf, flagBuf} && FlagsReadable(flagBuf[..], tokens)
    requires END_BLOCK < |trees.l| && trees.l[END_BLOCK] > 0
    modifies o, o.outbuf
    ensures o.Valid() && o.stream == old(o.stream) + DataBits(SymsOf(T, tokens), trees.l, trees.d)
  {
    SendTokens(o, T, trees, lBuf, dBuf, flagBuf, lastLit, tokens);
    SendCode(o, trees.l, trees.lc, END_BLOCK);
    Regroup(old(o.stream), Flat(SymbolParts(SymsOf(T, tokens), trees.l, trees.d)), Encode(trees.l, END_BLOCK));
  }
}
