/** The two halves of deflate put together: the blocks the window produces, coded one after the other. */
module Gzip {
  import opened PrefixCode
  import opened BitOps
  import opened BitStrings
  import opened Tokens
  import opened BlockStream
  import opened Inflate
  import opened LsbWriter
  import opened TokenSymbols
  import opened BlockCoder
  import opened LazyMatch
  import W = Window

  /** Every prefix of the blocks stands for the input up to where the next block begins. */
  lemma {:induction false} EmittedAt(input: seq<bv8>, blocks: seq<W.Block>, end: int, i: nat)
    requires W.Emitted(input, blocks, end) && i < |blocks|
    ensures W.BlockMeans(input, blocks[i]) && W.Emitted(input, blocks[..i], blocks[i].from)
    ensures W.Emitted(input, blocks[..i + 1], blocks[i].to)
    decreases |blocks|
  {
    var init := blocks[..|blocks| - 1];
    if i == |blocks| - 1 {
      assert blocks[..i] == init && blocks[..i + 1] == blocks;
    } else {
      EmittedAt(input, init, blocks[|blocks| - 1].from, i);
      assert init[..i] == blocks[..i] && init[..i + 1] == blocks[..i + 1];
    }
  }

  lemma EmittedOnce(input: seq<bv8>, blocks: seq<W.Block>, a: int, b: int)
    requires W.Emitted(input, blocks, a) && W.Emitted(input, blocks, b)
    ensures a == b
  {
  }

  /** What `flush_block` is given for the bytes of a block. */
  lemma StoredMeans(input: seq<bv8>, b: W.Block)
    requires W.BlockMeans(input, b)
    ensures b.buf.Some? ==>
            |b.buf.value| == b.to - b.from && Expand(b.tokens, input[..b.from]) == input[..b.from] + b.buf.value
  {
    if b.buf.Some? {
      assert input[..b.from] + input[b.from..b.to] == input[..b.to];
    }
  }

  // ----- what is written -----

  /** How a block went out: the form chosen, the sizes it was chosen by, its bits, the trees, and the bits that filled
      up
      the last byte. */
  datatype Sending = Sending(kind: nat, p: Plan, body: seq<bool>, sent: Sent, T: Tables, pad: nat)

  ghost predicate WritesAs(before: seq<bool>, after: seq<bool>, b: W.Block, hist: seq<bv8>, x: Sending) {
    && b.from <= b.to && after == before + BlockBits(x.body, x.kind, b.eof) + Zeros(x.pad)
    && (if b.eof then x.pad < 8 else x.pad == 0)
    && Formed(x.kind, x.p, x.body, x.sent, x.T, b.tokens, |before| + 3, b.to - b.from, b.buf.Some?, hist)
    && SentAs(x.kind, x.p, x.body, x.T, b.tokens, x.sent, b.buf, |before| + 3)
  }

  ghost predicate Writes(before: seq<bool>, after: seq<bool>, b: W.Block) {
    exists hist: seq<bv8>, x: Sending :: WritesAs(before, after, b, hist, x)
  }

  /** The stream is these blocks, one after the other; `log` is what there was before each. */
  ghost predicate WrittenBy(stream: seq<bool>, blocks: seq<W.Block>, log: seq<seq<bool>>) {
    && |log| == |blocks| + 1 && log[0] == [] && log[|blocks|] == stream
    && forall i :: 0 <= i < |blocks| ==> Writes(log[i], log[i + 1], blocks[i])
  }

  ghost predicate Written(stream: seq<bool>, blocks: seq<W.Block>) {
    exists log: seq<seq<bool>> :: WrittenBy(stream, blocks, log)
  }

  lemma NoneWritten()
    ensures Written([], [])
  {
    assert WrittenBy([], [], [[]]);
  }

  lemma WrittenMore(before: seq<bool>, blocks: seq<W.Block>, after: seq<bool>, b: W.Block)
    requires Written(before, blocks) && Writes(before, after, b)
    ensures Written(after, blocks + [b])
  {
    var log: seq<seq<bool>> :| WrittenBy(before, blocks, log);
    assert WrittenBy(after, blocks + [b], log + [after]);
  }

  /** The stream is the blocks of the lazy parse of the input. */
  ghost predicate LazyStream(input: seq<bv8>, stream: seq<bool>) {
    exists blocks: seq<W.Block> ::
      W.OnlyLast(blocks) && LazyParse(input, W.AllTokens(blocks)) && Written(stream, blocks)
  }

  /** Codes one block. */
  method CodeBlock(c: Coder, b: W.Block, ghost input: seq<bv8>)
    requires c.Valid() && c.b.tokens == [] && W.BlockMeans(input, b)
    requires Carries(ReadBlock, c.o.stream, input[..b.from])
    modifies c.o, c.o.outbuf, c.b, c.b.lBuf, c.b.dBuf, c.b.flagBuf, c.b.lFreq, c.b.dFreq
    modifies c.w.lLen, c.w.dLen, c.w.blFreq, c.w.blLen, c.w.heap, c.w.depth, c.w.blCount
    ensures c.Valid() && c.b.tokens == []
    ensures if b.eof then c.o.bi_valid == 0 && Finished(ReadBlock, c.o.stream, input[..b.to])
            else Carries(ReadBlock, c.o.stream, input[..b.to])
    ensures Writes(old(c.o.stream), c.o.stream, b)
  {
    c.TallyAll(b.tokens);
    StoredMeans(input, b);
    FlushTallied(c, b, input[..b.from], input[..b.to]);
  }

  /** Flushes the block whose tokens are tallied; they take `hist` to `text`. */
  method FlushTallied(c: Coder, b: W.Block, ghost hist: seq<bv8>, ghost text: seq<bv8>)
    requires c.Valid() && c.b.tokens == b.tokens && b.from <= b.to && Expand(b.tokens, hist) == text
    requires InReach(b.tokens, hist)
    requires b.buf.Some? ==> |b.buf.value| == b.to - b.from && text == hist + b.buf.value
    requires Carries(ReadBlock, c.o.stream, hist)
    modifies c.o, c.o.outbuf, c.b, c.b.flagBuf, c.b.lFreq, c.b.dFreq
    modifies c.w.lLen, c.w.dLen, c.w.blFreq, c.w.blLen, c.w.heap, c.w.depth, c.w.blCount
    ensures c.Valid() && c.b.tokens == []
    ensures if b.eof then c.o.bi_valid == 0 && Finished(ReadBlock, c.o.stream, text)
            else Carries(ReadBlock, c.o.stream, text)
    ensures Writes(old(c.o.stream), c.o.stream, b)
  {
    ghost var s0 := c.o.stream;
    var kind, p;
    ghost var body, pad, sent;
    kind, p, body, pad, sent := c.Flush(b.buf, b.to - b.from, b.eof, hist);
    ghost var s1, T := c.o.stream, c.b.T;
    FormedAdded(s0, s1, body, kind, p, sent, T, b, pad, hist, text);
  }

  lemma FormedAdded(before: seq<bool>, after: seq<bool>, body: seq<bool>, kind: nat, p: Plan, sent: Sent, T: Tables,
                    b: W.Block, pad: nat, hist: seq<bv8>, text: seq<bv8>)
    requires after == before + BlockBits(body, kind, b.eof) + Zeros(pad)
    requires b.from <= b.to && Formed(kind, p, body, sent, T, b.tokens, |before| + 3, b.to - b.from, b.buf.Some?, hist)
    requires SentAs(kind, p, body, T, b.tokens, sent, b.buf, |before| + 3)
    requires Carries(ReadBlock, before, hist) && Expand(b.tokens, hist) == text
    requires if b.eof then pad < 8 else pad == 0
    ensures if b.eof then Finished(ReadBlock, after, text) else Carries(ReadBlock, after, text)
    ensures Writes(before, after, b)
  {
    BlockAdded(before, body, kind, b.eof, pad, hist, text);
    BlockWritten(before, after, b, hist, Sending(kind, p, body, sent, T, pad));
  }

  lemma BlockWritten(before: seq<bool>, after: seq<bool>, b: W.Block, hist: seq<bv8>, x: Sending)
    requires WritesAs(before, after, b, hist, x)
    ensures Writes(before, after, b)
  {
  }

  /** One more block on the stream. */
  lemma BlockAdded(stream: seq<bool>, body: seq<bool>, kind: nat, eof: bool, pad: nat, hist: seq<bv8>, text: seq<bv8>)
    requires Carries(ReadBlock, stream, hist) && kind < 3 && BodyReads(body, kind, |stream| + 3, hist, text)
    requires (!eof ==> pad == 0)
    ensures var stream' := stream + BlockBits(body, kind, eof) + Zeros(pad);
            if eof then Finished(ReadBlock, stream', text) else Carries(ReadBlock, stream', text)
  {
    var block := BlockBits(body, kind, eof);
    BlockTaken(body, kind, eof, |stream|, hist, text);
    if eof {
      CarriesLast(ReadBlock, stream, block, hist, text);
      PaddedComplete(ReadBlock, stream + block, text, Zeros(pad));
    } else {
      CarriesMore(ReadBlock, stream, block, hist, text);
      assert stream + block + Zeros(0) == stream + block;
    }
  }

  lemma PaddedComplete(read: Reader, stream: seq<bool>, text: seq<bv8>, pad: seq<bool>)
    requires Finished(read, stream, text)
    ensures Finished(read, stream + pad, text)
  {
    forall rest: seq<bool>
      ensures Inflated(read, stream + pad + rest, 0, []) == Some(text)
    {
      Regroup(stream, pad, rest);
    }
  }

  /** How far the first `i` blocks reach. */
  ghost function Upto(blocks: seq<W.Block>, i: nat): (r: nat)
    requires i <= |blocks|
  {
    if i == 0 then 0 else blocks[i - 1].to
  }

  /** The first `i` blocks are in the stream. */
  ghost predicate CodedTo(stream: seq<bool>, aligned: bool, blocks: seq<W.Block>, i: nat, input: seq<bv8>) {
    && i <= |blocks| && Upto(blocks, i) <= |input| && Written(stream, blocks[..i])
    && if i < |blocks| then Carries(ReadBlock, stream, input[..Upto(blocks, i)])
       else aligned && Finished(ReadBlock, stream, input[..Upto(blocks, i)])
  }

  /** Each block begins where the one before it ends. */
  lemma BlockBegins(input: seq<bv8>, blocks: seq<W.Block>, i: nat)
    requires W.Emitted(input, blocks, |input|) && i < |blocks|
    ensures W.BlockMeans(input, blocks[i]) && blocks[i].from == Upto(blocks, i)
  {
    EmittedAt(input, blocks, |input|, i);
    if i > 0 {
      EmittedAt(input, blocks, |input|, i - 1);
      EmittedOnce(input, blocks[..i], blocks[i - 1].to, blocks[i].from);
    } else {
      assert blocks[..0] == [];
    }
  }

  lemma OneMoreCoded(before: seq<bool>, after: seq<bool>, aligned: bool, blocks: seq<W.Block>, i: nat, input: seq<bv8>)
    requires i < |blocks| && W.OnlyLast(blocks) && blocks[i].to <= |input|
    requires Written(before, blocks[..i]) && Writes(before, after, blocks[i])
    requires if blocks[i].eof then aligned && Finished(ReadBlock, after, input[..blocks[i].to])
             else Carries(ReadBlock, after, input[..blocks[i].to])
    ensures CodedTo(after, aligned, blocks, i + 1, input)
  {
    WrittenMore(before, blocks[..i], after, blocks[i]);
    assert blocks[..i + 1] == blocks[..i] + [blocks[i]];
  }

  method CodeNext(c: Coder, blocks: seq<W.Block>, i: nat, ghost input: seq<bv8>)
    requires c.Valid() && c.b.tokens == [] && W.Emitted(input, blocks, |input|) && W.OnlyLast(blocks) && i < |blocks|
    requires CodedTo(c.o.stream, c.o.bi_valid == 0, blocks, i, input)
    modifies c.o, c.o.outbuf, c.b, c.b.lBuf, c.b.dBuf, c.b.flagBuf, c.b.lFreq, c.b.dFreq
    modifies c.w.lLen, c.w.dLen, c.w.blFreq, c.w.blLen, c.w.heap, c.w.depth, c.w.blCount
    ensures c.Valid() && c.b.tokens == [] && CodedTo(c.o.stream, c.o.bi_valid == 0, blocks, i + 1, input)
  {
    ghost var before := c.o.stream;
    BlockBegins(input, blocks, i);
    CodeBlock(c, blocks[i], input);
    OneMoreCoded(before, c.o.stream, c.o.bi_valid == 0, blocks, i, input);
  }

  lemma NoneCoded(blocks: seq<W.Block>, input: seq<bv8>)
    requires blocks != []
    ensures CodedTo([], true, blocks, 0, input)
  {
    CarriesNothing(ReadBlock);
    NoneWritten();
    assert blocks[..0] == [] && input[..0] == [];
  }

  /** `deflate` with its output: however the input is delivered, the bytes written inflate to the input, and they are
      the
      blocks of its lazy parse. */
  method DeflateStream(input: seq<bv8>) returns (out: seq<nat>)
    ensures Inflated(ReadBlock, LsbBytes(out), 0, []) == Some(input)
    ensures LazyStream(input, LsbBytes(out))
  {
    var s := W.Run(input);
    var blocks := s.blocks;
    var c := NewCoder();
    NoneCoded(blocks, input);
    for i := 0 to |blocks|
      invariant c.Valid() && c.b.tokens == [] && CodedTo(c.o.stream, c.o.bi_valid == 0, blocks, i, input)
      invariant fresh(c) && fresh(c.o) && fresh(c.o.outbuf) && fresh(c.b) && fresh(c.b.Parts()) && fresh(c.w.All())
    {
      CodeNext(c, blocks, i, input);
    }
    out := c.o.AllBytes();
    AllWritten(c.o.stream, out, input, blocks);
  }

  lemma AllWritten(stream: seq<bool>, out: seq<nat>, text: seq<bv8>, blocks: seq<W.Block>)
    requires CodedTo(stream, true, blocks, |blocks|, text) && W.Emitted(text, blocks, |text|) && stream == LsbBytes(out)
    requires W.OnlyLast(blocks) && LazyParse(text, W.AllTokens(blocks))
    ensures Inflated(ReadBlock, LsbBytes(out), 0, []) == Some(text) && LazyStream(text, LsbBytes(out))
  {
    assert stream + [] == stream && blocks[..|blocks|] == blocks && text[..|text|] == text;
  }
}
