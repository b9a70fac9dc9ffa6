/** The compressor as a state machine over its calls: input in any pieces, output taken in
    any pieces, blocks closed when full or at the end. */
module BzCompress {
  import opened Bytes
  import opened PrefixCode
  import opened BitOps
  import opened BitStrings
  import opened MsbWriter
  import opened RunLength
  import opened BlockCut
  import opened BzInput
  import opened BzStream
  import opened BzSize
  import BzBlock
  import BB = BzBackend
  import M = Mtf

  // ----- what has been sent -----

  /** The stream so far: nothing, or something that carries checked blocks with this text and combined CRC. */
  ghost predicate SentAt(level: nat, stream: seq<bool>, started: bool, blocks: seq<Block>, combined: Word,
                         text: seq<int>, table: seq<Word>) {
    && 1 <= level <= 9 && (if started then Carries(BzBlock.ReadBlock, level, stream, blocks)
          else stream == [] && blocks == [])
    && AllCheck(table, blocks) && combined == CombinedOf(blocks) && text == TextOf(blocks)
  }

  predicate IsLevel(l: nat, level: nat) { l == level }

  /** The same, said of every level that is this one, so that it is taken apart only where `IsLevel` is mentioned. */
  ghost predicate Sent(level: nat, stream: seq<bool>, started: bool, blocks: seq<Block>, combined: Word, text: seq<int>,
                       table: seq<Word>) {
    forall l: nat {:trigger IsLevel(l, level)} :: IsLevel(l, level) ==>
        SentAt(level, stream, started, blocks, combined, text, table)
  }

  lemma BlockSent(level: nat, stream: seq<bool>, blocks: seq<Block>, combined: Word, text: seq<int>, table: seq<Word>,
                  b: Block, bits: seq<bool>)
    requires Sent(level, stream, true, blocks, combined, text, table)
    requires BB.ReadsAs(bits, b.crc, b.bytes) && Checks(table, b) && |b.bytes| <= 100_000 * level
    ensures Sent(level, stream + PartBits(bits), true, blocks + [b], Combine(combined, b.crc),
            text + Unpacked(b.bytes), table)
  {
    assert IsLevel(level, level);
    BlockTaken(bits, b);
    CarriesMore(BzBlock.ReadBlock, level, stream, blocks, b, bits);
    assert (blocks + [b])[..|blocks|] == blocks;
  }

  lemma StreamFinished(level: nat, stream: seq<bool>, blocks: seq<Block>, combined: Word, text: seq<int>,
                       table: seq<Word>, out: seq<nat>, pad: nat)
    requires Sent(level, stream, true, blocks, combined, text, table) && Padded(out, stream + EndBits(combined), pad)
    ensures DecompressTo(table, out, blocks, text)
  {
    assert IsLevel(level, level);
    StreamDecompresses(level, table, stream, blocks, Zeros(pad));
  }

  lemma {:induction false} StoredBytes(runs: seq<Run>)
    requires Apart(runs)
    ensures IsBytes(StoredAll(runs))
  {
    if runs != [] {
      ApartTail(runs);
      StoredBytes(runs[1..]);
      assert IsRun(runs[0]);
    }
  }

  /** The block as the back end takes it. */
  lemma FilledBlock(block: seq<int>, nblock: nat, runs: seq<Run>, inUse: seq<bool>, crc: Word, table: seq<Word>)
    requires Filled(block, nblock, runs, inUse, crc, table)
    ensures IsBytes(block[..nblock]) && M.AllUsed(block[..nblock], inUse)
    ensures Unpacked(block[..nblock]) == Meaning(runs) && Checks(table, Block(Not(crc), block[..nblock]))
  {
    StoredBytes(runs);
    UnpackStored(runs);
    forall j | 0 <= j < nblock
      ensures 0 <= block[..nblock][j] < 256 && inUse[block[..nblock][j]]
    {
      assert block[..nblock][j] in StoredAll(runs);
    }
  }

  // ----- the pieces of `BZ2_compressBlock` -----

  /** The header, if this is the first block. */
  method StartStream(w: BitWriter, level: nat, first: bool, ghost blocks: seq<Block>, ghost combined: Word,
                     ghost text: seq<int>, ghost table: seq<Word>)
    requires w.Valid() && 1 <= level <= 9 && Sent(level, w.stream, !first, blocks, combined, text, table)
    modifies w
    ensures w.Valid() && old(w.out) <= w.out && Sent(level, w.stream, true, blocks, combined, text, table)
    ensures |w.stream| <= |old(w.stream)| + 32
  {
    if first {
      assert IsLevel(level, level);
      w.Write32(HEADER + level);
      CarriesHeader(BzBlock.ReadBlock, level);
      assert [] + HeadBits(level) == HeadBits(level);
    }
  }

  method EmitMagic(w: BitWriter, high: nat, low: nat)
    requires w.Valid() && high < 0x1_0000_0000 && low < 0x1_0000
    modifies w
    ensures w.Valid() && old(w.out) <= w.out && w.stream == old(w.stream) + MagicBits(high, low)
  {
    w.Write32(high);
    w.Write16(low);
    Regroup(old(w.stream), Bits(high, 32), Bits(low, 16));
  }

  /** A block that holds something. */
  method EmitBlock(w: BitWriter, block: array<int>, nblock: nat, inUse: array<bool>, crc: Word, big: bool)
    returns (ghost bits: seq<bool>)
    requires w.Valid() && 0 < nblock <= block.Length && nblock <= 899_990 && IsBytes(block[..nblock])
    requires inUse.Length == 256
    requires M.AllUsed(block[..nblock], inUse[..])
    modifies w
    ensures w.Valid() && old(w.out) <= w.out && w.stream == old(w.stream) + PartBits(bits)
    ensures BB.ReadsAs(bits, crc, block[..nblock]) && |bits| <= MostBits(nblock)
  {
    var data, fmap, origPtr := BB.SortBlock(block, nblock);
    EmitMagic(w, BLOCK_HIGH, BLOCK_LOW);
    bits := BB.SendBody(w, data, fmap, origPtr, inUse, crc, big);
    Regroup(old(w.stream), MagicBits(BLOCK_HIGH, BLOCK_LOW), bits);
  }

  lemma EmptyBlock(runs: seq<Run>)
    requires Apart(runs) && StoredAll(runs) == []
    ensures runs == [] && Meaning(runs) == []
  {
    if runs != [] {
      StoredFirst(runs);
    }
  }

  /** The blocks with one more, unless that is empty. */
  ghost function Extended(blocks: seq<Block>, crc: Word, runs: seq<Run>): (r: seq<Block>) {
    if runs == [] then blocks else blocks + [Block(crc, StoredAll(runs))]
  }

  // ----- the cut into blocks -----

  /** The blocks sent hold these runs, and each was full. */
  ghost predicate CutSoFar(max: nat, blocks: seq<Block>, cut: seq<seq<Run>>, runs: seq<Run>) {
    StoredIn(BytesOf(blocks), cut) && AllRuns(cut) == runs && AllFull(max, cut)
  }

  /** All blocks are sent; if the last was not full before the end, they are the cut of the text. */
  ghost predicate CutDone(max: nat, blocks: seq<Block>, cut: seq<seq<Run>>, runs: seq<Run>, snug: bool) {
    StoredIn(BytesOf(blocks), cut) && AllRuns(cut) == runs && (snug ==> CutInto(max, cut))
  }

  ghost function CutMore(cut: seq<seq<Run>>, runs: seq<Run>): (r: seq<seq<Run>>) {
    if runs == [] then cut else cut + [runs]
  }

  lemma CutStored(blocks: seq<Block>, cut: seq<seq<Run>>, crc: Word, runs: seq<Run>)
    requires StoredIn(BytesOf(blocks), cut)
    ensures StoredIn(BytesOf(Extended(blocks, crc, runs)), CutMore(cut, runs))
    ensures AllRuns(CutMore(cut, runs)) == AllRuns(cut) + runs
  {
    AllRunsMore(cut, runs);
    if runs == [] {
      assert AllRuns(cut) + runs == AllRuns(cut);
    }
  }

  lemma CutFull(max: nat, blocks: seq<Block>, cut: seq<seq<Run>>, before: seq<Run>, runs: seq<Run>, crc: Word)
    requires CutSoFar(max, blocks, cut, before) && (runs != [] ==> Full(max, runs))
    ensures CutSoFar(max, Extended(blocks, crc, runs), CutMore(cut, runs), before + runs)
  {
    CutStored(blocks, cut, crc, runs);
  }

  lemma CutLast(max: nat, blocks: seq<Block>, cut: seq<seq<Run>>, before: seq<Run>, runs: seq<Run>, crc: Word,
                snug: bool)
    requires CutSoFar(max, blocks, cut, before) && (snug && runs != [] ==> Needed(max, runs))
    ensures CutDone(max, Extended(blocks, crc, runs), CutMore(cut, runs), before + runs, snug)
  {
    CutStored(blocks, cut, crc, runs);
    if runs == [] && cut != [] {
      assert Full(max, cut[|cut| - 1]);
      assert forall i :: 0 <= i < |cut| - 1 ==> cut[..|cut| - 1][i] == cut[i];
    } else {
      assert (cut + [runs])[..|cut|] == cut;
    }
  }

  lemma CutClosed(max: nat, blocks: seq<Block>, cut: seq<seq<Run>>, before: seq<Run>, runs: seq<Run>, crc: Word,
                  last: bool, snug: bool)
    requires CutSoFar(max, blocks, cut, before)
    requires runs != [] ==> if last then snug ==> Needed(max, runs) else Full(max, runs)
    ensures if last then CutDone(max, Extended(blocks, crc, runs), CutMore(cut, runs), before + runs, snug)
            else CutSoFar(max, Extended(blocks, crc, runs), CutMore(cut, runs), before + runs)
  {
    if last {
      CutLast(max, blocks, cut, before, runs, crc, snug);
    } else {
      CutFull(max, blocks, cut, before, runs, crc);
    }
  }

  lemma {:induction false} MeaningJoin(a: seq<Run>, b: seq<Run>)
    ensures Meaning(a + b) == Meaning(a) + Meaning(b)
    decreases |a|
  {
    if a == [] {
      assert a + b == b && Meaning(a) == [];
    } else {
      MeaningJoin(a[1..], b);
      assert (a + b)[0] == a[0] && (a + b)[1..] == a[1..] + b;
    }
  }

  lemma GreedyApart(runs: seq<Run>)
    requires Greedy(runs)
    ensures Apart(runs)
  {
    forall i | 0 <= i < |runs|
      ensures IsRun(runs[i]) && ApartAt(runs, i)
    {
      assert EndsThere(runs, i);
    }
  }

  lemma GreedyRest(a: seq<Run>, b: seq<Run>)
    requires Greedy(a + b)
    ensures Greedy(b)
  {
    var all := a + b;
    forall i | 0 <= i < |b|
      ensures IsRun(b[i]) && EndsThere(b, i)
    {
      assert IsRun(all[|a| + i]) && EndsThere(all, |a| + i);
    }
  }

  /** The text of the blocks is that of the runs in them. */
  lemma {:induction false} CutText(blocks: seq<Block>, cut: seq<seq<Run>>)
    requires StoredIn(BytesOf(blocks), cut) && Greedy(AllRuns(cut))
    ensures TextOf(blocks) == Meaning(AllRuns(cut))
    decreases |cut|
  {
    if cut != [] {
      var n := |cut| - 1;
      var init, runs := AllRuns(cut[..n]), cut[n];
      GreedyPart(init, runs);
      GreedyRest(init, runs);
      GreedyApart(runs);
      assert BytesOf(blocks)[n] == StoredAll(runs);
      UnpackStored(runs);
      MeaningJoin(init, runs);
      assert forall i :: 0 <= i < n ==> BytesOf(blocks[..n])[i] == BytesOf(blocks)[i];
      CutText(blocks[..n], cut[..n]);
    }
  }

  lemma CutIsOfText(max: nat, blocks: seq<Block>, cut: seq<seq<Run>>, runs: seq<Run>, text: seq<int>)
    requires CutDone(max, blocks, cut, runs, true) && Greedy(runs) && text == TextOf(blocks)
    ensures CutsText(max, text, BytesOf(blocks))
  {
    CutText(blocks, cut);
    assert CutsAs(max, text, BytesOf(blocks), cut);
  }

  /** The block, unless it is empty. */
  method SendFilled(w: BitWriter, ghost level: nat, block: array<int>, nblock: nat, inUse: array<bool>, crc0: Word,
                    combined0: Word,
                    big: bool, ghost runs: seq<Run>, ghost blocks0: seq<Block>, ghost text: seq<int>,
                    ghost table: seq<Word>)
    returns (crc: Word, combined: Word, ghost blocks: seq<Block>)
    requires w.Valid() && 1 <= level <= 9 && nblock <= 100_000 * level - 10 && inUse.Length == 256
    requires Filled(block[..], nblock, runs, inUse[..], crc0, table)
    requires Sent(level, w.stream, true, blocks0, combined0, text, table)
    modifies w
    ensures w.Valid() && old(w.out) <= w.out && |w.stream| <= |old(w.stream)| + 48 + MostBits(nblock)
    ensures Sent(level, w.stream, true, blocks, combined, text + Meaning(runs), table)
    ensures blocks == Extended(blocks0, crc, runs)
  {
    ghost var bytes: seq<int> := block[..nblock];
    FilledBlock(block[..], nblock, runs, inUse[..], crc0, table);
    assert block[..][..nblock] == bytes;
    crc, combined, blocks := crc0, combined0, blocks0;
    assert bytes == StoredAll(runs);
    if nblock > 0 {
      crc := Not(crc);
      ghost var bits := EmitBlock(w, block, nblock, inUse, crc, big);
      BlockSent(level, old(w.stream), blocks, combined, text, table, Block(crc, bytes), bits);
      combined := Combine(combined, crc);
      blocks := blocks + [Block(crc, bytes)];
    } else {
      EmptyBlock(runs);
      assert text + [] == text;
    }
  }

  /** The trailer, and the last bits as whole bytes. */
  method EmitEnd(w: BitWriter, ghost level: nat, combined: Word, ghost blocks: seq<Block>, ghost text: seq<int>,
                 ghost table: seq<Word>)
    requires w.Valid() && Sent(level, w.stream, true, blocks, combined, text, table)
    modifies w
    ensures old(w.out) <= w.out && DecompressTo(table, w.out, blocks, text)
    ensures 8 * |w.out| <= |old(w.stream)| + 80 + 7
  {
    ghost var stream := w.stream;
    EmitMagic(w, END_HIGH, END_LOW);
    w.Write32(combined);
    Regroup(stream, MagicBits(END_HIGH, END_LOW), Bits(combined, 32));
    ghost var pad := w.FinishWrite();
    StreamFinished(level, stream, blocks, combined, text, table, w.out, pad);
  }

  /** After a block: the stream so far, or, after the last, bytes that decompress to the text. */
  ghost predicate Outgoing(level: nat, w: BitWriter, ended: bool, blocks: seq<Block>, combined: Word, text: seq<int>,
                           table: seq<Word>)
    reads w
  {
    if ended then DecompressTo(table, w.out, blocks, text)
    else w.Valid() && Sent(level, w.stream, true, blocks, combined, text, table)
  }

  /** `BZ2_compressBlock`. What it writes fits behind the block in `arr2`. */
  method CompressBlock(w: BitWriter, level: nat, first: bool, last: bool, block: array<int>, nblock: nat,
                       inUse: array<bool>, crc0: Word,
                       combined0: Word, big: bool, ghost runs: seq<Run>, ghost blocks0: seq<Block>,
                       ghost text: seq<int>, ghost table: seq<Word>)
    returns (crc: Word, combined: Word, ghost blocks: seq<Block>)
    requires w.Valid() && 1 <= level <= 9 && nblock <= 100_000 * level - 10 && inUse.Length == 256
    requires Filled(block[..], nblock, runs, inUse[..], crc0, table)
    requires Sent(level, w.stream, !first, blocks0, combined0, text, table)
    modifies w
    ensures old(w.out) <= w.out && Outgoing(level, w, last, blocks, combined, text + Meaning(runs), table)
    ensures |w.out| - |old(w.out)| <= Room(level, nblock) && blocks == Extended(blocks0, crc, runs)
  {
    w.Waiting();
    StartStream(w, level, first, blocks0, combined0, text, table);
    crc, combined, blocks :=
        SendFilled(w, level, block, nblock, inUse, crc0, combined0, big, runs, blocks0, text, table);
    w.Waiting();
    if last {
      EmitEnd(w, level, combined, blocks, text + Meaning(runs), table);
    }
    BlockFits(level, nblock, |w.out| - |old(w.out)|);
  }

  // ----- the state machine -----

  const OUTPUT := 1
  const INPUT := 2
  const RUNNING := 2
  const FINISHING := 4

  class Compressor {
    const level: nat
    const big: bool
    const f: Filler
    const w: BitWriter
    var mode: int
    var state: int
    var blockNo: nat
    var combinedCRC: Word
    var next_in: seq<int>
    var avail_out: nat
    var outPos: nat
    ghost var blocks: seq<Block>
    ghost var text: seq<int>
    ghost var ended: bool
    ghost var consumed: seq<int>
    ghost var cut: seq<seq<Run>>
    ghost var snug: bool

    ghost predicate Fixed()
      reads this, f
    {
      && 1 <= level <= 9 && f.nblockMAX == 100_000 * level - 19 && |f.table| == 256
      && f.inUse.Length == 256 && f.nblockMAX + 10 <= f.block.Length
    }

    ghost predicate Valid()
      reads this, f, f.block, f.inUse, w
    {
      Common() && (state == INPUT || state == OUTPUT) && (if state == INPUT then Filling() else Draining())
    }

    ghost predicate Common()
      reads this, f, w
    {
      && Fixed() && (mode == RUNNING || mode == FINISHING) && blockNo >= 1
      && outPos <= |w.out| && (ended ==> next_in == []) && IsBytes(next_in)
    }

    /** A block is being filled; all earlier output has been taken. */
    ghost predicate Filling()
      reads this, f, f.block, f.inUse, w
    {
      && !ended && f.Ready() && f.nblock < f.nblockMAX && w.Valid() && outPos == |w.out|
      && Sent(level, w.stream, blockNo > 1, blocks, combinedCRC, text, f.table)
      && consumed == text + f.Text() && CutSoFar(f.nblockMAX, blocks, cut, f.before)
    }

    /** A block has been sent; after the last one the stream is complete. */
    ghost predicate Draining()
      reads this, f, w
    {
      && Pending(f.state_in_ch, f.state_in_len, []) && (ended <==> f.state_in_ch == 256)
      && consumed == text + PendingText(f.state_in_ch, f.state_in_len)
      && (ended ==> mode == FINISHING) && Outgoing(level, w, ended, blocks, combinedCRC, text, f.table)
      && GreedySoFar(f.before + f.runs, f.state_in_ch) && CutUp()
    }

    /** The blocks sent, the last of them included. */
    ghost predicate CutUp()
      reads this, f
    {
      if ended then CutDone(f.nblockMAX, blocks, cut, f.before + f.runs, snug)
      else CutSoFar(f.nblockMAX, blocks, cut, f.before + f.runs)
    }

    /** The last block, once it is sent, was not full before the input ended. */
    ghost predicate Snug()
      reads this
    {
      ended ==> snug
    }

    constructor (table: seq<Word>, level: nat, big: bool)
      requires |table| == 256 && 1 <= level <= 9
      ensures Valid() && consumed == [] && next_in == [] && mode == RUNNING && state == INPUT
      ensures f.table == table && this.level == level
      ensures fresh(f) && fresh(f.block) && fresh(f.inUse) && fresh(w)
    {
      this.level, this.big := level, big;
      f := new Filler(table, 100_000 * level - 19);
      w := new BitWriter();
      mode, state, blockNo, combinedCRC := RUNNING, INPUT, 1, 0;
      next_in, avail_out, outPos := [], 0, 0;
      blocks, text, ended, consumed, cut, snug := [], [], false, [], [], false;
    }

    /** `isempty_RL`. */
    predicate IsEmptyRL()
      reads this, f
    {
      f.state_in_ch >= 256 || f.state_in_len <= 0
    }

    /** `copy_output_until_stop`. */
    method CopyOutput()
      requires Fixed() && outPos <= |w.out|
      modifies this`avail_out, this`outPos
      ensures outPos <= |w.out| && old(outPos) <= outPos
      ensures outPos == |w.out| || avail_out == 0
      ensures outPos - old(outPos) == old(avail_out) - avail_out
    {
      while avail_out > 0 && outPos < |w.out|
        invariant outPos <= |w.out| && old(outPos) <= outPos
        invariant outPos - old(outPos) == old(avail_out) - avail_out
        decreases avail_out
      {
        outPos := outPos + 1;
        avail_out := avail_out - 1;
      }
    }

    /** Sends the block. */
    method SendBlock(last: bool)
      requires Fixed() && f.Valid() && w.Valid() && blockNo >= 1
      requires Sent(level, w.stream, blockNo > 1, blocks, combinedCRC, text, f.table) && consumed == text + f.Text()
      modifies this`combinedCRC, this`blocks, this`text, f`blockCRC, w
      ensures old(w.out) <= w.out && blocks == Extended(old(blocks), f.blockCRC, f.runs)
      ensures Outgoing(level, w, last, blocks, combinedCRC, text, f.table)
      ensures consumed == text + PendingText(f.state_in_ch, f.state_in_len)
    {
      Regroup(text, Meaning(f.runs), PendingText(f.state_in_ch, f.state_in_len));
      var crc, combined;
      ghost var blocks';
      crc, combined, blocks' :=
        CompressBlock(w, level, blockNo == 1, last, f.block, f.nblock, f.inUse, f.blockCRC, combinedCRC, big, f.runs,
            blocks, text, f.table);
      f.blockCRC, combinedCRC := crc, combined;
      blocks, text := blocks', text + Meaning(f.runs);
    }

    /** ... and switches to output. */
    method CloseBlock(last: bool, ghost tight: bool)
      requires Fixed() && f.Valid() && w.Valid() && blockNo >= 1
      requires Sent(level, w.stream, blockNo > 1, blocks, combinedCRC, text, f.table) && consumed == text + f.Text()
      requires CutSoFar(f.nblockMAX, blocks, cut, f.before)
      requires f.runs != [] ==> if last then tight ==> Needed(f.nblockMAX, f.runs) else Full(f.nblockMAX, f.runs)
      modifies this`combinedCRC, this`blocks, this`text, this`ended, this`state, this`cut, this`snug, f`blockCRC, w
      ensures state == OUTPUT && ended == last && snug == tight && old(w.out) <= w.out && CutUp()
      ensures Outgoing(level, w, ended, blocks, combinedCRC, text, f.table)
      ensures consumed == text + PendingText(f.state_in_ch, f.state_in_len)
    {
      ghost var blocks0, runs, before := blocks, f.runs, f.before;
      SendBlock(last);
      CutClosed(f.nblockMAX, blocks0, cut, before, runs, f.blockCRC, last, tight);
      state := OUTPUT;
      ended, cut, snug := last, CutMore(cut, runs), tight;
    }

    /** As while filling, but the block may now be full. */
    ghost predicate Taken()
      reads this, f, f.block, f.inUse, w
    {
      && !ended && f.Ready() && f.nblock <= f.nblockMAX + 4 && w.Valid() && outPos == |w.out|
      && Sent(level, w.stream, blockNo > 1, blocks, combinedCRC, text, f.table)
      && consumed == text + f.Text() && CutSoFar(f.nblockMAX, blocks, cut, f.before)
    }

    method TakeInput()
      requires f.Ready() && f.nblock < f.nblockMAX && IsBytes(next_in) && consumed == text + f.Text()
      modifies this`consumed, this`next_in, f, f.block, f.inUse
      ensures f.Ready() && f.nblock <= f.nblockMAX + 4 && IsBytes(next_in) && consumed == text + f.Text()
      ensures consumed + next_in == old(consumed + next_in) && |next_in| <= |old(next_in)|
      ensures (next_in == [] || f.nblock >= f.nblockMAX) && f.before == old(f.before)
      ensures next_in == old(next_in) ==> f.nblock < f.nblockMAX && next_in == []
      ensures next_in != old(next_in) ==> f.state_in_ch < 256 && |next_in| < |old(next_in)|
    {
      ghost var f0: seq<int>, input: seq<int>, before := f.Text(), next_in, consumed;
      var k := f.CopyInput(next_in);
      TakenText(text, f0, before, input, k);
      consumed := consumed + next_in[..k];
      next_in := next_in[k..];
    }

    /** The last block: the pending run belongs to it. */
    method FinishBlock()
      requires Common() && Taken() && mode == FINISHING && next_in == []
      modifies this`combinedCRC, this`blocks, this`text, this`ended, this`state, this`cut, this`snug, f, f.block,
               f.inUse, w
      ensures Common() && Draining() && state == OUTPUT && ended && old(w.out) <= w.out
      ensures snug == old(f.nblock < f.nblockMAX)
    {
      ghost var tight := f.nblock < f.nblockMAX;
      f.FlushRL();
      CloseBlock(true, tight);
    }

    /** A full block: the pending run is left for the next. */
    method FullBlock()
      requires Common() && Taken() && f.state_in_ch < 256 && f.nblock >= f.nblockMAX
      modifies this`combinedCRC, this`blocks, this`text, this`ended, this`state, this`cut, this`snug, f`blockCRC, w
      ensures Common() && Draining() && state == OUTPUT && !ended && old(w.out) <= w.out
    {
      CloseBlock(false, false);
    }

    /** One turn of the loop of `handle_compress` from the filling of a block: whether the loop goes on. */
    method Fill() returns (more: bool)
      requires Common() && Filling() && state == INPUT
      modifies this`consumed, this`next_in, this`combinedCRC, this`blocks, this`text, this`ended, this`state, this`cut,
               this`snug, f, f.block, f.inUse, w
      ensures old(next_in) == [] ==> Snug()
      ensures Common() && consumed + next_in == old(consumed + next_in) && |next_in| <= |old(next_in)|
      ensures if more then Draining() && state == OUTPUT && (|next_in| < |old(next_in)| || ended)
              else Filling() && state == INPUT && mode == RUNNING && next_in == []
    {
      TakeInput();
      if mode != RUNNING && next_in == [] {
        FinishBlock();
        more := true;
      } else if f.nblock >= f.nblockMAX {
        FullBlock();
        more := true;
      } else {
        more := false;
      }
    }

    /** A new block, once all output is taken. */
    method BeginBlock()
      requires Common() && Draining() && !ended && outPos == |w.out|
      modifies this`blockNo, this`state, f`nblock, f`blockCRC, f`runs, f`before, f.inUse
      ensures Common() && Filling() && state == INPUT
    {
      f.PrepareNewBlock();
      blockNo := blockNo + 1;
      state := INPUT;
    }

    /** Output taken, and a new block begun if there is to be one: whether the loop goes on. */
    method Drain() returns (more: bool)
      requires Common() && Draining() && state == OUTPUT
      modifies this`avail_out, this`outPos, this`blockNo, this`state, f`nblock, f`blockCRC, f`runs, f`before, f.inUse
      ensures Common()
      ensures outPos - old(outPos) == old(avail_out) - avail_out && outPos >= old(outPos)
      ensures if more then Filling() && state == INPUT
              else Draining() && state == OUTPUT && (outPos < |w.out| ==> avail_out == 0)
      ensures !more && outPos == |w.out| ==> ended
    {
      CopyOutput();
      if outPos < |w.out| {
        more := false;
      } else if mode == FINISHING && next_in == [] && IsEmptyRL() {
        more := false;
      } else {
        BeginBlock();
        more := true;
      }
    }

    /** One turn of the loop of `handle_compress`. If neither input was taken nor the stream ended, output was handed
        over. */
    method Turn() returns (more: bool)
      requires Valid()
      modifies this, f, f.block, f.inUse, w
      ensures Valid() && mode == old(mode) && consumed + next_in == old(consumed + next_in)
      ensures |next_in| <= |old(next_in)|
      ensures (old(ended) ==> ended) && (old(next_in == [] && Snug()) ==> Snug())
      ensures more ==> |next_in| < |old(next_in)| || (ended && !old(ended))
      ensures more || outPos < |w.out| || (ended && state == OUTPUT) || (mode == RUNNING && next_in == [])
      ensures |next_in| == |old(next_in)| && ended == old(ended) && old(avail_out) > 0 && outPos < |w.out| ==>
                |w.out| - outPos < old(|w.out| - outPos)
    {
      more := true;
      if state == OUTPUT {
        more := Drain();
      }
      if more {
        more := Fill();
      }
    }

    /** `handle_compress`: goes on until the output is full, the input used up, or the stream complete. */
    method HandleCompress()
      requires Valid()
      modifies this, f, f.block, f.inUse, w
      ensures Valid() && mode == old(mode) && consumed + next_in == old(consumed + next_in)
      ensures |next_in| <= |old(next_in)|
      ensures (old(ended) ==> ended) && (old(next_in == [] && Snug()) ==> Snug())
      ensures outPos < |w.out| || (ended && state == OUTPUT) || (mode == RUNNING && next_in == [])
      ensures |next_in| == |old(next_in)| && ended == old(ended) && old(avail_out) > 0 && outPos < |w.out| ==>
                |w.out| - outPos < old(|w.out| - outPos)
    {
      var more := true;
      while more
        invariant Valid() && mode == old(mode) && consumed + next_in == old(consumed + next_in)
        invariant |next_in| <= |old(next_in)|
        invariant (old(ended) ==> ended) && (old(next_in == [] && Snug()) ==> Snug())
        invariant more || outPos < |w.out| || (ended && state == OUTPUT) || (mode == RUNNING && next_in == [])
        invariant |next_in| == |old(next_in)| && ended == old(ended) && more ==>
                    w.out == old(w.out) && outPos == old(outPos) && avail_out == old(avail_out)
        invariant |next_in| == |old(next_in)| && ended == old(ended) && !more && old(avail_out) > 0
                  && outPos < |w.out| ==>
                    |w.out| - outPos < old(|w.out| - outPos)
        decreases more, |next_in|, !ended
      {
        more := Turn();
      }
    }

    /** `BZ2_bzCompress`: 1 while running; when finishing, 3 until all is written, then 4. */
    method Compress(finish: bool) returns (ret: int)
      requires Valid()
      modifies this, f, f.block, f.inUse, w
      ensures Valid() && mode == (if finish then FINISHING else old(mode))
      ensures consumed + next_in == old(consumed + next_in)
      ensures |next_in| <= |old(next_in)| && (old(ended) ==> ended) && (old(next_in == [] && Snug()) ==> Snug())
      ensures ret == 1 || ret == 3 || ret == 4
      ensures ret == 1 <==> mode == RUNNING
      ensures ret == 4 <==> ended && outPos == |w.out|
      ensures ret == 1 ==> next_in == [] || outPos < |w.out|
      ensures ret == 3 ==> outPos < |w.out|
      ensures |next_in| == |old(next_in)| && ended == old(ended) && old(avail_out) > 0 && outPos < |w.out| ==>
                |w.out| - outPos < old(|w.out| - outPos)
    {
      if mode == RUNNING {
        if !finish {
          HandleCompress();
          return 1;
        }
        mode := FINISHING;
      }
      HandleCompress();
      ret := if |next_in| > 0 || !IsEmptyRL() || outPos < |w.out| then 3 else 4;
    }

    /** One buffer of output: either less input is left, or the stream has ended, or less output is pending. */
    method WriteSome(finish: bool) returns (ret: int)
      requires Valid() && (!finish ==> mode == RUNNING)
      modifies this, f, f.block, f.inUse, w
      ensures Valid() && mode == (if finish then FINISHING else RUNNING)
      ensures consumed + next_in == old(consumed + next_in)
      ensures ret == 4 <==> ended && outPos == |w.out|
      ensures |next_in| <= |old(next_in)| && (old(ended) ==> ended) && (old(next_in == [] && Snug()) ==> Snug())
      ensures |next_in| == |old(next_in)| && ended == old(ended) && ret != 4 && (finish || next_in != []) ==>
                |w.out| - outPos < old(|w.out| - outPos) || (mode == FINISHING && old(mode) == RUNNING)
    {
      avail_out := IOBUF_SIZE;
      ret := Compress(finish);
    }

    /** The bytes handed over so far. */
    function Handed(): (r: seq<nat>)
      reads this, w
      requires outPos <= |w.out|
    {
      w.out[..outPos]
    }

    /** `bz_write`: hands over a buffer, or, given none, finishes the stream. All of it is consumed. */
    method Write(rbuf: seq<int>)
      requires Valid() && next_in == [] && mode == RUNNING && IsBytes(rbuf)
      modifies this, f, f.block, f.inUse, w
      ensures Valid() && next_in == [] && consumed == old(consumed) + rbuf
      ensures if rbuf == [] then ended && outPos == |w.out| && snug else mode == RUNNING
    {
      next_in := rbuf;
      var ret := 0;
      while ret != 4 && (rbuf == [] || next_in != [])
        invariant Valid() && consumed + next_in == old(consumed) + rbuf
        invariant if rbuf == [] then next_in == [] && Snug() else mode == RUNNING
        invariant ret == 4 ==> ended && outPos == |w.out|
        decreases ret != 4, |next_in|, !ended, mode == RUNNING, |w.out| - outPos
      {
        ret := WriteSome(rbuf == []);
      }
      assert consumed + [] == consumed;
    }
  }

  const IOBUF_SIZE := 8 * 1024

  /** What a stream of buffers holds. */
  function Joined(chunks: seq<seq<int>>): (r: seq<int>) {
    if chunks == [] then [] else Joined(chunks[..|chunks| - 1]) + chunks[|chunks| - 1]
  }

  /** Buffer after buffer. */
  method WriteAll(s: Compressor, chunks: seq<seq<int>>)
    requires s.Valid() && s.next_in == [] && s.mode == RUNNING && s.consumed == []
    requires forall i :: 0 <= i < |chunks| ==> chunks[i] != [] && IsBytes(chunks[i])
    modifies s, s.f, s.f.block, s.f.inUse, s.w
    ensures s.Valid() && s.next_in == [] && s.mode == RUNNING && s.consumed == Joined(chunks)
  {
    for i := 0 to |chunks|
      invariant s.Valid() && s.next_in == [] && s.mode == RUNNING && s.consumed == Joined(chunks[..i])
    {
      s.Write(chunks[i]);
      assert chunks[..i + 1][..i] == chunks[..i];
    }
    assert chunks[..|chunks|] == chunks;
  }

  /** `compressStream`: however the input is cut into buffers, the bytes written decompress to it, and they are a stream
      of the blocks its text is cut into. */
  method CompressStream(table: seq<Word>, level: nat, big: bool, chunks: seq<seq<int>>) returns (out: seq<nat>)
    requires |table| == 256 && 1 <= level <= 9
    requires forall i :: 0 <= i < |chunks| ==> chunks[i] != [] && IsBytes(chunks[i])
    ensures Decompressed(table, ByteBits(out)) == Some(Joined(chunks)) && StreamBlocks(ByteBits(out)).Some?
    ensures CutsText(100_000 * level - 19, Joined(chunks), BytesOf(StreamBlocks(ByteBits(out)).value))
  {
    var s := new Compressor(table, level, big);
    WriteAll(s, chunks);
    s.Write([]);
    out := s.Handed();
    AllHanded(table, out, s.w.out, s.text, s.consumed, Joined(chunks), s.f.nblockMAX, s.blocks, s.cut,
        s.f.before + s.f.runs);
  }

  lemma AllHanded(table: seq<Word>, out: seq<nat>, written: seq<nat>, text: seq<int>, consumed: seq<int>,
                  input: seq<int>, max: nat, blocks: seq<Block>, cut: seq<seq<Run>>, runs: seq<Run>)
    requires DecompressTo(table, written, blocks, text) && out == written[..|written|] && consumed == text + []
    requires consumed == input + [] && CutDone(max, blocks, cut, runs, true) && Greedy(runs)
    ensures Decompressed(table, ByteBits(out)) == Some(input) && StreamBlocks(ByteBits(out)) == Some(blocks)
    ensures CutsText(max, input, BytesOf(blocks))
  {
    assert out == written && text == consumed == input;
    assert Decompressed(table, ByteBits(out)) == Some(input);
    CutIsOfText(max, blocks, cut, runs, text);
  }

  lemma TakenText(text: seq<int>, f0: seq<int>, before: seq<int>, input: seq<int>, k: nat)
    requires k <= |input| && before == text + f0
    ensures before + input[..k] == text + (f0 + input[..k])
    ensures before + input[..k] + input[k..] == before + input
    ensures k == 0 ==> input[k..] == input
    ensures IsBytes(input) ==> IsBytes(input[k..])
  {
    assert input == input[..k] + input[k..];
  }
}
