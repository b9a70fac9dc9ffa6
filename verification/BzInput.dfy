/** The block being filled by the bzip2 compressor, as `EState` keeps it. */
module BzInput {
  import opened MtfDecoder
  import opened BitOps
  import opened RunLength
  import opened BlockCut

  /** Exactly the bytes that occur are marked. */
  ghost predicate Marks(inUse: seq<bool>, s: seq<int>) {
    |inUse| == 256 && forall b :: 0 <= b < 256 ==> (inUse[b] <==> b in s)
  }

  /** The block holds the runs as stored, its CRC covers what they stand for, and its bytes are marked. */
  ghost predicate Filled(block: seq<int>, nblock: int, runs: seq<Run>, inUse: seq<bool>, crc: Word, table: seq<Word>) {
    && |table| == 256 && 0 <= nblock <= |block| && block[..nblock] == StoredAll(runs)
    && Apart(runs) && Marks(inUse, StoredAll(runs)) && crc == Crc(table, Meaning(runs))
  }

  /** A run not stored yet: none, or one that may follow the last. */
  ghost predicate Pending(ch: int, len: nat, runs: seq<Run>) {
    || (ch == 256 && len == 0)
    || (IsRun(Run(ch, len)) && (runs != [] ==> runs[|runs| - 1].len >= 4 || runs[|runs| - 1].ch != ch))
  }

  ghost function PendingText(ch: int, len: nat): (r: seq<int>) {
    if ch == 256 then [] else Repeat(ch, len)
  }

  lemma MarksMore(inUse: seq<bool>, s: seq<int>, r: Run)
    requires Marks(inUse, s) && IsRun(r)
    ensures r.len <= 3 ==> Marks(inUse[r.ch := true], s + Stored(r))
    ensures r.len > 3 ==> Marks(inUse[r.ch := true][r.len - 4 := true], s + Stored(r))
  {
    var more := Stored(r);
    assert more[0] == r.ch;
    if r.len > 3 {
      assert more[4] == r.len - 4;
    }
  }

  lemma FilledMore(block: seq<int>, nblock: nat, runs: seq<Run>, inUse: seq<bool>, crc: Word, table: seq<Word>, r: Run,
                   block': seq<int>, nblock': nat, inUse': seq<bool>, crc': Word)
    requires Filled(block, nblock, runs, inUse, crc, table) && Pending(r.ch, r.len, runs) && r.ch < 256
    requires nblock' == nblock + |Stored(r)| <= |block'| && block'[..nblock'] == block[..nblock] + Stored(r)
    requires inUse' == if r.len <= 3 then inUse[r.ch := true] else inUse[r.ch := true][r.len - 4 := true]
    requires crc' == Crc(table, Meaning(runs) + Repeat(r.ch, r.len))
    ensures Filled(block', nblock', runs + [r], inUse', crc', table)
  {
    StoredMore(runs, r);
    ApartMore(runs, r);
    MarksMore(inUse, StoredAll(runs), r);
  }

  /** Storing the pending run and starting another. */
  lemma TextStored(runs: seq<Run>, ch: int, len: nat, c: int)
    requires ch < 256 && 0 <= c < 256
    ensures Meaning(runs + [Run(ch, len)]) + PendingText(c, 1) == Meaning(runs) + PendingText(ch, len) + [c]
  {
    StoredMore(runs, Run(ch, len));
    assert Repeat(c, 1) == [c];
  }

  lemma TextLonger(runs: seq<Run>, ch: int, len: nat)
    requires ch < 256
    ensures Meaning(runs) + PendingText(ch, len + 1) == Meaning(runs) + PendingText(ch, len) + [ch]
  {
    assert Repeat(ch, len + 1) == Repeat(ch, len) + [ch];
  }

  lemma TextFlushed(runs: seq<Run>, ch: int, len: nat)
    requires ch < 256
    ensures Meaning(runs + [Run(ch, len)]) == Meaning(runs) + PendingText(ch, len)
  {
    StoredMore(runs, Run(ch, len));
  }

  lemma TextStarted(runs: seq<Run>, c: int)
    requires 0 <= c < 256
    ensures Meaning(runs) + PendingText(c, 1) == Meaning(runs) + PendingText(256, 0) + [c]
  {
    assert Repeat(c, 1) == [c];
  }

  lemma TakenMore(text: seq<int>, input: seq<int>, k: nat)
    requires k < |input|
    ensures text + input[..k] + [input[k]] == text + input[..k + 1]
  {
  }

  lemma NothingFilled(block: seq<int>, inUse: seq<bool>, table: seq<Word>)
    requires |inUse| == 256 && |table| == 256 && forall b :: 0 <= b < 256 ==> !inUse[b]
    ensures Filled(block, 0, [], inUse, 0xffff_ffff, table)
  {
  }

  /** The pending run stored, and another byte coming. */
  lemma GreedyNext(before: seq<Run>, runs: seq<Run>, r: Run, c: int)
    requires GreedySoFar(before + runs, r.ch) && IsRun(r) && (c < 256 ==> c != r.ch || r.len == 255)
    ensures GreedySoFar(before + (runs + [r]), c)
  {
    GreedyMore(before + runs, r);
    assert before + (runs + [r]) == before + runs + [r];
  }

  lemma StillNeeded(max: nat, runs: seq<Run>, r: Run)
    requires |StoredAll(runs)| < max
    ensures Needed(max, runs + [r])
  {
    assert (runs + [r])[..|runs|] == runs;
  }

  class Filler {
    const table: seq<Word>
    const block: array<int>
    const inUse: array<bool>
    const nblockMAX: nat
    var nblock: nat
    var state_in_ch: int
    var state_in_len: nat
    var blockCRC: Word
    ghost var runs: seq<Run>
    ghost var before: seq<Run>

    /** Room for one run over the limit, and for another that a flush adds. */
    ghost predicate Valid()
      reads this, block, inUse
    {
      && Filled(block[..], nblock, runs, inUse[..], blockCRC, table)
      && nblockMAX + 10 <= block.Length && nblock <= nblockMAX + 9
      && Pending(state_in_ch, state_in_len, runs) && GreedySoFar(before + runs, state_in_ch)
    }

    /** ... and able to take more input: with nothing pending nothing was stored, and all runs of the block
        were needed. */
    ghost predicate Ready()
      reads this, block, inUse
    {
      Valid() && (state_in_ch == 256 ==> before + runs == []) && (runs != [] ==> Needed(nblockMAX, runs))
    }

    ghost function Text(): (r: seq<int>)
      reads this
    {
      Meaning(runs) + PendingText(state_in_ch, state_in_len)
    }

    constructor (table: seq<Word>, nblockMAX: nat)
      requires |table| == 256
      ensures Ready() && Text() == [] && nblock == 0 && state_in_ch == 256 && runs == [] && this.nblockMAX == nblockMAX
      ensures this.table == table && before == []
      ensures fresh(block) && fresh(inUse) && block.Length == nblockMAX + 19
    {
      this.table, this.nblockMAX := table, nblockMAX;
      block, inUse := new int[nblockMAX + 19](i => 0), new bool[256](i => false);
      nblock, state_in_ch, state_in_len, blockCRC, runs, before := 0, 256, 0, 0xffff_ffff, [], [];
      new;
      NothingFilled(block[..], inUse[..], table);
    }

    /** The CRC over `len` more of one byte. */
    method AddToCrc(ch: int, len: nat)
      requires |table| == 256 && 0 <= ch < 256 && blockCRC == Crc(table, Meaning(runs))
      modifies this`blockCRC
      ensures blockCRC == Crc(table, Meaning(runs) + Repeat(ch, len))
    {
      ghost var data := Meaning(runs);
      assert data + Repeat(ch, 0) == data;
      for i := 0 to len
        invariant blockCRC == Crc(table, data + Repeat(ch, i))
      {
        CrcMore(table, data + Repeat(ch, i), ch);
        assert data + Repeat(ch, i) + [ch] == data + Repeat(ch, i + 1);
        blockCRC := CrcByte(table, blockCRC, ch);
      }
    }

    method Put(c: int)
      requires nblock < block.Length && inUse as object != block
      modifies this`nblock, block
      ensures nblock == old(nblock) + 1 && block[..nblock] == old(block[..nblock]) + [c]
    {
      block[nblock] := c;
      nblock := nblock + 1;
    }

    /** Stores the bytes of a run. */
    method PutRun(ch: int, len: nat)
      requires nblock + 5 <= block.Length && inUse as object != block && 1 <= len
      modifies this`nblock, block
      ensures nblock == old(nblock) + |Stored(Run(ch, len))|
      ensures block[..nblock] == old(block[..nblock]) + Stored(Run(ch, len))
    {
      if len == 1 {
        Put(ch);
      } else if len == 2 {
        Put(ch);
        Put(ch);
      } else if len == 3 {
        Put(ch);
        Put(ch);
        Put(ch);
      } else {
        Put(ch);
        Put(ch);
        Put(ch);
        Put(ch);
        Put(len - 4);
      }
    }

    /** `add_pair_to_block`. */
    method AddPairToBlock()
      requires Valid() && state_in_ch < 256 && nblock + 5 <= block.Length
      modifies this`nblock, this`blockCRC, this`runs, block, inUse
      ensures runs == old(runs) + [Run(state_in_ch, state_in_len)]
      ensures Filled(block[..], nblock, runs, inUse[..], blockCRC, table) && old(nblock) < nblock <= old(nblock) + 5
    {
      ghost var r := Run(state_in_ch, state_in_len);
      ghost var before: seq<int>, use: seq<bool>, n, crc := block[..], inUse[..], nblock, blockCRC;
      AddToCrc(state_in_ch, state_in_len);
      inUse[state_in_ch] := true;
      if state_in_len > 3 {
        inUse[state_in_len - 4] := true;
      }
      assert inUse[..] == if r.len <= 3 then use[r.ch := true] else use[r.ch := true][r.len - 4 := true];
      assert block[..] == before;
      PutRun(state_in_ch, state_in_len);
      assert block[..nblock] == block[..][..nblock];
      FilledMore(before, n, runs, use, crc, table, r, block[..], nblock, inUse[..], blockCRC);
      runs := runs + [r];
    }

    /** The fast track for a run of one byte. */
    method StoreOne()
      requires Valid() && state_in_len == 1 && nblock < nblockMAX
      modifies this`nblock, this`blockCRC, this`runs, block, inUse
      ensures runs == old(runs) + [Run(state_in_ch, 1)]
      ensures Filled(block[..], nblock, runs, inUse[..], blockCRC, table) && nblock == old(nblock) + 1
    {
      ghost var r := Run(state_in_ch, 1);
      ghost var before: seq<int>, use: seq<bool>, n, crc := block[..], inUse[..], nblock, blockCRC;
      AddToCrc(state_in_ch, 1);
      inUse[state_in_ch] := true;
      assert inUse[..] == use[r.ch := true] && block[..] == before;
      assert Stored(r) == [r.ch];
      Put(state_in_ch);
      assert block[..nblock] == block[..][..nblock];
      FilledMore(before, n, runs, use, crc, table, r, block[..], nblock, inUse[..], blockCRC);
      runs := runs + [r];
    }

    /** The pending run, if any, is stored, and another begins. */
    method StartRun(zchh: int)
      requires Ready() && nblock < nblockMAX && 0 <= zchh < 256 && (zchh != state_in_ch || state_in_len == 255)
      modifies this, block, inUse
      ensures Ready() && nblock <= nblockMAX + 4 && state_in_ch < 256 && Text() == old(Text()) + [zchh]
      ensures before == old(before)
    {
      if state_in_ch < 256 {
        TextStored(runs, state_in_ch, state_in_len, zchh);
        GreedyNext(before, runs, Run(state_in_ch, state_in_len), zchh);
        StillNeeded(nblockMAX, runs, Run(state_in_ch, state_in_len));
        AddPairToBlock();
        assert runs[|runs| - 1] == Run(state_in_ch, state_in_len);
      } else {
        TextStarted(runs, zchh);
      }
      state_in_ch := zchh;
      state_in_len := 1;
    }

    method StoreOneAndStart(zchh: int)
      requires Valid() && nblock < nblockMAX && 0 <= zchh < 256 && zchh != state_in_ch && state_in_len == 1
      modifies this, block, inUse
      ensures Ready() && nblock <= nblockMAX + 4 && state_in_ch < 256 && Text() == old(Text()) + [zchh]
      ensures before == old(before)
    {
      TextStored(runs, state_in_ch, state_in_len, zchh);
      GreedyNext(before, runs, Run(state_in_ch, state_in_len), zchh);
      StillNeeded(nblockMAX, runs, Run(state_in_ch, state_in_len));
      StoreOne();
      state_in_ch := zchh;
      assert runs[|runs| - 1] == Run(old(state_in_ch), 1);
    }

    /** One byte of input. */
    method TakeByte(zchh: int)
      requires Ready() && nblock < nblockMAX && 0 <= zchh < 256
      modifies this, block, inUse
      ensures Ready() && nblock <= nblockMAX + 4 && state_in_ch < 256 && Text() == old(Text()) + [zchh]
      ensures before == old(before)
    {
      if zchh != state_in_ch && state_in_len == 1 {
        StoreOneAndStart(zchh);
      } else if zchh != state_in_ch || state_in_len == 255 {
        StartRun(zchh);
      } else {
        TextLonger(runs, state_in_ch, state_in_len);
        state_in_len := state_in_len + 1;
      }
    }

    /** `copy_input_until_stop`: `k` bytes are taken, all of them or until the block is full. */
    method CopyInput(input: seq<int>) returns (k: nat)
      requires Ready() && nblock <= nblockMAX + 4 && forall i :: 0 <= i < |input| ==> 0 <= input[i] < 256
      modifies this, block, inUse
      ensures Ready() && nblock <= nblockMAX + 4 && k <= |input| && Text() == old(Text()) + input[..k]
      ensures before == old(before)
      ensures k == |input| || nblock >= nblockMAX
      ensures old(nblock) < nblockMAX && |input| > 0 ==> k > 0
      ensures if k == 0 then state_in_ch == old(state_in_ch) && nblock == old(nblock) && runs == old(runs)
              else state_in_ch < 256
    {
      k := 0;
      assert Text() + input[..0] == Text();
      while k < |input| && nblock < nblockMAX
        invariant Ready() && nblock <= nblockMAX + 4 && k <= |input| && Text() == old(Text()) + input[..k]
        invariant before == old(before)
        invariant if k == 0 then state_in_ch == old(state_in_ch) && nblock == old(nblock) && runs == old(runs)
                  else state_in_ch < 256
      {
        TakeByte(input[k]);
        TakenMore(old(Text()), input, k);
        k := k + 1;
      }
    }

    /** `flush_RL`: nothing stays pending, and the block is still within 10 bytes of the limit. */
    method FlushRL()
      requires Valid() && nblock <= nblockMAX + 4
      modifies this, block, inUse
      ensures Valid() && state_in_ch == 256 && Text() == old(Text()) == Meaning(runs) && before == old(before)
      ensures old(Ready() && nblock < nblockMAX) && runs != [] ==> Needed(nblockMAX, runs)
    {
      if state_in_ch < 256 {
        TextFlushed(runs, state_in_ch, state_in_len);
        GreedyNext(before, runs, Run(state_in_ch, state_in_len), 256);
        if nblock < nblockMAX {
          StillNeeded(nblockMAX, runs, Run(state_in_ch, state_in_len));
        }
        AddPairToBlock();
      }
      state_in_ch, state_in_len := 256, 0;
      assert Meaning(runs) + [] == Meaning(runs);
    }

    /** `prepare_new_block`: an empty block; a pending run is kept for it. */
    method PrepareNewBlock()
      requires |table| == 256 && inUse.Length == 256 && nblockMAX + 10 <= block.Length
      requires Pending(state_in_ch, state_in_len, []) && GreedySoFar(before + runs, state_in_ch)
      requires state_in_ch == 256 ==> before + runs == []
      modifies this`nblock, this`blockCRC, this`runs, this`before, inUse
      ensures Ready() && nblock == 0 && runs == [] && Text() == PendingText(state_in_ch, state_in_len)
      ensures before == old(before + runs)
    {
      nblock := 0;
      blockCRC := 0xffff_ffff;
      for i := 0 to 256
        invariant nblock == 0 && blockCRC == 0xffff_ffff && before == old(before) && runs == old(runs)
        invariant forall b :: 0 <= b < i ==> !inUse[b]
      {
        inUse[i] := false;
      }
      before, runs := before + runs, [];
      assert before + [] == before;
      NothingFilled(block[..], inUse[..], table);
      assert [] + PendingText(state_in_ch, state_in_len) == PendingText(state_in_ch, state_in_len);
    }
  }

  /** A block read back by the decoder is what its runs stand for. */
  lemma FilledUnpacks(block: seq<int>, nblock: nat, runs: seq<Run>, inUse: seq<bool>, crc: Word, table: seq<Word>)
    requires Filled(block, nblock, runs, inUse, crc, table)
    ensures Unpacked(block[..nblock]) == Meaning(runs) && crc == Crc(table, Unpacked(block[..nblock]))
  {
    UnpackStored(runs);
  }
}
