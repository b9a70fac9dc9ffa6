/** `scan_tree` and `send_tree`: the same walk over the lengths, once counting the
    symbols of the code length alphabet and once sending them. */
module SendTree {
  import opened PrefixCode
  import opened LsbFirst
  import opened BitStrings
  import opened CodeLengths
  import opened Occurrences
  import opened LsbWriter
  import GenCodes

  const GUARD := 0xffff

  lemma BareMore(syms: seq<ClSym>, x: ClSym, s: nat)
    ensures Count(Bare(syms + [x]), s) == Count(Bare(syms), s) + if x.sym == s then 1 else 0
  {
    assert Bare(syms + [x]) == Bare(syms) + [x.sym];
    CountMore(Bare(syms), x.sym, s);
  }

  lemma {:induction false} BareRep(syms: seq<ClSym>, x: ClSym, n: nat, s: nat)
    ensures Count(Bare(syms + Rep(x, n)), s) == Count(Bare(syms), s) + if x.sym == s then n else 0
  {
    if n == 0 {
      assert syms + Rep(x, 0) == syms;
    } else {
      BareRep(syms, x, n - 1, s);
      assert syms + Rep(x, n) == syms + Rep(x, n - 1) + [x];
      BareMore(syms + Rep(x, n - 1), x, s);
    }
  }

  /** `f` counts the symbols on top of `f0`. */
  ghost predicate Counts(f0: seq<nat>, f: seq<nat>, syms: seq<ClSym>) {
    19 <= |f0| == |f| && (forall s :: 0 <= s < 19 ==> f[s] == f0[s] + Count(Bare(syms), s))
        && forall s :: 19 <= s < |f| ==>
        f[s] == f0[s]
  }

  lemma CountsMore(f0: seq<nat>, f: seq<nat>, syms: seq<ClSym>, x: ClSym)
    requires Counts(f0, f, syms) && x.sym < 19
    ensures Counts(f0, f[x.sym := f[x.sym] + 1], syms + [x])
  {
    forall s | 0 <= s < 19
      ensures f[x.sym := f[x.sym] + 1][s] == f0[s] + Count(Bare(syms + [x]), s)
    {
      BareMore(syms, x, s);
    }
  }

  lemma CountsRep(f0: seq<nat>, f: seq<nat>, syms: seq<ClSym>, x: ClSym, n: nat)
    requires Counts(f0, f, syms) && x.sym < 19
    ensures Counts(f0, f[x.sym := f[x.sym] + n], syms + Rep(x, n))
  {
    forall s | 0 <= s < 19
      ensures f[x.sym := f[x.sym] + n][s] == f0[s] + Count(Bare(syms + Rep(x, n)), s)
    {
      BareRep(syms, x, n, s);
    }
  }

  // ----- the walk -----

  /** At `n`, the last `count` lengths are one stretch still open; everything before it is `done`. */
  ghost predicate Walking(lens: seq<nat>, n: nat, count: nat, prev: int, done: seq<ClSym>) {
    && count <= n <= |lens|
    && Syms(lens, 0, -1) == done + Syms(lens, n - count, prev)
    && (count > 0 ==> n < |lens|) && (n < |lens| ==> OpenRun(lens, n - count, count, prev))
  }

  ghost predicate OpenRun(lens: seq<nat>, start: nat, count: nat, prev: int)
    requires start + count < |lens|
  {
    && lens[start + count] == lens[start] && count < MaxCount(lens[start], prev)
    && RunFrom(lens, start, 1, MaxCount(lens[start], prev)) ==
          RunFrom(lens, start, count + 1, MaxCount(lens[start], prev))
  }

  /** The stretch goes on. */
  lemma WalkOn(lens: seq<nat>, n: nat, count: nat, prev: int, done: seq<ClSym>)
    requires Walking(lens, n, count, prev, done) && n + 1 < |lens|
    requires count + 1 < MaxCount(lens[n], prev) && lens[n] == lens[n + 1]
    ensures Walking(lens, n + 1, count + 1, prev, done)
  {
  }

  /** The stretch ends with the length at `n`. */
  lemma WalkFlush(lens: seq<nat>, n: nat, count: nat, prev: int, done: seq<ClSym>)
    requires Walking(lens, n, count, prev, done) && n < |lens|
    requires count + 1 >= MaxCount(lens[n], prev) || n + 1 == |lens| || lens[n] != lens[n + 1]
    ensures Walking(lens, n + 1, 0, lens[n], done + Piece(lens[n], prev, count + 1))
    ensures 1 <= count + 1 <= MaxCount(lens[n], prev)
  {
    var start := n - count;
    assert RunFrom(lens, start, 1, MaxCount(lens[start], prev)) == count + 1;
    var piece, more := Piece(lens[n], prev, count + 1), Syms(lens, n + 1, lens[n]);
    assert Syms(lens, start, prev) == piece + more;
    assert done + (piece + more) == done + piece + more;
  }

  /** What `scan_tree` and `send_tree` hold at the head of their loops. */
  ghost predicate InStep(lens: seq<nat>, n: nat, prev: int, next: nat, count: nat, mx: nat, mn: nat, done: seq<ClSym>) {
    && Walking(lens, n, count, prev, done) && next == NextOf(lens, n)
    && mx == MaxCount(next, prev) && mn == MinCount(next, prev)
  }

  /** The length at `n`, or the guard behind the last. */
  function NextOf(lens: seq<nat>, n: nat): (r: nat) {
    if n < |lens| then lens[n] else GUARD
  }

  lemma StepOn(lens: seq<nat>, n: nat, prev: int, next: nat, count: nat, mx: nat, mn: nat, done: seq<ClSym>)
    requires InStep(lens, n, prev, next, count, mx, mn, done) && n < |lens| && Lengths(lens)
    requires count + 1 < mx && next == NextOf(lens, n + 1)
    ensures InStep(lens, n + 1, prev, next, count + 1, mx, mn, done)
  {
    WalkOn(lens, n, count, prev, done);
  }

  lemma StepFlush(lens: seq<nat>, n: nat, prev: int, next: nat, count: nat, mx: nat, mn: nat, done: seq<ClSym>)
    requires InStep(lens, n, prev, next, count, mx, mn, done) && n < |lens| && Lengths(lens)
    requires !(count + 1 < mx && next == NextOf(lens, n + 1))
    ensures var next' := NextOf(lens, n + 1);
            InStep(lens, n + 1, next, next', 0, MaxCount(next', next), MinCount(next', next),
                done + Piece(next, prev, count + 1))
    ensures next < 16 && mn == MinCount(next, prev) && AllSendable(Piece(next, prev, count + 1))
    ensures done + Piece(next, prev, count + 1) <= Syms(lens, 0, -1)
  {
    WalkFlush(lens, n, count, prev, done);
    PieceSendable(next, prev, count + 1);
  }

  lemma StepStart(lens: seq<nat>, next: nat)
    requires Lengths(lens) && next == lens[0]
    ensures InStep(lens, 0, -1, next, 0, if next == 0 then 138 else 7, if next == 0 then 3 else 4, [])
  {
    assert [] + Syms(lens, 0, -1) == Syms(lens, 0, -1);
  }

  lemma StepEnd(lens: seq<nat>, prev: int, next: nat, count: nat, mx: nat, mn: nat, done: seq<ClSym>)
    requires InStep(lens, |lens|, prev, next, count, mx, mn, done)
    ensures done == Syms(lens, 0, -1)
  {
    assert done + [] == done;
  }

  /** The limits for the next stretch, as the loops set them. */
  function NextMax(cur: nat, next: nat): (r: nat)
    ensures r == MaxCount(next, cur)
  {
    if next == 0 then 138 else if cur == next then 6 else 7
  }

  function NextMin(cur: nat, next: nat): (r: nat)
    ensures r == MinCount(next, cur)
  {
    if next == 0 then 3 else if cur == next then 3 else 4
  }

  ghost predicate Lengths(lens: seq<nat>) {
    |lens| > 0 && forall k :: 0 <= k < |lens| ==> lens[k] < 16
  }

  /** The lengths with the guard behind them. */
  ghost predicate Guarded(dl: seq<nat>, lens: seq<nat>) {
    |lens| < |dl| && dl[..|lens|] == lens && dl[|lens|] == GUARD
  }

  // ----- counting -----

  method CountOne(blFreq: array<nat>, s: nat, ghost f0: seq<nat>, ghost syms: seq<ClSym>, ghost extra: nat)
    requires s < 19 && Counts(f0, blFreq[..], syms)
    modifies blFreq
    ensures Counts(f0, blFreq[..], syms + [ClSym(s, extra)])
  {
    CountsMore(f0, blFreq[..], syms, ClSym(s, extra));
    ghost var f: seq<nat> := blFreq[..];
    blFreq[s] := blFreq[s] + 1;
    assert blFreq[..] == f[s := f[s] + 1];
  }

  /** Counts the symbols of one stretch. */
  method ScanPiece(blFreq: array<nat>, cur: nat, prev: int, count: nat, minCount: nat, ghost f0: seq<nat>,
                   ghost syms: seq<ClSym>)
    requires cur < 16 && minCount == MinCount(cur, prev) && Counts(f0, blFreq[..], syms) && 1 <= count
    modifies blFreq
    ensures Counts(f0, blFreq[..], syms + Piece(cur, prev, count))
  {
    if count < minCount {
      CountsRep(f0, blFreq[..], syms, ClSym(cur, 0), count);
      ghost var f: seq<nat> := blFreq[..];
      blFreq[cur] := blFreq[cur] + count;
      assert blFreq[..] == f[cur := f[cur] + count];
    } else if cur != 0 {
      if cur != prev {
        CountOne(blFreq, cur, f0, syms, 0);
        CountOne(blFreq, 16, f0, syms + [ClSym(cur, 0)], count - 4);
        assert syms + [ClSym(cur, 0)] + [ClSym(16, count - 4)] == syms + Piece(cur, prev, count);
      } else {
        CountOne(blFreq, 16, f0, syms, count - 3);
      }
    } else if count <= 10 {
      CountOne(blFreq, 17, f0, syms, count - 3);
    } else {
      CountOne(blFreq, 18, f0, syms, count - 11);
    }
  }

  /** One length: the stretch goes on, or it is counted and another begins. */
  method ScanStep(blFreq: array<nat>, ghost lens: seq<nat>, ghost n: nat, prev0: int, cur: nat, next: nat, count0: nat,
                  mx0: nat, mn0: nat,
                  ghost f0: seq<nat>, ghost done: seq<ClSym>)
    returns (prev: int, count: nat, mx: nat, mn: nat, ghost done': seq<ClSym>)
    requires InStep(lens, n, prev0, cur, count0, mx0, mn0, done) && n < |lens| && Lengths(lens)
    requires next == NextOf(lens, n + 1)
    requires Counts(f0, blFreq[..], done)
    modifies blFreq
    ensures InStep(lens, n + 1, prev, next, count, mx, mn, done') && Counts(f0, blFreq[..], done')
  {
    prev, count, mx, mn, done' := prev0, count0 + 1, mx0, mn0, done;
    if count < mx && cur == next {
      StepOn(lens, n, prev, cur, count0, mx, mn, done);
    } else {
      StepFlush(lens, n, prev, cur, count0, mx, mn, done);
      ScanPiece(blFreq, cur, prev, count, mn, f0, done);
      done' := done + Piece(cur, prev, count);
      count, prev, mx, mn := 0, cur, NextMax(cur, next), NextMin(cur, next);
    }
  }

  /** The loop of `scan_tree`. */
  method ScanLengths(dl: seq<nat>, maxCode: nat, blFreq: array<nat>)
    requires blFreq.Length >= 19 && maxCode + 1 < |dl| && Lengths(dl[..maxCode + 1]) && Guarded(dl, dl[..maxCode + 1])
    modifies blFreq
    ensures Counts(old(blFreq[..]), blFreq[..], Syms(dl[..maxCode + 1], 0, -1))
  {
    ghost var lens: seq<nat>, f0: seq<nat>, done: seq<ClSym> := dl[..maxCode + 1], blFreq[..], [];
    var prevlen: int := -1;
    var nextlen, count, maxCount, minCount := dl[0], 0, 7, 4;
    if nextlen == 0 {
      maxCount, minCount := 138, 3;
    }
    StepStart(lens, nextlen);
    var n := 0;
    while n <= maxCode
      invariant 0 <= n <= maxCode + 1 && 0 <= count
      invariant InStep(lens, n, prevlen, nextlen, count, maxCount, minCount, done) && Counts(f0, blFreq[..], done)
    {
      var curlen := nextlen;
      nextlen := dl[n + 1];
      GuardedAt(dl, lens, n + 1);
      prevlen, count, maxCount, minCount, done :=
        ScanStep(blFreq, lens, n, prevlen, curlen, nextlen, count, maxCount, minCount, f0, done);
      n := n + 1;
    }
    StepEnd(lens, prevlen, nextlen, count, maxCount, minCount, done);
  }

  /** `scan_tree`: sets the guard and counts exactly the symbols that will be sent. */
  method ScanTree(dl: array<nat>, maxCode: nat, blFreq: array<nat>)
    requires dl != blFreq && maxCode + 1 < dl.Length && blFreq.Length >= 19 && Lengths(dl[..maxCode + 1])
    modifies dl, blFreq
    ensures Guarded(dl[..], old(dl[..maxCode + 1])) && forall k :: maxCode + 1 < k < dl.Length ==> dl[k] == old(dl[k])
    ensures Counts(old(blFreq[..]), blFreq[..], Syms(old(dl[..maxCode + 1]), 0, -1))
  {
    ghost var lens: seq<nat> := dl[..maxCode + 1];
    dl[maxCode + 1] := GUARD;
    assert dl[..][..maxCode + 1] == lens;
    ScanLengths(dl[..], maxCode, blFreq);
  }

  lemma GuardedAt(dl: seq<nat>, lens: seq<nat>, n: nat)
    requires Guarded(dl, lens) && n <= |lens|
    ensures dl[n] == NextOf(lens, n)
  {
    if n < |lens| {
      assert dl[..|lens|][n] == lens[n];
    }
  }

  // ----- sending -----

  /** The code length tree has a code for the symbol. */
  ghost predicate HasCode(x: ClSym, bl: seq<nat>) {
    Sendable(x) && x.sym < |bl| && bl[x.sym] > 0
  }

  ghost function SymBits(x: ClSym, bl: seq<nat>): (r: seq<bool>)
    requires HasCode(x, bl)
    ensures |r| == bl[x.sym] + ClExtra(x.sym)
  {
    Encode(bl, x.sym) + Lsb(x.extra, ClExtra(x.sym))
  }

  ghost predicate HaveCodes(syms: seq<ClSym>, bl: seq<nat>) {
    forall i :: 0 <= i < |syms| ==> HasCode(syms[i], bl)
  }

  ghost function ClBits(syms: seq<ClSym>, bl: seq<nat>): (r: seq<bool>)
    requires HaveCodes(syms, bl)
  {
    if syms == [] then [] else ClBits(syms[..|syms| - 1], bl) + SymBits(syms[|syms| - 1], bl)
  }

  lemma ClBitsMore(syms: seq<ClSym>, x: ClSym, bl: seq<nat>)
    requires HaveCodes(syms, bl) && HasCode(x, bl)
    ensures HaveCodes(syms + [x], bl) && ClBits(syms + [x], bl) == ClBits(syms, bl) + SymBits(x, bl)
  {
    assert (syms + [x])[..|syms|] == syms;
  }

  /** A code tree as the sender holds it: lengths and reversed codes. */
  ghost predicate TreeCodes(lens: seq<nat>, fc: seq<nat>) {
    && |lens| <= |fc| && (forall n :: 0 <= n < |lens| ==> lens[n] <= 15)
    && forall n :: 0 <= n < |lens| ==> GenCodes.Coded(lens, fc[n], n)
  }

  /** One symbol with its extra bits. */
  method SendSym(o: Output, bl: seq<nat>, fc: seq<nat>, x: ClSym)
    requires o.Valid() && TreeCodes(bl, fc) && HasCode(x, bl)
    modifies o, o.outbuf
    ensures o.Valid() && o.stream == old(o.stream) + SymBits(x, bl)
  {
    assert GenCodes.Coded(bl, fc[x.sym], x.sym);
    o.SendBits(fc[x.sym], bl[x.sym]);
    if x.sym >= 16 {
      o.SendBits(x.extra, ClExtra(x.sym));
    } else {
      assert Lsb(x.extra, 0) == [];
    }
    Regroup(old(o.stream), Encode(bl, x.sym), Lsb(x.extra, ClExtra(x.sym)));
  }

  /** ... added to what has been sent since `s0`. */
  method SendNext(o: Output, bl: seq<nat>, fc: seq<nat>, x: ClSym, ghost s0: seq<bool>, ghost syms: seq<ClSym>)
    requires o.Valid() && TreeCodes(bl, fc) && HasCode(x, bl) && HaveCodes(syms, bl)
    requires o.stream == s0 + ClBits(syms, bl)
    modifies o, o.outbuf
    ensures o.Valid() && HaveCodes(syms + [x], bl) && o.stream == s0 + ClBits(syms + [x], bl)
  {
    SendSym(o, bl, fc, x);
    ClBitsMore(syms, x, bl);
    Regroup(s0, ClBits(syms, bl), SymBits(x, bl));
  }

  method SendLiterally(o: Output, bl: seq<nat>, fc: seq<nat>, cur: nat, count: nat, ghost s0: seq<bool>,
                       ghost syms: seq<ClSym>)
    requires o.Valid() && TreeCodes(bl, fc) && HaveCodes(syms, bl) && o.stream == s0 + ClBits(syms, bl)
    requires 1 <= count && HasCode(ClSym(cur, 0), bl)
    modifies o, o.outbuf
    ensures o.Valid() && HaveCodes(syms + Rep(ClSym(cur, 0), count), bl)
    ensures o.stream == s0 + ClBits(syms + Rep(ClSym(cur, 0), count), bl)
  {
    ghost var x := ClSym(cur, 0);
    assert syms + Rep(x, 0) == syms;
    for i := 0 to count
      invariant o.Valid() && HaveCodes(syms + Rep(x, i), bl) && o.stream == s0 + ClBits(syms + Rep(x, i), bl)
    {
      SendNext(o, bl, fc, ClSym(cur, 0), s0, syms + Rep(x, i));
      assert syms + Rep(x, i) + [x] == syms + Rep(x, i + 1);
    }
  }

  /** Sends the symbols of one stretch. */
  method SendPiece(o: Output, bl: seq<nat>, fc: seq<nat>, cur: nat, prev: int, count: nat, minCount: nat,
                   ghost s0: seq<bool>, ghost syms: seq<ClSym>)
    requires o.Valid() && TreeCodes(bl, fc) && HaveCodes(syms, bl) && o.stream == s0 + ClBits(syms, bl)
    requires cur < 16 && minCount == MinCount(cur, prev) && 1 <= count && HaveCodes(Piece(cur, prev, count), bl)
    modifies o, o.outbuf
    ensures o.Valid() && HaveCodes(syms + Piece(cur, prev, count), bl)
    ensures o.stream == s0 + ClBits(syms + Piece(cur, prev, count), bl)
  {
    ghost var piece := Piece(cur, prev, count);
    assert HasCode(piece[0], bl);
    if count < minCount {
      SendLiterally(o, bl, fc, cur, count, s0, syms);
    } else if cur != 0 {
      if cur != prev {
        assert HasCode(piece[1], bl);
        SendNext(o, bl, fc, ClSym(cur, 0), s0, syms);
        SendNext(o, bl, fc, ClSym(16, count - 4), s0, syms + [ClSym(cur, 0)]);
        assert syms + [ClSym(cur, 0)] + [ClSym(16, count - 4)] == syms + piece;
      } else {
        SendNext(o, bl, fc, ClSym(16, count - 3), s0, syms);
      }
    } else if count <= 10 {
      SendNext(o, bl, fc, ClSym(17, count - 3), s0, syms);
    } else {
      SendNext(o, bl, fc, ClSym(18, count - 11), s0, syms);
    }
  }

  lemma PieceCovered(lens: seq<nat>, done: seq<ClSym>, piece: seq<ClSym>, bl: seq<nat>)
    requires HaveCodes(Syms(lens, 0, -1), bl) && done + piece <= Syms(lens, 0, -1)
    ensures HaveCodes(piece, bl)
  {
    forall i | 0 <= i < |piece|
      ensures HasCode(piece[i], bl)
    {
      assert piece[i] == Syms(lens, 0, -1)[|done| + i];
    }
  }

  /** One length: the stretch goes on, or it is sent and another begins. */
  method SendStep(o: Output, bl: seq<nat>, fc: seq<nat>, ghost lens: seq<nat>, ghost n: nat, prev0: int, cur: nat,
                  next: nat,
                  count0: nat, mx0: nat, mn0: nat, ghost s0: seq<bool>, ghost done: seq<ClSym>)
    returns (prev: int, count: nat, mx: nat, mn: nat, ghost done': seq<ClSym>)
    requires InStep(lens, n, prev0, cur, count0, mx0, mn0, done) && n < |lens| && Lengths(lens)
    requires next == NextOf(lens, n + 1)
    requires HaveCodes(Syms(lens, 0, -1), bl)
    requires o.Valid() && TreeCodes(bl, fc) && HaveCodes(done, bl) && o.stream == s0 + ClBits(done, bl)
    modifies o, o.outbuf
    ensures InStep(lens, n + 1, prev, next, count, mx, mn, done')
    ensures o.Valid() && HaveCodes(done', bl) && o.stream == s0 + ClBits(done', bl)
  {
    prev, count, mx, mn, done' := prev0, count0 + 1, mx0, mn0, done;
    if count < mx && cur == next {
      StepOn(lens, n, prev, cur, count0, mx, mn, done);
    } else {
      StepFlush(lens, n, prev, cur, count0, mx, mn, done);
      PieceCovered(lens, done, Piece(cur, prev, count), bl);
      SendPiece(o, bl, fc, cur, prev, count, mn, s0, done);
      done' := done + Piece(cur, prev, count);
      count, prev, mx, mn := 0, cur, NextMax(cur, next), NextMin(cur, next);
    }
  }

  /** `send_tree`: sends exactly the symbols that `scan_tree` counted. */
  method SendLengths(o: Output, dl: seq<nat>, maxCode: nat, bl: seq<nat>, fc: seq<nat>)
    requires o.Valid() && TreeCodes(bl, fc) && maxCode + 1 < |dl| && Lengths(dl[..maxCode + 1])
    requires Guarded(dl, dl[..maxCode + 1])
    requires HaveCodes(Syms(dl[..maxCode + 1], 0, -1), bl)
    modifies o, o.outbuf
    ensures o.Valid() && o.stream == old(o.stream) + ClBits(Syms(dl[..maxCode + 1], 0, -1), bl)
  {
    ghost var lens: seq<nat>, s0, done: seq<ClSym> := dl[..maxCode + 1], o.stream, [];
    var prevlen: int := -1;
    var nextlen, count, maxCount, minCount := dl[0], 0, 7, 4;
    if nextlen == 0 {
      maxCount, minCount := 138, 3;
    }
    StepStart(lens, nextlen);
    var n := 0;
    while n <= maxCode
      invariant 0 <= n <= maxCode + 1 && 0 <= count && o.Valid()
      invariant InStep(lens, n, prevlen, nextlen, count, maxCount, minCount, done)
      invariant HaveCodes(done, bl) && o.stream == s0 + ClBits(done, bl)
    {
      var curlen := nextlen;
      nextlen := dl[n + 1];
      GuardedAt(dl, lens, n + 1);
      prevlen, count, maxCount, minCount, done :=
        SendStep(o, bl, fc, lens, n, prevlen, curlen, nextlen, count, maxCount, minCount, s0, done);
      n := n + 1;
    }
    StepEnd(lens, prevlen, nextlen, count, maxCount, minCount, done);
  }
}
