/** The run-length coding of code lengths in section 3.2.7 of RFC 1951. */
module CodeLengths {
  import opened Powers
  import opened PrefixCode

  /** One symbol of the code length alphabet with the value of its extra bits. */
  datatype ClSym = ClSym(sym: nat, extra: nat)

  /** The symbols without their extra values. */
  ghost function Bare(syms: seq<ClSym>): (r: seq<nat>)
    ensures |r| == |syms|
  {
    seq(|syms|, i requires 0 <= i < |syms| => syms[i].sym)
  }

  /** Extra bits: 16 repeats the previous length, 17 and 18 repeat zero. */
  function ClExtra(sym: nat): (r: nat) {
    if sym == 16 then 2 else if sym == 17 then 3 else if sym == 18 then 7 else 0
  }

  function Rep<T>(x: T, n: nat): (r: seq<T>)
    ensures |r| == n && forall i :: 0 <= i < n ==> r[i] == x
  {
    seq(n, i => x)
  }

  // ----- the decoder -----

  function Applied(out: seq<nat>, s: ClSym): (r: Option<seq<nat>>) {
    if s.sym < 16 then Some(out + [s.sym])
    else if s.sym == 16 then (if out == [] then None else Some(out + Rep(out[|out| - 1], 3 + s.extra)))
    else if s.sym == 17 then Some(out + Rep(0, 3 + s.extra))
    else if s.sym == 18 then Some(out + Rep(0, 11 + s.extra))
    else None
  }

  function Expanded(out: seq<nat>, syms: seq<ClSym>): (r: Option<seq<nat>>)
    decreases |syms|
  {
    if syms == [] then Some(out)
    else match Applied(out, syms[0])
      case None => None
      case Some(o) => Expanded(o, syms[1..])
  }

  lemma {:induction false} ExpandedJoin(out: seq<nat>, a: seq<ClSym>, b: seq<ClSym>, mid: seq<nat>)
    requires Expanded(out, a) == Some(mid)
    ensures Expanded(out, a + b) == Expanded(mid, b)
    decreases |a|
  {
    if a == [] {
      assert a + b == b;
    } else {
      assert (a + b)[1..] == a[1..] + b;
      ExpandedJoin(Applied(out, a[0]).value, a[1..], b, mid);
    }
  }

  // ----- the encoder -----

  /** The longest stretch one symbol can stand for, and the shortest worth one. */
  function MaxCount(cur: nat, prev: int): (r: nat) {
    if cur == 0 then 138 else if cur == prev then 6 else 7
  }

  function MinCount(cur: nat, prev: int): (r: nat) {
    if cur == 0 then 3 else if cur == prev then 3 else 4
  }

  /** How a stretch of `count` equal lengths is written after `prev`. */
  function Piece(cur: nat, prev: int, count: nat): (r: seq<ClSym>) {
    if count < MinCount(cur, prev) then Rep(ClSym(cur, 0), count)
    else if cur != 0 then
      (if cur != prev then [ClSym(cur, 0), ClSym(16, count - 4)] else [ClSym(16, count - 3)])
    else if count <= 10 then [ClSym(17, count - 3)]
    else [ClSym(18, count - 11)]
  }

  /** Equal lengths from `start` on, `count` of them known, at most `limit`. */
  function RunFrom(lens: seq<nat>, start: nat, count: nat, limit: nat): (r: nat)
    requires start < |lens|
    ensures r >= count
    decreases limit - count
  {
    if count < limit && start + count < |lens| && lens[start + count] == lens[start]
        then RunFrom(lens, start, count + 1, limit)
    else count
  }

  /** All symbols for the lengths from `start` on, the one before being `prev`. */
  function Syms(lens: seq<nat>, start: nat, prev: int): (r: seq<ClSym>)
    decreases |lens| - start
  {
    if start >= |lens| then []
    else
      var c := RunFrom(lens, start, 1, MaxCount(lens[start], prev));
      Piece(lens[start], prev, c) + Syms(lens, start + c, lens[start])
  }

  lemma {:induction false} RunIsEqual(lens: seq<nat>, start: nat, count: nat, limit: nat)
    requires start + count <= |lens| && 1 <= count <= limit
    requires forall k :: start <= k < start + count ==> lens[k] == lens[start]
    ensures var c := RunFrom(lens, start, count, limit);
            c <= limit && start + c <= |lens| && forall k :: start <= k < start + c ==> lens[k] == lens[start]
    decreases limit - count
  {
    if count < limit && start + count < |lens| && lens[start + count] == lens[start] {
      RunIsEqual(lens, start, count + 1, limit);
    }
  }

  lemma {:induction false} ExpandsLiterally(out: seq<nat>, cur: nat, n: nat)
    requires cur < 16
    ensures Expanded(out, Rep(ClSym(cur, 0), n)) == Some(out + Rep(cur, n))
    decreases n
  {
    if n == 0 {
      assert out + Rep(cur, 0) == out;
    } else {
      var syms := Rep(ClSym(cur, 0), n);
      ExpandsLiterally(out + [cur], cur, n - 1);
      assert syms[1..] == Rep(ClSym(cur, 0), n - 1);
      assert out + [cur] + Rep(cur, n - 1) == out + Rep(cur, n);
    }
  }

  lemma ExpandsOne(out: seq<nat>, s: ClSym)
    ensures Expanded(out, [s]) == Applied(out, s)
  {
    assert [s][1..] == [];
  }

  /** A stretch expands to itself, and its extra values fit their bits. */
  lemma PieceExpands(out: seq<nat>, cur: nat, prev: int, count: nat)
    requires cur < 16 && 1 <= count <= MaxCount(cur, prev) && (prev >= 0 ==> out != [] && out[|out| - 1] == prev)
    ensures Expanded(out, Piece(cur, prev, count)) == Some(out + Rep(cur, count))
  {
    if count < MinCount(cur, prev) {
      ExpandsLiterally(out, cur, count);
    } else if cur != 0 && cur != prev {
      var s := ClSym(16, count - 4);
      assert [ClSym(cur, 0), s] == [ClSym(cur, 0)] + [s];
      ExpandsOne(out, ClSym(cur, 0));
      ExpandedJoin(out, [ClSym(cur, 0)], [s], out + [cur]);
      ExpandsOne(out + [cur], s);
      assert out + [cur] + Rep(cur, count - 1) == out + Rep(cur, count);
    } else {
      ExpandsOne(out, Piece(cur, prev, count)[0]);
    }
  }

  /** The code length stream expands back to the lengths it was made from, onto whatever came before. */
  lemma {:induction false} SymsExpand(lens: seq<nat>, start: nat, prev: int, out: seq<nat>)
    requires (forall k :: 0 <= k < |lens| ==> lens[k] < 16) && (prev >= 0 ==> out != [] && out[|out| - 1] == prev)
    requires start <= |lens|
    ensures Expanded(out, Syms(lens, start, prev)) == Some(out + lens[start..])
    decreases |lens| - start
  {
    if start == |lens| {
      assert out + lens[start..] == out;
    } else {
      var cur := lens[start];
      var c := RunFrom(lens, start, 1, MaxCount(cur, prev));
      RunIsEqual(lens, start, 1, MaxCount(cur, prev));
      PieceExpands(out, cur, prev, c);
      var mid := out + Rep(cur, c);
      ExpandedJoin(out, Piece(cur, prev, c), Syms(lens, start + c, cur), mid);
      SymsExpand(lens, start + c, cur, mid);
      RunSplit(lens, start, c, out);
    }
  }

  lemma RunSplit(lens: seq<nat>, start: nat, c: nat, out: seq<nat>)
    requires start < |lens| && start + c <= |lens| && forall k :: start <= k < start + c ==> lens[k] == lens[start]
    ensures out + Rep(lens[start], c) + lens[start + c..] == out + lens[start..]
  {
    assert lens[start..start + c] == Rep(lens[start], c);
    assert lens[start..] == lens[start..start + c] + lens[start + c..];
  }

  /** Every symbol is one of the nineteen, with extra bits that hold its value. */
  ghost predicate Sendable(s: ClSym) {
    s.sym < 19 && s.extra < Pow2(ClExtra(s.sym))
  }

  ghost predicate AllSendable(syms: seq<ClSym>) {
    forall i :: 0 <= i < |syms| ==> Sendable(syms[i])
  }

  lemma PieceSendable(cur: nat, prev: int, count: nat)
    requires cur < 16 && 1 <= count <= MaxCount(cur, prev)
    ensures AllSendable(Piece(cur, prev, count))
  {
    Pow2Values();
  }

  lemma {:induction false} SymsSendable(lens: seq<nat>, start: nat, prev: int)
    requires forall k :: 0 <= k < |lens| ==> lens[k] < 16
    ensures AllSendable(Syms(lens, start, prev))
    decreases |lens| - start
  {
    if start < |lens| {
      var cur := lens[start];
      var c := RunFrom(lens, start, 1, MaxCount(cur, prev));
      RunIsEqual(lens, start, 1, MaxCount(cur, prev));
      PieceSendable(cur, prev, c);
      SymsSendable(lens, start + c, cur);
    }
  }

  /** Code 16 never comes first, so a second vector can follow a first one in the same stream. */
  lemma TwoVectorsExpand(a: seq<nat>, b: seq<nat>)
    requires (forall k :: 0 <= k < |a| ==> a[k] < 16) && (forall k :: 0 <= k < |b| ==> b[k] < 16)
    ensures Expanded([], Syms(a, 0, -1) + Syms(b, 0, -1)) == Some(a + b)
  {
    SymsExpand(a, 0, -1, []);
    assert [] + a[0..] == a;
    ExpandedJoin([], Syms(a, 0, -1), Syms(b, 0, -1), a);
    SymsExpand(b, 0, -1, a);
    assert b[0..] == b;
  }
}
