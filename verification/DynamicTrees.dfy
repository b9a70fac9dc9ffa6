/** Section 3.2.7 of RFC 1951: the trees sent in front of a dynamic block, and their reader. */
module DynamicTrees {
  import opened Powers
  import opened PrefixCode
  import opened LsbFirst
  import opened BitStrings
  import opened CodeLengths
  import opened SendTree
  import opened DeflateFormat

  const BL_ORDER: seq<nat> := [16, 17, 18, 0, 8, 7, 9, 6, 10, 5, 11, 4, 12, 3, 13, 2, 14, 1, 15]

  /** Where in the order each code length comes. */
  const BL_PLACE: seq<nat> := [3, 17, 15, 13, 11, 9, 7, 5, 4, 6, 8, 10, 12, 14, 16, 18, 0, 1, 2]

  lemma OrderInverts(i: nat)
    requires i < 19
    ensures BL_PLACE[i] < 19 && BL_ORDER[BL_PLACE[i]] == i && BL_ORDER[i] < 19 && BL_PLACE[BL_ORDER[i]] == i
  {
  }

  // ----- truncated vectors -----

  ghost predicate ZeroFrom(lens: seq<nat>, m: nat) {
    m <= |lens| && forall n :: m <= n < |lens| ==> lens[n] == 0
  }

  lemma {:induction false} CountLenCut(lens: seq<nat>, b: nat, m: nat, c: nat)
    requires ZeroFrom(lens, m) && 0 < b && m <= c <= |lens|
    ensures CountLen(lens, b, c) == CountLen(lens, b, m)
    decreases c
  {
    if c > m {
      CountLenCut(lens, b, m, c - 1);
    }
  }

  lemma {:induction false} CountLenPrefix(lens: seq<nat>, b: nat, m: nat, c: nat)
    requires c <= m <= |lens|
    ensures CountLen(lens[..m], b, c) == CountLen(lens, b, c)
    decreases c
  {
    if c > 0 {
      CountLenPrefix(lens, b, m, c - 1);
    }
  }

  lemma {:induction false} NextCodeCut(lens: seq<nat>, m: nat, b: nat)
    requires ZeroFrom(lens, m)
    ensures NextCode(lens[..m], b) == NextCode(lens, b)
  {
    if b > 0 {
      NextCodeCut(lens, m, b - 1);
      if b > 1 {
        CountLenPrefix(lens, b - 1, m, m);
        CountLenCut(lens, b - 1, m, |lens|);
      }
    }
  }

  /** Leaving off unused symbols at the end changes no code. */
  lemma EncodeCut(lens: seq<nat>, m: nat, sym: nat)
    requires ZeroFrom(lens, m) && sym < |lens| && lens[sym] > 0
    ensures sym < m && Encode(lens[..m], sym) == Encode(lens, sym)
  {
    NextCodeCut(lens, m, lens[sym]);
    CountLenPrefix(lens, lens[sym], m, sym);
  }

  lemma {:induction false} KraftCut(lens: seq<nat>, top: nat, m: nat, c: nat)
    requires ZeroFrom(lens, m) && c <= |lens|
    ensures Kraft(lens, top, c) == Kraft(lens[..m], top, if c <= m then c else m)
  {
    if c > 0 {
      KraftCut(lens, top, m, c - 1);
    }
  }

  // ----- the lengths of the code length codes -----

  ghost function ThreeBits(nums: seq<nat>): (r: seq<bool>)
    ensures |r| == 3 * |nums|
  {
    if nums == [] then [] else ThreeBits(nums[..|nums| - 1]) + Lsb(nums[|nums| - 1], 3)
  }

  lemma ThreeBitsMore(nums: seq<nat>, x: nat)
    ensures ThreeBits(nums + [x]) == ThreeBits(nums) + Lsb(x, 3)
  {
    assert (nums + [x])[..|nums|] == nums;
  }

  /** `n` lengths in the order of the format. */
  ghost function ReadOrder(bits: seq<bool>, n: nat): (r: Option<(seq<nat>, seq<bool>)>)
    ensures r.Some? ==> |r.value.0| == n
    decreases n
  {
    if n == 0 then Some(([], bits))
    else match ReadOrder(bits, n - 1)
      case None => None
      case Some(r) =>
        match ReadLsb(r.1, 3)
        case None => None
        case Some(x) => Some((r.0 + [x.0], x.1))
  }

  ghost function InOrder(bl: seq<nat>, n: nat): (r: seq<nat>)
    requires |bl| == 19 && n <= 19
    ensures |r| == n
  {
    seq(n, i requires 0 <= i < n => bl[BL_ORDER[i]])
  }

  lemma {:induction false} ReadsOrder(nums: seq<nat>, rest: seq<bool>)
    requires forall i :: 0 <= i < |nums| ==> nums[i] < 8
    ensures ReadOrder(ThreeBits(nums) + rest, |nums|) == Some((nums, rest))
    decreases |nums|
  {
    if nums == [] {
      assert ThreeBits(nums) + rest == rest;
    } else {
      var init, x := nums[..|nums| - 1], nums[|nums| - 1];
      Regroup(ThreeBits(init), Lsb(x, 3), rest);
      ReadsOrder(init, Lsb(x, 3) + rest);
      Pow2Values();
      ReadsLsb(x, 3, rest);
      assert nums == init + [x];
    }
  }

  /** The vector the lengths are for; those not sent are zero. */
  ghost function Arranged(nums: seq<nat>): (r: seq<nat>)
    ensures |r| == 19
  {
    seq(19, i requires 0 <= i < 19 => if BL_PLACE[i] < |nums| then nums[BL_PLACE[i]] else 0)
  }

  lemma ArrangedInOrder(bl: seq<nat>, n: nat)
    requires |bl| == 19 && n <= 19 && forall r :: n <= r < 19 ==> bl[BL_ORDER[r]] == 0
    ensures Arranged(InOrder(bl, n)) == bl
  {
    forall i | 0 <= i < 19
      ensures Arranged(InOrder(bl, n))[i] == bl[i]
    {
      OrderInverts(i);
      if BL_PLACE[i] >= n {
        assert bl[BL_ORDER[BL_PLACE[i]]] == 0;
      }
    }
  }

  // ----- the code lengths themselves -----

  ghost function ReadLengths(bits: seq<bool>, bl: seq<nat>, total: nat,
                             out: seq<nat>): (r: Option<(seq<nat>, seq<bool>)>)
    decreases |bits|
  {
    if |out| == total then Some((out, bits))
    else match DecodeSym(bl, bits)
      case None => None
      case Some(s) =>
        match ReadLsb(s.1, ClExtra(s.0))
        case None => None
        case Some(x) =>
          match Applied(out, ClSym(s.0, x.0))
          case None => None
          case Some(o) => if |o| > total then None else ReadLengths(x.1, bl, total, o)
  }

  lemma {:induction false} ExpandedGrows(out: seq<nat>, syms: seq<ClSym>, all: seq<nat>)
    requires Expanded(out, syms) == Some(all)
    ensures |all| >= |out| + |syms|
    decreases |syms|
  {
    if syms != [] {
      ExpandedGrows(Applied(out, syms[0]).value, syms[1..], all);
    }
  }

  lemma {:induction false} ClBitsFront(syms: seq<ClSym>, bl: seq<nat>)
    requires HaveCodes(syms, bl) && syms != []
    ensures HaveCodes(syms[1..], bl) && ClBits(syms, bl) == SymBits(syms[0], bl) + ClBits(syms[1..], bl)
    decreases |syms|
  {
    var init, x := syms[..|syms| - 1], syms[|syms| - 1];
    if |syms| == 1 {
      assert init == [] && syms[1..] == [] && ClBits([], bl) == [];
    } else {
      ClBitsFront(init, bl);
      assert syms[1..][..|syms| - 2] == init[1..];
      Regroup(SymBits(syms[0], bl), ClBits(init[1..], bl), SymBits(x, bl));
    }
  }

  lemma ReadsClSym(x: ClSym, bl: seq<nat>, top: nat, total: nat, out: seq<nat>, o: seq<nat>, more: seq<bool>)
    requires HasCode(x, bl) && Fits(bl, top) && |out| != total && Applied(out, x) == Some(o) && |o| <= total
    ensures ReadLengths(SymBits(x, bl) + more, bl, total, out) == ReadLengths(more, bl, total, o)
  {
    Regroup(Encode(bl, x.sym), Lsb(x.extra, ClExtra(x.sym)), more);
    DecodeEncode(bl, top, x.sym, Lsb(x.extra, ClExtra(x.sym)) + more);
    ReadsLsb(x.extra, ClExtra(x.sym), more);
  }

  /** The symbols sent read back as the lengths they expand to. */
  lemma {:induction false} ReadsLengths(syms: seq<ClSym>, bl: seq<nat>, top: nat, out: seq<nat>, all: seq<nat>,
                                        rest: seq<bool>)
    requires HaveCodes(syms, bl) && Fits(bl, top) && Expanded(out, syms) == Some(all)
    ensures ReadLengths(ClBits(syms, bl) + rest, bl, |all|, out) == Some((all, rest))
    decreases |syms|
  {
    if syms == [] {
      assert ClBits(syms, bl) + rest == rest;
    } else {
      var o := Applied(out, syms[0]).value;
      ExpandedGrows(out, syms, all);
      ExpandedGrows(o, syms[1..], all);
      ClBitsFront(syms, bl);
      Regroup(SymBits(syms[0], bl), ClBits(syms[1..], bl), rest);
      ReadsClSym(syms[0], bl, top, |all|, out, o, ClBits(syms[1..], bl) + rest);
      ReadsLengths(syms[1..], bl, top, o, all, rest);
    }
  }
}
