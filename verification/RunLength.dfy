/** The first stage of the bzip2 compressor: runs of 4 to 255 equal bytes are stored as
    four of them and a count. */
module RunLength {
  import opened MtfDecoder
  import opened BitOps

  /** A run: a byte and how often it comes. */
  datatype Run = Run(ch: int, len: nat)

  ghost predicate IsRun(r: Run) {
    0 <= r.ch < 256 && 1 <= r.len <= 255
  }

  /** How a run is stored. */
  function Stored(r: Run): (s: seq<int>) {
    if r.len <= 3 then Repeat(r.ch, r.len) else Repeat(r.ch, 4) + [r.len - 4]
  }

  ghost function StoredAll(runs: seq<Run>): (s: seq<int>) {
    if runs == [] then [] else Stored(runs[0]) + StoredAll(runs[1..])
  }

  ghost function Meaning(runs: seq<Run>): (s: seq<int>) {
    if runs == [] then [] else Repeat(runs[0].ch, runs[0].len) + Meaning(runs[1..])
  }

  /** The decoder: four equal bytes are followed by how many more there are. */
  ghost function Unpacked(s: seq<int>): (r: seq<int>) {
    if FourEqual(s) then
      Repeat(s[0], 4 + if s[4] >= 0 then s[4] else 0) + Unpacked(s[5..])
    else if s == [] then []
    else [s[0]] + Unpacked(s[1..])
  }

  /** A run of one to three bytes is followed by a different byte. */
  ghost predicate ApartAt(runs: seq<Run>, i: nat) {
    i + 1 < |runs| ==> runs[i].len >= 4 || runs[i].ch != runs[i + 1].ch
  }

  ghost predicate Apart(runs: seq<Run>) {
    forall i :: 0 <= i < |runs| ==> IsRun(runs[i]) && ApartAt(runs, i)
  }

  lemma ApartTail(runs: seq<Run>)
    requires Apart(runs) && runs != []
    ensures Apart(runs[1..])
  {
    forall i | 0 <= i < |runs| - 1
      ensures IsRun(runs[1..][i]) && ApartAt(runs[1..], i)
    {
      assert ApartAt(runs, i + 1) && IsRun(runs[i + 1]);
    }
  }

  lemma ApartMore(runs: seq<Run>, r: Run)
    requires Apart(runs) && IsRun(r)
    requires runs != [] ==> runs[|runs| - 1].len >= 4 || runs[|runs| - 1].ch != r.ch
    ensures Apart(runs + [r])
  {
    var more := runs + [r];
    forall i | 0 <= i < |more|
      ensures IsRun(more[i]) && ApartAt(more, i)
    {
      if i < |runs| {
        assert ApartAt(runs, i) && IsRun(runs[i]);
      }
    }
  }

  lemma {:induction false} StoredMore(runs: seq<Run>, r: Run)
    ensures StoredAll(runs + [r]) == StoredAll(runs) + Stored(r)
    ensures Meaning(runs + [r]) == Meaning(runs) + Repeat(r.ch, r.len)
  {
    if runs == [] {
      assert [r][1..] == [] && runs + [r] == [r];
      assert StoredAll([]) == [] && Meaning([]) == [];
    } else {
      StoredMore(runs[1..], r);
      assert (runs + [r])[1..] == runs[1..] + [r];
    }
  }

  lemma RepeatMore(c: int, n: nat)
    ensures [c] + Repeat(c, n) == Repeat(c, n + 1)
  {
  }

  ghost predicate FourEqual(s: seq<int>) {
    |s| >= 5 && s[0] == s[1] == s[2] == s[3]
  }

  lemma ShortIsNotFour(c: int, n: nat, rest: seq<int>)
    requires 1 <= n <= 3 && (rest != [] ==> rest[0] != c)
    ensures !FourEqual(Repeat(c, n) + rest)
  {
    var s := Repeat(c, n) + rest;
    assert s[0] == c && (rest != [] ==> s[n] == rest[0]);
  }

  lemma UnpackOne(s: seq<int>, rest: seq<int>)
    requires s != [] && !FourEqual(s) && s[1..] == rest
    ensures Unpacked(s) == [s[0]] + Unpacked(rest)
  {
  }

  /** A short run followed by another byte, or by nothing, is read byte by byte. */
  lemma {:induction false} UnpackShort(c: int, n: nat, rest: seq<int>)
    requires n <= 3 && (rest != [] ==> rest[0] != c)
    ensures Unpacked(Repeat(c, n) + rest) == Repeat(c, n) + Unpacked(rest)
  {
    if n == 0 {
      assert Repeat(c, 0) + rest == rest;
    } else {
      ShortIsNotFour(c, n, rest);
      assert (Repeat(c, n) + rest)[1..] == Repeat(c, n - 1) + rest;
      UnpackOne(Repeat(c, n) + rest, Repeat(c, n - 1) + rest);
      UnpackShort(c, n - 1, rest);
      RepeatMore(c, n - 1);
    }
  }

  lemma UnpackLong(c: int, n: nat, rest: seq<int>)
    requires 4 <= n
    ensures Unpacked(Stored(Run(c, n)) + rest) == Repeat(c, n) + Unpacked(rest)
  {
    var s := Stored(Run(c, n)) + rest;
    assert s[4] == n - 4 && s[5..] == rest;
  }

  lemma StoredFirst(runs: seq<Run>)
    requires Apart(runs) && runs != []
    ensures StoredAll(runs) != [] && StoredAll(runs)[0] == runs[0].ch
  {
    assert IsRun(runs[0]);
  }

  /** Unpacking undoes storing. */
  lemma {:induction false} UnpackStored(runs: seq<Run>)
    requires Apart(runs)
    ensures Unpacked(StoredAll(runs)) == Meaning(runs)
  {
    if runs != [] {
      var r, rest := runs[0], runs[1..];
      ApartTail(runs);
      UnpackStored(rest);
      assert ApartAt(runs, 0) && IsRun(r);
      if r.len <= 3 {
        if rest != [] {
          StoredFirst(rest);
        }
        UnpackShort(r.ch, r.len, StoredAll(rest));
      } else {
        UnpackLong(r.ch, r.len, StoredAll(rest));
      }
    }
  }

  // ----- the checksum -----

  /** One byte into the CRC. */
  function CrcByte(table: seq<Word>, crc: Word, ch: int): (r: Word)
    requires |table| == 256 && 0 <= ch < 256
  {
    XorWords(ShiftByte(crc), table[XorBytes(crc / 0x100_0000, ch)])
  }

  ghost function Crc(table: seq<Word>, data: seq<int>): (r: Word)
    requires |table| == 256
  {
    if data == [] then 0xffff_ffff
    else
      var c := data[|data| - 1];
      if 0 <= c < 256 then CrcByte(table, Crc(table, data[..|data| - 1]), c) else 0
  }

  lemma CrcMore(table: seq<Word>, data: seq<int>, c: int)
    requires |table| == 256 && 0 <= c < 256
    ensures Crc(table, data + [c]) == CrcByte(table, Crc(table, data), c)
  {
    assert (data + [c])[..|data|] == data;
  }
}
