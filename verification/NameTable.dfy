/** `search_name_hashtable`: an open-addressing table that gives every string one index for good. */
module NameTable {
  import opened PrefixCode
  import opened Primes

  type Text = seq<int>
  type Slots = seq<Option<Text>>

  /** How many of the first `m` slots are filled. */
  ghost function Filled(t: Slots, m: nat): (r: nat)
    requires m <= |t|
    ensures r <= m
  {
    if m == 0 then 0 else Filled(t, m - 1) + if t[m - 1].Some? then 1 else 0
  }

  lemma {:induction false} FreeSlot(t: Slots, m: nat) returns (q: nat)
    requires m <= |t| && Filled(t, m) < m
    ensures q < m && t[q].None?
  {
    if t[m - 1].None? {
      q := m - 1;
    } else {
      q := FreeSlot(t, m - 1);
    }
  }

  lemma {:induction false} FilledMore(t: Slots, q: nat, key: Text, m: nat)
    requires q < |t| && t[q].None? && m <= |t|
    ensures Filled(t[q := Some(key)], m) == Filled(t, m) + if q < m then 1 else 0
  {
    if m > 0 {
      FilledMore(t, q, key, m - 1);
    }
  }

  /** Where the probing for a string begins, and how far apart its probes are. */
  datatype Hash = Hash(start: Text -> nat, step: Text -> nat) {
    function Start(key: Text, p: nat): (r: nat)
      requires p >= 2
      ensures r < p
    {
      start(key) % p
    }

    function Step(key: Text, p: nat): (r: nat)
      requires p >= 2
      ensures 1 <= r < p
    {
      1 + step(key) % (p - 1)
    }

    function At(key: Text, p: nat, k: nat): (r: int)
      requires p >= 2
      ensures 0 <= r < p
    {
      Probe(p, Start(key, p), Step(key, p), k)
    }
  }

  /** The first `k` probes for `key` all find other strings. */
  ghost predicate Passed(h: Hash, t: Slots, key: Text, k: nat)
    requires |t| >= 2
  {
    forall j :: 0 <= j < k ==> t[h.At(key, |t|, j)].Some? && t[h.At(key, |t|, j)].value != key
  }

  /** The string in slot `q` is found by probing for it. */
  ghost predicate Findable(h: Hash, t: Slots, q: nat)
    requires |t| >= 2 && q < |t| && t[q].Some?
  {
    exists k: nat :: FoundAt(h, t, q, k)
  }

  ghost predicate FoundAt(h: Hash, t: Slots, q: nat, k: nat)
    requires |t| >= 2 && q < |t| && t[q].Some?
  {
    h.At(t[q].value, |t|, k) == q && Passed(h, t, t[q].value, k)
  }

  ghost predicate AllFindable(h: Hash, t: Slots) {
    |t| >= 2 && forall q :: 0 <= q < |t| && t[q].Some? ==> Findable(h, t, q)
  }

  /** Having passed to an empty slot, the string is nowhere. */
  lemma NotThere(h: Hash, t: Slots, key: Text, k: nat, q: nat)
    requires AllFindable(h, t) && Passed(h, t, key, k) && t[h.At(key, |t|, k)].None? && q < |t|
    ensures t[q] != Some(key)
  {
    assert t[q].Some? ==> Findable(h, t, q);
  }

  /** A string that probing finds is nowhere else. */
  lemma OnlyHere(h: Hash, t: Slots, key: Text, k: nat)
    requires AllFindable(h, t) && Passed(h, t, key, k) && t[h.At(key, |t|, k)] == Some(key)
    ensures forall q :: 0 <= q < |t| && q != h.At(key, |t|, k) ==> t[q] != Some(key)
  {
    forall q | 0 <= q < |t| && q != h.At(key, |t|, k)
      ensures t[q] != Some(key)
    {
      assert t[q].Some? ==> Findable(h, t, q);
    }
  }

  /** A string put where its probing found nothing can be found, and so can all others. */
  lemma StillFindable(h: Hash, t: Slots, key: Text, k: nat)
    requires AllFindable(h, t) && Passed(h, t, key, k) && t[h.At(key, |t|, k)].None?
    ensures AllFindable(h, t[h.At(key, |t|, k) := Some(key)])
  {
    var slot := h.At(key, |t|, k);
    var t' := t[slot := Some(key)];
    forall q | 0 <= q < |t'| && t'[q].Some?
      ensures Findable(h, t', q)
    {
      if q == slot {
        KeptPassed(h, t, t', key, k, slot);
        assert FoundAt(h, t', q, k);
      } else {
        NotThere(h, t, key, k, q);
        var l: nat :| FoundAt(h, t, q, l);
        KeptPassed(h, t, t', t[q].value, l, slot);
        assert FoundAt(h, t', q, l);
      }
    }
  }

  lemma KeptPassed(h: Hash, t: Slots, t': Slots, key: Text, l: nat, slot: nat)
    requires |t| == |t'| >= 2 && slot < |t| && Passed(h, t, key, l) && t[slot].None?
    requires t' == t[slot := t'[slot]]
    ensures Passed(h, t', key, l)
  {
    forall j | 0 <= j < l
      ensures t'[h.At(key, |t'|, j)].Some? && t'[h.At(key, |t'|, j)].value != key
    {
      assert t[h.At(key, |t|, j)].Some?;
    }
  }

  /** A slot at which probing for `key` ends at the latest. */
  lemma Goal(t: Slots, key: Text) returns (q: nat)
    requires Filled(t, |t|) < |t| || exists q :: 0 <= q < |t| && t[q] == Some(key)
    ensures q < |t| && (t[q].None? || t[q] == Some(key))
  {
    if Filled(t, |t|) < |t| {
      q := FreeSlot(t, |t|);
    } else {
      q :| 0 <= q < |t| && t[q] == Some(key);
    }
  }

  class Table {
    const h: Hash
    const slots: array<Option<Text>>

    ghost predicate Valid()
      reads this, slots
    {
      IsPrime(slots.Length) && AllFindable(h, slots[..])
    }

    ghost function Count(): (r: nat)
      reads this, slots
    {
      Filled(slots[..], slots.Length)
    }

    constructor (h: Hash)
      ensures Valid() && Count() == 0 && slots.Length == NAME_TABLE_SIZE && fresh(slots) && this.h == h
      ensures forall q :: 0 <= q < slots.Length ==> slots[q] == None
    {
      this.h := h;
      slots := new Option<Text>[NAME_TABLE_SIZE](i => None);
      new;
      TableSizeIsPrime();
      NothingFilled(slots[..], slots.Length);
    }

    /** `search_name_hashtable`: ends if a slot is free or the string is there; a string that was there keeps its index,
        a new one takes a free slot, and no other slot changes. */
    method Search(key: Text) returns (index: nat)
      requires Valid() && (Count() < slots.Length || exists q :: 0 <= q < slots.Length && slots[q] == Some(key))
      modifies slots
      ensures Valid() && index < slots.Length && slots[index] == Some(key)
      ensures forall q :: 0 <= q < slots.Length && q != index ==> slots[q] == old(slots[q]) && slots[q] != Some(key)
      ensures old(slots[index]).Some? ==> old(slots[index]) == Some(key) && Count() == old(Count())
      ensures old(slots[index]).None? ==> Count() == old(Count()) + 1
    {
      ghost var t: Slots := slots[..];
      var p := slots.Length;
      ghost var goal := Goal(t, key);
      var address, decrement := h.Start(key, p), h.Step(key, p);
      ghost var k: nat := 0;
      ghost var end := ProbesHit(p, address, decrement, goal);
      while slots[address].Some?
        invariant 0 <= address < p && address == h.At(key, p, k) && k <= end && slots[..] == t
        invariant Passed(h, t, key, k)
        decreases end - k
      {
        if slots[address].value == key {
          OnlyHere(h, t, key, k);
          return address;
        }
        var next: int := address - decrement;
        if next < 0 {
          next := next + p;
        }
        k := k + 1;
        address := next;
      }
      forall q | 0 <= q < p
        ensures t[q] != Some(key)
      {
        NotThere(h, t, key, k, q);
      }
      StillFindable(h, t, key, k);
      FilledMore(t, address, key, p);
      slots[address] := Some(key);
      assert slots[..] == t[address := Some(key)];
      index := address;
    }
  }

  lemma {:induction false} NothingFilled(t: Slots, m: nat)
    requires m <= |t| && forall q :: 0 <= q < |t| ==> t[q] == None
    ensures Filled(t, m) == 0
  {
    if m > 0 {
      NothingFilled(t, m - 1);
    }
  }

  // ----- a whole run -----

  ghost function SetOf(keys: seq<Text>): (r: set<Text>) {
    set k | k in keys
  }

  /** `t` holds exactly the strings of `names`, one slot each. */
  ghost predicate Holds(t: Slots, names: set<Text>) {
    && (forall q :: 0 <= q < |t| && t[q].Some? ==> t[q].value in names)
    && (forall x :: x in names ==> exists q :: 0 <= q < |t| && t[q] == Some(x))
    && Filled(t, |t|) == |names|
  }

  lemma HoldsMore(t: Slots, t': Slots, names: set<Text>, key: Text, index: nat)
    requires Holds(t, names) && |t| == |t'| && index < |t| && t'[index] == Some(key)
    requires (forall q :: 0 <= q < |t| && q != index ==> t'[q] == t[q] && t[q] != Some(key))
    requires if t[index].Some? then t[index] == Some(key) && Filled(t', |t|) == Filled(t, |t|)
             else Filled(t', |t|) == Filled(t, |t|) + 1
    ensures Holds(t', names + {key})
  {
    if t[index].Some? {
      assert t[index].value in names;
      assert names + {key} == names;
    } else {
      assert key !in names;
    }
    forall x | x in names + {key}
      ensures exists q :: 0 <= q < |t'| && t'[q] == Some(x)
    {
      if x == key {
        assert t'[index] == Some(x);
      } else {
        var q :| 0 <= q < |t| && t[q] == Some(x);
        assert t'[q] == Some(x);
      }
    }
  }

  lemma SetGrows(keys: seq<Text>, i: nat)
    requires i < |keys|
    ensures SetOf(keys[..i + 1]) == SetOf(keys[..i]) + {keys[i]}
  {
    assert keys[..i + 1] == keys[..i] + [keys[i]];
  }

  /** A string still to come is one of those before or makes them fewer than all. */
  lemma SetPrefix(keys: seq<Text>, i: nat)
    requires i < |keys|
    ensures keys[i] in SetOf(keys[..i]) || |SetOf(keys[..i])| < |SetOf(keys)|
  {
    var rest := SetOf(keys) - SetOf(keys[..i]);
    assert SetOf(keys) == SetOf(keys[..i]) + rest;
    if keys[i] !in SetOf(keys[..i]) {
      assert keys[i] in rest;
    }
  }

  /** One more string; those there already stay where they are. */
  method Add(table: Table, key: Text, ghost names: set<Text>) returns (id: nat)
    requires table.Valid() && Holds(table.slots[..], names) && (|names| < table.slots.Length || key in names)
    modifies table.slots
    ensures table.Valid() && Holds(table.slots[..], names + {key}) && id < table.slots.Length
    ensures table.slots[id] == Some(key)
    ensures forall q :: 0 <= q < table.slots.Length && old(table.slots[q]).Some? ==>
            table.slots[q] == old(table.slots[q])
  {
    ghost var t: Slots := table.slots[..];
    id := table.Search(key);
    HoldsMore(t, table.slots[..], names, key, id);
  }

  /** The next string of the sequence. */
  method AddNext(table: Table, keys: seq<Text>, ids0: seq<nat>, i: nat) returns (ids: seq<nat>)
    requires table.Valid() && i == |ids0| < |keys| && |SetOf(keys)| <= table.slots.Length
    requires Holds(table.slots[..], SetOf(keys[..i])) && Indexed(table.slots[..], keys, ids0)
    modifies table.slots
    ensures table.Valid() && |ids| == i + 1
    ensures Holds(table.slots[..], SetOf(keys[..i + 1])) && Indexed(table.slots[..], keys, ids)
  {
    SetPrefix(keys, i);
    SetGrows(keys, i);
    ghost var t: Slots := table.slots[..];
    var id := Add(table, keys[i], SetOf(keys[..i]));
    IndexedMore(t, table.slots[..], keys, ids0, id);
    ids := ids0 + [id];
  }

  /** Any sequence of no more distinct strings than there are slots: equal indexes exactly for equal strings. */
  method Intern(h: Hash, keys: seq<Text>) returns (ids: seq<nat>)
    requires |SetOf(keys)| <= NAME_TABLE_SIZE
    ensures |ids| == |keys|
    ensures forall i, j :: 0 <= i < |keys| && 0 <= j < |keys| ==> (ids[i] == ids[j] <==> keys[i] == keys[j])
  {
    var table := new Table(h);
    EmptyHolds(table.slots[..]);
    ids := [];
    assert keys[..0] == [] && SetOf([]) == {};
    for i := 0 to |keys|
      invariant |ids| == i && table.Valid() && fresh(table.slots) && table.slots.Length == NAME_TABLE_SIZE
      invariant Holds(table.slots[..], SetOf(keys[..i])) && Indexed(table.slots[..], keys, ids)
    {
      ids := AddNext(table, keys, ids, i);
    }
    OneEach(table.slots[..], keys, ids, table.h);
  }

  lemma EmptyHolds(t: Slots)
    requires forall q :: 0 <= q < |t| ==> t[q] == None
    ensures Holds(t, {})
  {
    NothingFilled(t, |t|);
  }

  /** Every index given so far still has its string. */
  ghost predicate Indexed(t: Slots, keys: seq<Text>, ids: seq<nat>) {
    |ids| <= |keys| && forall j :: 0 <= j < |ids| ==> ids[j] < |t| && t[ids[j]] == Some(keys[j])
  }

  lemma IndexedMore(t: Slots, t': Slots, keys: seq<Text>, ids: seq<nat>, id: nat)
    requires Indexed(t, keys, ids) && |t| == |t'| && (forall q :: 0 <= q < |t| && t[q].Some? ==> t'[q] == t[q])
    requires |ids| < |keys| && id < |t'| && t'[id] == Some(keys[|ids|])
    ensures Indexed(t', keys, ids + [id])
  {
  }

  /** Filled slots that can be found hold different strings. */
  lemma OneEach(t: Slots, keys: seq<Text>, ids: seq<nat>, h: Hash)
    requires AllFindable(h, t) && |ids| == |keys| && Indexed(t, keys, ids)
    ensures forall i, j :: 0 <= i < |keys| && 0 <= j < |keys| ==> (ids[i] == ids[j] <==> keys[i] == keys[j])
  {
    forall i, j | 0 <= i < |keys| && 0 <= j < |keys| && keys[i] == keys[j]
      ensures ids[i] == ids[j]
    {
      var k: nat :| FoundAt(h, t, ids[i], k);
      OnlyHere(h, t, keys[i], k);
    }
  }
}
