/** How often a number occurs in a list. */
module Occurrences {

  ghost function Count(list: seq<int>, x: int): (r: nat) {
    if list == [] then 0 else Count(list[..|list| - 1], x) + if list[|list| - 1] == x then 1 else 0
  }

  lemma CountMore(list: seq<int>, y: int, x: int)
    ensures Count(list + [y], x) == Count(list, x) + if y == x then 1 else 0
  {
    assert (list + [y])[..|list|] == list;
  }

  lemma {:induction false} CountJoin(a: seq<int>, b: seq<int>, x: int)
    ensures Count(a + b, x) == Count(a, x) + Count(b, x)
    decreases |b|
  {
    if b == [] {
      assert a + b == a;
    } else {
      var b', y := b[..|b| - 1], b[|b| - 1];
      CountJoin(a, b', x);
      assert a + b == a + b' + [y];
      CountMore(a + b', y, x);
    }
  }

  lemma {:induction false} CountIn(list: seq<int>, x: int)
    ensures Count(list, x) > 0 <==> x in list
    decreases |list|
  {
    if list != [] {
      CountIn(list[..|list| - 1], x);
      assert list == list[..|list| - 1] + [list[|list| - 1]];
    }
  }
}
