/** Sequences of bytes held as integers. */
module Bytes {

  ghost predicate IsBytes(s: seq<int>) {
    forall i :: 0 <= i < |s| ==> 0 <= s[i] < 256
  }
}
