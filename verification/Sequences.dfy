/** Sequences back to front. */
module Sequences {
  function Reversed<T>(s: seq<T>): (r: seq<T>)
    ensures |r| == |s|
  {
    seq(|s|, i requires 0 <= i < |s| => s[|s| - 1 - i])
  }

  lemma ReversedSnoc<T>(s: seq<T>, c: T)
    ensures Reversed(s + [c]) == [c] + Reversed(s)
  {
  }
}
