/** Sequence helpers shared by the path functions, the directory and the rate limiter. */
module Sequences {

  /** The index of the first `x` in `s`, or -1: the separator search of
      `str.split(sep)`, and the search behind `list.remove` and the name
      lookup of a directory. */
  function FirstIndex<T(==)>(s: seq<T>, x: T): (i: int)
    ensures -1 <= i < |s|
    ensures i >= 0 ==> s[i] == x
    ensures forall k :: 0 <= k < |s| && (i < 0 || k < i) ==> s[k] != x
  {
    if s == [] then -1
    else if s[0] == x then 0
    else
      var i := FirstIndex(s[1..], x);
      if i < 0 then -1 else i + 1
  }

  /** The first `x` in `s` sits at `i` when `s[i]` is `x` and nothing before it is. */
  lemma FirstIndexAt<T>(s: seq<T>, x: T, i: int)
    requires 0 <= i < |s| && s[i] == x
    requires forall k :: 0 <= k < i ==> s[k] != x
    ensures FirstIndex(s, x) == i
  {
  }

  /** Concatenation is associative. */
  lemma ConcatAssoc<T>(a: seq<T>, b: seq<T>, c: seq<T>)
    ensures a + (b + c) == (a + b) + c
  {
  }
}
