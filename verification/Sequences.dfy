/** Sequence functions and equalities. */
module Sequences {
  function Repeat<T>(value: T, count: nat): (s: seq<T>)
    ensures |s| == count && forall i :: 0 <= i < count ==> s[i] == value
  {
    seq(count, _ => value)
  }

  lemma Associates<T>(a: seq<T>, b: seq<T>, c: seq<T>)
    ensures (a + b) + c == a + (b + c)
  {
  }

  lemma HeadTail<T>(s: seq<T>)
    requires s != []
    ensures [s[0]] + s[1..] == s
  {
  }

  lemma FrontLast<T>(s: seq<T>)
    requires s != []
    ensures s[..|s| - 1] + [s[|s| - 1]] == s
  {
  }

  lemma FrontOf<T>(s: seq<T>, last: T)
    ensures (s + [last])[..|s + [last]| - 1] == s
  {
  }

  lemma Slices<T>(s: seq<T>, a: nat, b: nat, c: nat)
    requires a <= b <= c <= |s|
    ensures s[a..b] + s[b..c] == s[a..c]
  {
  }
}
