/** Sequences without repetition, and beginnings of sequences. */
module Sequences {
  ghost predicate NoRepeats<T>(s: seq<T>) {
    forall i, j :: 0 <= i < j < |s| ==> s[i] != s[j]
  }

  /** The first `n` elements, or all of them if there are fewer. */
  function Take<T>(s: seq<T>, n: int): seq<T> {
    if n <= 0 then [] else if n < |s| then s[..n] else s
  }

  /** First occurrences, in order. */
  function Firsts<T(==)>(s: seq<T>): seq<T> {
    if s == [] then []
    else
      var front := Firsts(s[..|s| - 1]);
      if s[|s| - 1] in front then front else front + [s[|s| - 1]]
  }

  lemma {:induction false} FirstsExact<T>(s: seq<T>)
    ensures NoRepeats(Firsts(s))
    ensures forall x :: x in Firsts(s) <==> x in s
    ensures s != [] ==> Firsts(s) != [] && Firsts(s)[0] == s[0]
  {
    if s != [] {
      FirstsExact(s[..|s| - 1]);
      assert s == s[..|s| - 1] + [s[|s| - 1]];
    }
  }
}
