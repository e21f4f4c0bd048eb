/**
 The word error count of the speech evaluation: a table filled cell by cell, against the length
 of the shortest script of single-word insertions, deletions and substitutions.
 */
module EditDistance {

  type Words = seq<string>

  // ---------- scripts of single edits ----------

  /** `y` is `x` with one word inserted, deleted or substituted somewhere. */
  ghost predicate OneEdit(x: Words, y: Words) {
    exists p: Words, u: Words, v: Words, q: Words ::
      |u| <= 1 && |v| <= 1 && u != v && EditAt(x, y, p, u, v, q)
  }

  predicate EditAt(x: Words, y: Words, p: Words, u: Words, v: Words, q: Words) {
    x == p + u + q && y == p + v + q
  }

  /** A script from `a` to `b`: a sequence of texts, each one edit away from the last. */
  ghost predicate IsScript(s: seq<Words>, a: Words, b: Words) {
    |s| > 0 && s[0] == a && s[|s| - 1] == b && forall k :: 0 <= k < |s| - 1 ==> OneEdit(s[k], s[k + 1])
  }

  /** The number of edits in a script. */
  function Edits(s: seq<Words>): nat
    requires |s| > 0
  {
    |s| - 1
  }

  // ---------- the distance ----------

  function Min3(a: nat, b: nat, c: nat): nat {
    if a <= b && a <= c then a else if b <= c then b else c
  }

  function Front(a: Words): Words
    requires a != []
  {
    a[..|a| - 1]
  }

  function Last(a: Words): string
    requires a != []
  {
    a[|a| - 1]
  }

  /** The recurrence of the table, on prefixes. */
  function Distance(a: Words, b: Words): nat
    decreases |a| + |b|
  {
    if a == [] then |b|
    else if b == [] then |a|
    else if Last(a) == Last(b) then Distance(Front(a), Front(b))
    else 1 + Min3(Distance(Front(a), b), Distance(a, Front(b)), Distance(Front(a), Front(b)))
  }

  // ---------- the distance is a metric ----------

  lemma {:induction false} DistanceSymmetric(a: Words, b: Words)
    ensures Distance(a, b) == Distance(b, a)
    decreases |a| + |b|
  {
    if a != [] && b != [] {
      DistanceSymmetric(Front(a), Front(b));
      DistanceSymmetric(Front(a), b);
      DistanceSymmetric(a, Front(b));
    }
  }

  /** Neighbouring cells of the table differ by one at most. */
  lemma {:induction false} Neighbours(a: Words, b: Words)
    ensures a != [] ==> Distance(a, b) <= Distance(Front(a), b) + 1 && Distance(Front(a), b) <= Distance(a, b) + 1
    ensures b != [] ==> Distance(a, b) <= Distance(a, Front(b)) + 1 && Distance(a, Front(b)) <= Distance(a, b) + 1
    decreases |a| + |b|
  {
    if a != [] && b != [] {
      Neighbours(Front(a), b);
      Neighbours(a, Front(b));
    }
  }

  function DiagonalCost(a: Words, b: Words): nat
    requires a != [] && b != []
  {
    if Last(a) == Last(b) then 0 else 1
  }

  lemma CellUnfolds(a: Words, b: Words)
    requires a != [] && b != []
    ensures Last(a) == Last(b) ==> Distance(a, b) == Distance(Front(a), Front(b))
    ensures Last(a) != Last(b) ==>
      Distance(a, b) == 1 + Min3(Distance(Front(a), b), Distance(a, Front(b)), Distance(Front(a), Front(b)))
  {
  }

  /** Whichever of the three moves is taken, the cell is at most its cost; one of them attains it. */
  lemma CellIsCheapestMove(a: Words, b: Words)
    requires a != [] && b != []
    ensures Distance(a, b) <= 1 + Distance(Front(a), b)
    ensures Distance(a, b) <= 1 + Distance(a, Front(b))
    ensures Distance(a, b) <= DiagonalCost(a, b) + Distance(Front(a), Front(b))
    ensures || Distance(a, b) == 1 + Distance(Front(a), b)
            || Distance(a, b) == 1 + Distance(a, Front(b))
            || Distance(a, b) == DiagonalCost(a, b) + Distance(Front(a), Front(b))
  {
    CellUnfolds(a, b);
    Neighbours(Front(a), b);
    Neighbours(a, Front(b));
    hide Distance;
  }

  lemma {:induction false} DistanceZero(a: Words, b: Words)
    ensures Distance(a, b) == 0 <==> a == b
    decreases |a| + |b|
  {
    if a != [] && b != [] {
      DistanceZero(Front(a), Front(b));
      assert a == Front(a) + [Last(a)] && b == Front(b) + [Last(b)];
    }
  }

  lemma {:induction false} LengthGap(a: Words, b: Words)
    ensures Distance(a, b) >= |a| - |b| && Distance(a, b) >= |b| - |a|
    decreases |a| + |b|
  {
    if a != [] && b != [] {
      LengthGap(Front(a), b);
      LengthGap(a, Front(b));
      LengthGap(Front(a), Front(b));
    }
  }

  lemma {:induction false} Triangle(a: Words, b: Words, c: Words)
    ensures Distance(a, c) <= Distance(a, b) + Distance(b, c)
    decreases |a| + |b| + |c|
  {
    if a == [] {
      LengthGap(b, c);
    } else if c == [] {
      LengthGap(a, b);
    } else if b == [] {
      Through(a, c);
    } else {
      hide Distance;
      CellIsCheapestMove(a, b);
      CellIsCheapestMove(b, c);
      CellIsCheapestMove(a, c);
      Triangle(Front(a), b, c);
      Triangle(a, b, Front(c));
      Triangle(Front(a), Front(b), c);
      Triangle(a, Front(b), Front(c));
      Triangle(a, Front(b), c);
      Triangle(Front(a), Front(b), Front(c));
    }
  }

  /** Deleting everything and inserting everything is always a way. */
  lemma {:induction false} Through(a: Words, c: Words)
    ensures Distance(a, c) <= |a| + |c|
    decreases |a| + |c|
  {
    if a != [] && c != [] {
      Through(Front(a), Front(c));
    }
  }

  // ---------- the distance is the shortest script ----------

  lemma {:induction false} AppendBoth(a: Words, b: Words, q: Words)
    ensures Distance(a + q, b + q) <= Distance(a, b)
    decreases |q|
  {
    if q == [] {
      assert a + q == a && b + q == b;
    } else {
      AppendBoth(a, b, Front(q));
      assert Front(a + q) == a + Front(q) && Front(b + q) == b + Front(q);
    }
  }

  lemma LastWordCostsOne(p: Words, u: Words, v: Words)
    requires |u| <= 1 && |v| <= 1
    ensures Distance(p + u, p + v) <= 1
  {
    hide Distance;
    DistanceZero(p, p);
    assert u != [] ==> Front(p + u) == p;
    assert v != [] ==> Front(p + v) == p;
    assert u == [] ==> p + u == p;
    assert v == [] ==> p + v == p;
    if u != [] && v != [] {
      CellIsCheapestMove(p + u, p + v);
    } else {
      Neighbours(p + u, p + v);
    }
  }

  lemma OneEditCostsOne(x: Words, y: Words)
    requires OneEdit(x, y)
    ensures Distance(x, y) <= 1
  {
    hide Distance;
    var p: Words, u: Words, v: Words, q: Words :| |u| <= 1 && |v| <= 1 && u != v && EditAt(x, y, p, u, v, q);
    AppendBoth(p + u, p + v, q);
    LastWordCostsOne(p, u, v);
  }

  /** No script is shorter than the distance. */
  lemma {:induction false} ScriptNotShorter(s: seq<Words>, a: Words, b: Words)
    requires IsScript(s, a, b)
    ensures Distance(a, b) <= Edits(s)
  {
    if |s| == 1 {
      DistanceZero(a, b);
    } else {
      assert OneEdit(s[0], s[0 + 1]);
      OneEditCostsOne(s[0], s[1]);
      var rest := s[1..];
      forall k | 0 <= k < |rest| - 1 ensures OneEdit(rest[k], rest[k + 1]) {
        assert OneEdit(s[k + 1], s[k + 1 + 1]);
      }
      ScriptNotShorter(rest, s[1], b);
      Triangle(a, s[1], b);
    }
  }

  /** A script with the same word appended to every text. */
  function Appended(s: seq<Words>, w: string): (r: seq<Words>)
    ensures |r| == |s| && forall k :: 0 <= k < |r| ==> r[k] == s[k] + [w]
  {
    seq(|s|, k requires 0 <= k < |s| => s[k] + [w])
  }

  lemma AppendedScript(s: seq<Words>, a: Words, b: Words, w: string)
    requires IsScript(s, a, b)
    ensures IsScript(Appended(s, w), a + [w], b + [w])
  {
    var r := Appended(s, w);
    forall k | 0 <= k < |r| - 1 ensures OneEdit(r[k], r[k + 1]) {
      assert OneEdit(s[k], s[k + 1]);
      var p: Words, u: Words, v: Words, q: Words :| |u| <= 1 && |v| <= 1 && u != v && EditAt(s[k], s[k + 1], p, u, v, q);
      assert EditAt(r[k], r[k + 1], p, u, v, q + [w]);
    }
  }

  lemma ExtendScript(s: seq<Words>, a: Words, b: Words, c: Words)
    requires IsScript(s, a, b) && OneEdit(b, c)
    ensures IsScript(s + [c], a, c)
  {
    var r := s + [c];
    forall k | 0 <= k < |r| - 1 ensures OneEdit(r[k], r[k + 1]) {
      if k < |s| - 1 {
        assert OneEdit(s[k], s[k + 1]);
      }
    }
  }

  lemma PrependScript(s: seq<Words>, a: Words, b: Words, c: Words)
    requires OneEdit(a, b) && IsScript(s, b, c)
    ensures IsScript([a] + s, a, c)
  {
    var r := [a] + s;
    forall k | 0 <= k < |r| - 1 ensures OneEdit(r[k], r[k + 1]) {
      if k > 0 {
        assert OneEdit(s[k - 1], s[k - 1 + 1]);
      }
    }
  }

  lemma Deletes(a: Words)
    requires a != []
    ensures OneEdit(a, Front(a)) && OneEdit(Front(a), a)
  {
    assert a == Front(a) + [Last(a)] + [] && Front(a) == Front(a) + [] + [];
    assert EditAt(a, Front(a), Front(a), [Last(a)], [], []);
    assert EditAt(Front(a), a, Front(a), [], [Last(a)], []);
  }

  lemma Substitutes(p: Words, v: string, w: string)
    requires v != w
    ensures OneEdit(p + [v], p + [w])
  {
    assert p + [v] == p + [v] + [] && p + [w] == p + [w] + [];
    assert EditAt(p + [v], p + [w], p, [v], [w], []);
  }

  /** Some script is exactly as long as the distance. */
  lemma {:induction false} ScriptAttains(a: Words, b: Words) returns (s: seq<Words>)
    ensures IsScript(s, a, b) && Edits(s) == Distance(a, b)
    decreases |a| + |b|
  {
    hide OneEdit;
    if a == [] && b == [] {
      s := [a];
    } else if b == [] || (a != [] && Distance(a, b) == 1 + Distance(Front(a), b)) {
      s := ScriptAttains(Front(a), b);
      Deletes(a);
      PrependScript(s, a, Front(a), b);
      s := [a] + s;
      assert b == [] ==> Distance(Front(a), b) == |a| - 1;
    } else if a == [] || Distance(a, b) == 1 + Distance(a, Front(b)) {
      s := ScriptAttains(a, Front(b));
      Deletes(b);
      ExtendScript(s, a, Front(b), b);
      s := s + [b];
    } else {
      CellIsCheapestMove(a, b);
      s := DiagonalScript(a, b);
    }
  }

  lemma {:induction false} DiagonalScript(a: Words, b: Words) returns (s: seq<Words>)
    requires a != [] && b != [] && Distance(a, b) == DiagonalCost(a, b) + Distance(Front(a), Front(b))
    ensures IsScript(s, a, b) && Edits(s) == Distance(a, b)
    decreases |a| + |b|, 0
  {
    hide OneEdit, Distance;
    s := ScriptAttains(Front(a), Front(b));
    AppendedScript(s, Front(a), Front(b), Last(a));
    s := Appended(s, Last(a));
    assert a == Front(a) + [Last(a)] && b == Front(b) + [Last(b)];
    if Last(a) != Last(b) {
      Substitutes(Front(b), Last(a), Last(b));
      ExtendScript(s, a, Front(b) + [Last(a)], b);
      s := s + [b];
    }
  }

  /** The distance is the length of a shortest script. */
  lemma DistanceIsShortestScript(a: Words, b: Words)
    ensures exists s :: IsScript(s, a, b) && Edits(s) == Distance(a, b)
    ensures forall s :: IsScript(s, a, b) ==> Distance(a, b) <= Edits(s)
  {
    var s := ScriptAttains(a, b);
    forall s | IsScript(s, a, b) ensures Distance(a, b) <= Edits(s) {
      ScriptNotShorter(s, a, b);
    }
  }

  // ---------- the table ----------

  lemma CellFromNeighbours(a: Words, b: Words, i: nat, j: nat)
    requires 1 <= i <= |a| && 1 <= j <= |b|
    ensures Distance(a[..i], b[..j]) ==
      if a[i - 1] == b[j - 1] then Distance(a[..i - 1], b[..j - 1])
      else 1 + Min3(Distance(a[..i - 1], b[..j]), Distance(a[..i], b[..j - 1]), Distance(a[..i - 1], b[..j - 1]))
  {
    assert Front(a[..i]) == a[..i - 1] && Front(b[..j]) == b[..j - 1];
  }

  lemma EdgeCells(a: Words, b: Words)
    ensures forall i :: 0 <= i <= |a| ==> Distance(a[..i], b[..0]) == i
    ensures forall j :: 0 <= j <= |b| ==> Distance(a[..0], b[..j]) == j
  {
  }

  /** Word errors between a reference and a hypothesis transcript. */
  method WordErrors(reference: Words, hypothesis: Words) returns (errors: int)
    ensures errors == Distance(reference, hypothesis)
    ensures exists s :: IsScript(s, reference, hypothesis) && Edits(s) == errors
    ensures forall s :: IsScript(s, reference, hypothesis) ==> errors <= Edits(s)
  {
    hide Distance, IsScript;
    var n, m := |reference|, |hypothesis|;
    EdgeCells(reference, hypothesis);
    var d := new int[n + 1, m + 1]((_, _) => 0);
    for i := 0 to n + 1
      invariant forall x :: 0 <= x < i ==> d[x, 0] == x
    {
      d[i, 0] := i;
    }
    for j := 0 to m + 1
      invariant forall x :: 0 <= x <= n && (x > 0 || j == 0) ==> d[x, 0] == x
      invariant j > 0 ==> d[0, 0] == 0
      invariant forall y :: 0 <= y < j ==> d[0, y] == y
    {
      d[0, j] := j;
    }
    for i := 1 to n + 1
      invariant forall x :: 0 <= x <= n ==> d[x, 0] == x
      invariant forall x, y :: 0 <= x < i && 0 <= y <= m ==> d[x, y] == Distance(reference[..x], hypothesis[..y])
    {
      for j := 1 to m + 1
        invariant forall x :: 0 <= x <= n ==> d[x, 0] == x
        invariant forall x, y :: 0 <= x < i && 0 <= y <= m ==> d[x, y] == Distance(reference[..x], hypothesis[..y])
        invariant forall y :: 0 <= y < j ==> d[i, y] == Distance(reference[..i], hypothesis[..y])
      {
        CellFromNeighbours(reference, hypothesis, i, j);
        if reference[i - 1] == hypothesis[j - 1] {
          d[i, j] := d[i - 1, j - 1];
        } else {
          d[i, j] := 1 + Min3(d[i - 1, j], d[i, j - 1], d[i - 1, j - 1]);
        }
      }
    }
    errors := d[n, m];
    assert reference[..n] == reference && hypothesis[..m] == hypothesis;
    DistanceIsShortestScript(reference, hypothesis);
  }
}
