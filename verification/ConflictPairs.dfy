/**
 Conflict candidates: the pairs of requirements at or above a similarity threshold, most similar
 first, thinned greedily so that no requirement takes part in more than `k` of them.
 */
module ConflictPairs {
  import opened Sorting

  type Vector = seq<real>

  /** A requirement; an empty vector stands for a missing embedding. */
  datatype Embedded = Embedded(id: int, vector: Vector)

  datatype Pair = Pair(a: nat, b: nat, idA: int, idB: int, sim: real)

  /** How similar two vectors are; any function. */
  type Similarity = (Vector, Vector) -> real

  function PairOf(reqs: seq<Embedded>, sim: Similarity, i: nat, j: nat): Pair
    requires i < |reqs| && j < |reqs|
  {
    Pair(i, j, reqs[i].id, reqs[j].id, sim(reqs[i].vector, reqs[j].vector))
  }

  predicate Eligible(reqs: seq<Embedded>, sim: Similarity, threshold: real, i: nat, j: nat)
    requires i < |reqs| && j < |reqs|
  {
    reqs[i].vector != [] && reqs[j].vector != [] && sim(reqs[i].vector, reqs[j].vector) >= threshold
  }

  function RowPairs(reqs: seq<Embedded>, sim: Similarity, threshold: real, i: nat, hi: nat): seq<Pair>
    requires i < |reqs| && hi <= |reqs|
  {
    if hi <= i + 1 then []
    else
      var front := RowPairs(reqs, sim, threshold, i, hi - 1);
      if Eligible(reqs, sim, threshold, i, hi - 1) then front + [PairOf(reqs, sim, i, hi - 1)] else front
  }

  function AllPairs(reqs: seq<Embedded>, sim: Similarity, threshold: real, rows: nat): seq<Pair>
    requires rows <= |reqs|
  {
    if rows == 0 then []
    else AllPairs(reqs, sim, threshold, rows - 1) + RowPairs(reqs, sim, threshold, rows - 1, |reqs|)
  }

  ghost predicate IsEligiblePair(reqs: seq<Embedded>, sim: Similarity, threshold: real, p: Pair, rows: nat) {
    && p.a < p.b < |reqs| && p.a < rows
    && p.idA == reqs[p.a].id && p.idB == reqs[p.b].id && p.sim == sim(reqs[p.a].vector, reqs[p.b].vector)
    && reqs[p.a].vector != [] && reqs[p.b].vector != [] && p.sim >= threshold
  }

  lemma {:induction false} RowPairsExact(reqs: seq<Embedded>, sim: Similarity, threshold: real, i: nat, hi: nat)
    requires i < |reqs| && hi <= |reqs|
    ensures forall p :: p in RowPairs(reqs, sim, threshold, i, hi) <==> p.a == i && p.b < hi && IsEligiblePair(reqs, sim, threshold, p, i + 1)
  {
    if hi > i + 1 {
      RowPairsExact(reqs, sim, threshold, i, hi - 1);
    }
  }

  /** The pairs are those at or above the threshold, both sides embedded, each taken once from the upper triangle. */
  lemma {:induction false} AllPairsExact(reqs: seq<Embedded>, sim: Similarity, threshold: real, rows: nat)
    requires rows <= |reqs|
    ensures forall p :: p in AllPairs(reqs, sim, threshold, rows) <==> IsEligiblePair(reqs, sim, threshold, p, rows)
  {
    if rows > 0 {
      AllPairsExact(reqs, sim, threshold, rows - 1);
      RowPairsExact(reqs, sim, threshold, rows - 1, |reqs|);
      hide AllPairs, RowPairs, Eligible;
      var front, row := AllPairs(reqs, sim, threshold, rows - 1), RowPairs(reqs, sim, threshold, rows - 1, |reqs|);
      assert AllPairs(reqs, sim, threshold, rows) == front + row by {
        AllPairsUnfolds(reqs, sim, threshold, rows);
      }
    }
  }

  lemma AllPairsUnfolds(reqs: seq<Embedded>, sim: Similarity, threshold: real, rows: nat)
    requires 0 < rows <= |reqs|
    ensures AllPairs(reqs, sim, threshold, rows) ==
      AllPairs(reqs, sim, threshold, rows - 1) + RowPairs(reqs, sim, threshold, rows - 1, |reqs|)
  {
  }

  predicate Before(p: Pair, q: Pair) {
    p.a < q.a || (p.a == q.a && p.b < q.b)
  }

  ghost predicate RowByRow(pairs: seq<Pair>) {
    forall m, n :: 0 <= m < n < |pairs| ==> Before(pairs[m], pairs[n])
  }

  lemma {:induction false} RowInOrder(reqs: seq<Embedded>, sim: Similarity, threshold: real, i: nat, hi: nat)
    requires i < |reqs| && hi <= |reqs|
    ensures RowByRow(RowPairs(reqs, sim, threshold, i, hi))
  {
    if hi > i + 1 {
      RowInOrder(reqs, sim, threshold, i, hi - 1);
      RowPairsExact(reqs, sim, threshold, i, hi - 1);
    }
  }

  /** The pairs are offered row by row, and sorting leaves pairs of equal similarity in that order. */
  lemma {:induction false} PairsInOrder(reqs: seq<Embedded>, sim: Similarity, threshold: real, rows: nat)
    requires rows <= |reqs|
    ensures RowByRow(AllPairs(reqs, sim, threshold, rows))
    ensures IsStableSortOf(RankedPairs(reqs, sim, threshold), AllPairs(reqs, sim, threshold, |reqs|), MoreSimilar)
  {
    SortIsStableSort(AllPairs(reqs, sim, threshold, |reqs|), MoreSimilar);
    if rows > 0 {
      PairsInOrder(reqs, sim, threshold, rows - 1);
      RowInOrder(reqs, sim, threshold, rows - 1, |reqs|);
      AllPairsExact(reqs, sim, threshold, rows - 1);
      RowPairsExact(reqs, sim, threshold, rows - 1, |reqs|);
      var front, row := AllPairs(reqs, sim, threshold, rows - 1), RowPairs(reqs, sim, threshold, rows - 1, |reqs|);
      RowsJoin(front, row, rows - 1);
    }
  }

  lemma RowsJoin(front: seq<Pair>, row: seq<Pair>, i: nat)
    requires RowByRow(front) && RowByRow(row)
    requires (forall p :: p in front ==> p.a < i) && (forall p :: p in row ==> p.a == i)
    ensures RowByRow(front + row)
  {
  }

  predicate MoreSimilar(p: Pair, q: Pair) {
    p.sim >= q.sim
  }

  /** The eligible pairs, most similar first; ties in the order of the requirements. */
  function RankedPairs(reqs: seq<Embedded>, sim: Similarity, threshold: real): seq<Pair> {
    Sort(AllPairs(reqs, sim, threshold, |reqs|), MoreSimilar)
  }

  lemma RankedPairsExact(reqs: seq<Embedded>, sim: Similarity, threshold: real)
    ensures Ordered(RankedPairs(reqs, sim, threshold), MoreSimilar)
    ensures forall p :: p in RankedPairs(reqs, sim, threshold) <==> IsEligiblePair(reqs, sim, threshold, p, |reqs|)
  {
    AllPairsExact(reqs, sim, threshold, |reqs|);
    SortMembers(AllPairs(reqs, sim, threshold, |reqs|), MoreSimilar);
  }

  // ---------- the greedy choice ----------

  predicate Involves(p: Pair, id: int) {
    p.idA == id || p.idB == id
  }

  /** How many pairs involve the id with at least the similarity. */
  function DegreeAbove(pairs: seq<Pair>, id: int, least: real): nat {
    if pairs == [] then 0
    else DegreeAbove(pairs[..|pairs| - 1], id, least)
         + if Involves(pairs[|pairs| - 1], id) && pairs[|pairs| - 1].sim >= least then 1 else 0
  }

  /** How many pairs involve the id. */
  function Degree(pairs: seq<Pair>, id: int): nat {
    if pairs == [] then 0
    else Degree(pairs[..|pairs| - 1], id) + if Involves(pairs[|pairs| - 1], id) then 1 else 0
  }

  predicate HasRoom(chosen: seq<Pair>, p: Pair, k: int) {
    Degree(chosen, p.idA) < k && Degree(chosen, p.idB) < k
  }

  /** The positions of the pairs that involve the id. */
  ghost function InPairs(pairs: seq<Pair>, id: int): set<nat> {
    set n: nat | n < |pairs| && (pairs[n].idA == id || pairs[n].idB == id)
  }

  lemma {:induction false} DegreeCounts(pairs: seq<Pair>, id: int)
    ensures Degree(pairs, id) == |InPairs(pairs, id)|
  {
    if pairs != [] {
      var front, last := pairs[..|pairs| - 1], pairs[|pairs| - 1];
      DegreeCounts(front, id);
      assert forall n: nat :: n < |front| ==> front[n] == pairs[n];
      var before, after := InPairs(front, id), InPairs(pairs, id);
      if last.idA == id || last.idB == id {
        assert after == before + {|front|};
      } else {
        assert after == before;
      }
    }
  }

  /** Takes each pair in turn whose two requirements have both been taken fewer than `k` times. */
  function Greedy(ranked: seq<Pair>, k: int): seq<Pair> {
    if ranked == [] then []
    else
      var chosen, last := Greedy(ranked[..|ranked| - 1], k), ranked[|ranked| - 1];
      if HasRoom(chosen, last, k) then chosen + [last] else chosen
  }

  function Bound(k: int): nat {
    if k < 0 then 0 else k
  }

  lemma DegreeAppend(pairs: seq<Pair>, p: Pair, id: int)
    ensures Degree(pairs + [p], id) == Degree(pairs, id) + if Involves(p, id) then 1 else 0
  {
    assert (pairs + [p])[..|pairs|] == pairs;
  }

  lemma DegreeAboveAppend(pairs: seq<Pair>, p: Pair, id: int, least: real)
    ensures DegreeAbove(pairs + [p], id, least) == DegreeAbove(pairs, id, least) + if Involves(p, id) && p.sim >= least then 1 else 0
  {
    assert (pairs + [p])[..|pairs|] == pairs;
  }

  /** No requirement is in more than `k` chosen pairs, whichever pairs are offered. */
  lemma {:induction false} NoHotspots(ranked: seq<Pair>, k: int, id: int)
    ensures Degree(Greedy(ranked, k), id) <= Bound(k)
    ensures k >= 0 ==> |InPairs(Greedy(ranked, k), id)| <= k
  {
    DegreeCounts(Greedy(ranked, k), id);
    if ranked != [] {
      var front, last := ranked[..|ranked| - 1], ranked[|ranked| - 1];
      NoHotspots(front, k, id);
      DegreeAppend(Greedy(front, k), last, id);
    }
  }

  lemma {:induction false} GreedyFrom(ranked: seq<Pair>, k: int)
    ensures forall p :: p in Greedy(ranked, k) ==> p in ranked
  {
    if ranked != [] {
      GreedyFrom(ranked[..|ranked| - 1], k);
    }
  }

  /** Where every pair is similar enough, counting only the similar ones changes nothing. */
  lemma {:induction false} AllAbove(pairs: seq<Pair>, id: int, least: real)
    requires forall p :: p in pairs ==> p.sim >= least
    ensures DegreeAbove(pairs, id, least) == Degree(pairs, id)
  {
    if pairs != [] {
      AllAbove(pairs[..|pairs| - 1], id, least);
    }
  }

  /** One of the pair's requirements is in `k` chosen pairs, each at least as similar. */
  ghost predicate CrowdedOut(chosen: seq<Pair>, p: Pair, k: int) {
    DegreeAbove(chosen, p.idA, p.sim) >= k || DegreeAbove(chosen, p.idB, p.sim) >= k
  }

  lemma {:induction false} OmittedAreCrowdedOut(ranked: seq<Pair>, k: int, p: Pair)
    requires Ordered(ranked, MoreSimilar) && p in ranked && p !in Greedy(ranked, k)
    ensures CrowdedOut(Greedy(ranked, k), p, k)
  {
    var front, last := ranked[..|ranked| - 1], ranked[|ranked| - 1];
    var chosen := Greedy(front, k);
    DegreeAboveAppend(chosen, last, p.idA, p.sim);
    DegreeAboveAppend(chosen, last, p.idB, p.sim);
    if p in front {
      assert Ordered(front, MoreSimilar);
      OmittedAreCrowdedOut(front, k, p);
    } else {
      assert p == last;
      GreedyFrom(front, k);
      forall q | q in chosen ensures q.sim >= p.sim {
        var m :| 0 <= m < |front| && front[m] == q;
        assert MoreSimilar(ranked[m], ranked[|ranked| - 1]);
      }
      AllAbove(chosen, p.idA, p.sim);
      AllAbove(chosen, p.idB, p.sim);
    }
  }

  /** The chosen pairs. */
  function Candidates(reqs: seq<Embedded>, sim: Similarity, threshold: real, k: int): seq<Pair> {
    Greedy(RankedPairs(reqs, sim, threshold), k)
  }

  /**
   The chosen pairs are eligible and none is a hotspot; an eligible pair is left out only when one of
   its requirements already has `k` chosen pairs, each at least as similar.
   */
  lemma CandidatesAreFair(reqs: seq<Embedded>, sim: Similarity, threshold: real, k: int)
    ensures var chosen := Candidates(reqs, sim, threshold, k);
      && (forall p :: p in chosen ==> IsEligiblePair(reqs, sim, threshold, p, |reqs|))
      && (forall id :: Degree(chosen, id) <= Bound(k))
      && (forall p :: IsEligiblePair(reqs, sim, threshold, p, |reqs|) && p !in chosen ==> CrowdedOut(chosen, p, k))
  {
    var ranked := RankedPairs(reqs, sim, threshold);
    RankedPairsExact(reqs, sim, threshold);
    GreedyFrom(ranked, k);
    hide RankedPairs, IsEligiblePair, Greedy, Degree;
    forall id ensures Degree(Greedy(ranked, k), id) <= Bound(k) {
      NoHotspots(ranked, k, id);
    }
    forall p | IsEligiblePair(reqs, sim, threshold, p, |reqs|) && p !in Greedy(ranked, k)
      ensures CrowdedOut(Greedy(ranked, k), p, k)
    {
      OmittedAreCrowdedOut(ranked, k, p);
    }
  }

  /** Collects the eligible pairs, sorts them, and takes them greedily with a count for each id. */
  method FindSemanticCandidates(reqs: seq<Embedded>, sim: Similarity, threshold: real, k: int) returns (candidates: seq<Pair>)
    ensures candidates == Candidates(reqs, sim, threshold, k)
  {
    var pairs: seq<Pair> := [];
    for i := 0 to |reqs|
      invariant pairs == AllPairs(reqs, sim, threshold, i)
    {
      if reqs[i].vector == [] {
        EmptyRow(reqs, sim, threshold, i, |reqs|);
        continue;
      }
      var before := pairs;
      for j := i + 1 to |reqs|
        invariant pairs == before + RowPairs(reqs, sim, threshold, i, j)
      {
        if reqs[j].vector == [] {
          continue;
        }
        var s := sim(reqs[i].vector, reqs[j].vector);
        if s >= threshold {
          pairs := pairs + [Pair(i, j, reqs[i].id, reqs[j].id, s)];
        }
      }
    }
    var ranked := Sort(pairs, MoreSimilar);
    candidates := TakeGreedily(ranked, k);
  }

  lemma {:induction false} EmptyRow(reqs: seq<Embedded>, sim: Similarity, threshold: real, i: nat, hi: nat)
    requires i < |reqs| && hi <= |reqs| && reqs[i].vector == []
    ensures RowPairs(reqs, sim, threshold, i, hi) == []
  {
    if hi > i + 1 {
      EmptyRow(reqs, sim, threshold, i, hi - 1);
    }
  }

  function Looked(counts: map<int, int>, id: int): int {
    if id in counts then counts[id] else 0
  }

  method TakeGreedily(ranked: seq<Pair>, k: int) returns (candidates: seq<Pair>)
    ensures candidates == Greedy(ranked, k)
  {
    candidates := [];
    var counts: map<int, int> := map[];
    assert ranked[..0] == [];
    for n := 0 to |ranked|
      invariant candidates == Greedy(ranked[..n], k)
      invariant forall id :: Looked(counts, id) == Degree(candidates, id)
    {
      var p := ranked[n];
      assert ranked[..n + 1][..n] == ranked[..n];
      var countA, countB := Looked(counts, p.idA), Looked(counts, p.idB);
      if countA < k && countB < k {
        forall id ensures Degree(candidates + [p], id) == Degree(candidates, id) + if Involves(p, id) then 1 else 0 {
          DegreeAppend(candidates, p, id);
        }
        counts := counts[p.idA := countA + 1];
        counts := counts[p.idB := countB + 1];
        candidates := candidates + [p];
      }
    }
    assert ranked[..|ranked|] == ranked;
  }
}
