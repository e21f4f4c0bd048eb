/** The merge pass on the requirement objects themselves. */
module CanonicalizePass {
  import opened Sequences
  import opened Wrappers
  import opened Requirements
  import opened Connectivity
  import opened Clustering
  import opened Canonicalize
  import opened Sorting

  /** A cluster's representative and merged view depend on its members only. */
  lemma {:induction false} RepLocal(t: Text, u: seq<Req>, w: seq<Req>, c: seq<nat>)
    requires |u| == |w| && InRange(c, |w|)
    requires forall k :: 0 <= k < |c| ==> Core(u[c[k]]) == Core(w[c[k]])
    ensures Rep(t, u, c) == Rep(t, w, c)
  {
    assert Core(u[c[|c| - 1]]) == Core(w[c[|c| - 1]]);
    if |c| > 1 {
      var front := c[..|c| - 1];
      RepLocal(t, u, w, front);
      var best := Rep(t, w, front);
      var k :| 0 <= k < |front| && front[k] == best;
      assert c[k] == best;
    }
  }

  lemma {:induction false} OthersLocal(u: seq<Req>, w: seq<Req>, c: seq<nat>, rep: nat)
    requires |u| == |w| && Within(c, |w|)
    requires forall k :: 0 <= k < |c| && c[k] != rep ==> u[c[k]] == w[c[k]]
    ensures Others(u, c, rep) == Others(w, c, rep)
  {
    if c != [] {
      forall k | 0 <= k < |c[1..]| && c[1..][k] != rep ensures u[c[1..][k]] == w[c[1..][k]] {
        assert c[k + 1] == c[1..][k];
      }
      OthersLocal(u, w, c[1..], rep);
    }
  }

  lemma MergedViewLocal(t: Text, u: seq<Req>, w: seq<Req>, c: seq<nat>)
    requires |u| == |w| && InRange(c, |w|)
    requires forall k :: 0 <= k < |c| ==> u[c[k]] == w[c[k]]
    ensures Rep(t, u, c) == Rep(t, w, c) && MergedView(t, u, c) == MergedView(t, w, c)
  {
    RepLocal(t, u, w, c);
    OthersLocal(u, w, c, Rep(t, w, c));
  }

  lemma {:induction false} OthersCount(v: seq<Req>, c: seq<nat>, rep: nat)
    requires Within(c, |v|) && Ascending(c)
    ensures |Others(v, c, rep)| == |c| - (if rep in c then 1 else 0)
  {
    if c != [] {
      assert c == [c[0]] + c[1..];
      OthersCount(v, c[1..], rep);
    }
  }

  lemma ViewsWrite(before: seq<Req>, after: seq<Req>, rep: nat)
    requires |before| == |after| && rep < |before|
    requires forall i :: 0 <= i < |before| && i != rep ==> before[i] == after[i]
    ensures after == before[rep := after[rep]]
  {
  }

  lemma FoldStep(base: Req, v: seq<Req>, c: seq<nat>, k: nat, rep: nat)
    requires k < |c| && Within(c, |v|)
    ensures Within(c[k..], |v|) && Within(c[k + 1..], |v|)
    ensures c[k] == rep ==> Others(v, c[k..], rep) == Others(v, c[k + 1..], rep)
    ensures c[k] != rep ==> Others(v, c[k..], rep) == [v[c[k]]] + Others(v, c[k + 1..], rep)
    ensures c[k] != rep ==> MergeAll(base, Others(v, c[k..], rep)) == MergeAll(Merge(base, v[c[k]]), Others(v, c[k + 1..], rep))
  {
    hide Merge;
    assert c[k..][0] == c[k] && c[k..][1..] == c[k + 1..];
    assert ([v[c[k]]] + Others(v, c[k + 1..], rep))[1..] == Others(v, c[k + 1..], rep);
  }

  lemma FoldEnd(base: Req, v: seq<Req>, rep: nat)
    ensures Others(v, [], rep) == [] && MergeAll(base, []) == base
  {
  }

  /** Folds every other member of a cluster into its representative. */
  method MergeComponent(t: Text, reqs: seq<Requirement>, c: seq<nat>) returns (rep: nat, merged: nat)
    requires NoRepeats(reqs) && InRange(c, |reqs|) && Ascending(c)
    modifies reqs
    ensures rep == Rep(t, old(Views(reqs)), c) && rep < |reqs|
    ensures Views(reqs) == old(Views(reqs))[rep := MergedView(t, old(Views(reqs)), c)]
    ensures merged == |c| - 1
  {
    hide Merge, Outranks, Ascending, MergeAll, Others;
    ghost var v := Views(reqs);
    OthersCount(v, c, Rep(t, v, c));
    rep := Rep(t, Views(reqs), c);
    merged := 0;
    for k := 0 to |c|
      invariant Views(reqs) == v[rep := reqs[rep].View()]
      invariant Within(c[k..], |v|)
      invariant MergeAll(reqs[rep].View(), Others(v, c[k..], rep)) == MergedView(t, v, c)
      invariant merged + |Others(v, c[k..], rep)| == |Others(v, c, rep)|
    {
      FoldStep(reqs[rep].View(), v, c, k, rep);
      if c[k] != rep {
        assert Views(reqs)[c[k]] == v[c[k]];
        ghost var before := Views(reqs);
        reqs[rep].MergeInto(reqs[c[k]]);
        ViewsWrite(before, Views(reqs), rep);
        merged := merged + 1;
      }
    }
    assert c[|c|..] == [];
    FoldEnd(reqs[rep].View(), v, rep);
  }

  // ---------- all clusters ----------

  /** The first `a` clusters are merged into their representatives; the rest is untouched. */
  ghost predicate MergedUpTo(t: Text, w: seq<Req>, u: seq<Req>, cs: seq<seq<nat>>, a: nat)
    requires AllInRange(cs, |w|)
  {
    && |u| == |w| && a <= |cs|
    && (forall b :: 0 <= b < a ==> u[Rep(t, w, cs[b])] == MergedView(t, w, cs[b]))
    && (forall b, k :: a <= b < |cs| && 0 <= k < |cs[b]| ==> u[cs[b][k]] == w[cs[b][k]])
  }

  lemma OtherClusterMembers(cs: seq<seq<nat>>, n: nat, a: nat, b: nat, i: nat)
    requires IsPartition(cs, n) && a < |cs| && b < |cs| && a != b && i in cs[a]
    ensures i !in cs[b]
  {
  }

  lemma MergedStep(t: Text, w: seq<Req>, u: seq<Req>, cs: seq<seq<nat>>, a: nat)
    requires IsPartition(cs, |w|) && AllInRange(cs, |w|) && a < |cs| && MergedUpTo(t, w, u, cs, a)
    ensures Rep(t, u, cs[a]) == Rep(t, w, cs[a]) < |u|
    ensures MergedView(t, u, cs[a]) == MergedView(t, w, cs[a])
    ensures MergedUpTo(t, w, u[Rep(t, w, cs[a]) := MergedView(t, w, cs[a])], cs, a + 1)
  {
    MergedViewLocal(t, u, w, cs[a]);
    hide IsPartition, MergedView, Rep;
    var rep := Rep(t, w, cs[a]);
    var u' := u[rep := MergedView(t, w, cs[a])];
    forall b | 0 <= b < a ensures Rep(t, w, cs[b]) != rep {
      OtherClusterMembers(cs, |w|, a, b, rep);
      assert Rep(t, w, cs[b]) in cs[b];
    }
    forall b, k | a + 1 <= b < |cs| && 0 <= k < |cs[b]| ensures u'[cs[b][k]] == w[cs[b][k]] {
      OtherClusterMembers(cs, |w|, a, b, rep);
      assert cs[b][k] in cs[b];
    }
  }

  function SumOfSizes(cs: seq<seq<nat>>, k: nat): nat
    requires k <= |cs|
  {
    if k == 0 then 0 else SumOfSizes(cs, k - 1) + |cs[k - 1]|
  }

  ghost function MemberSet(c: seq<nat>): set<nat> {
    set i | i in c
  }

  ghost function FirstMembers(cs: seq<seq<nat>>, k: nat): set<nat>
    requires k <= |cs|
  {
    if k == 0 then {} else FirstMembers(cs, k - 1) + MemberSet(cs[k - 1])
  }

  lemma {:induction false} AscendingSize(c: seq<nat>)
    requires Ascending(c)
    ensures |MemberSet(c)| == |c|
  {
    if c != [] {
      var front, last := c[..|c| - 1], c[|c| - 1];
      AscendingSize(front);
      assert last !in front;
      assert MemberSet(c) == MemberSet(front) + {last} by {
        assert c == front + [last];
      }
    }
  }

  lemma {:induction false} FirstMembersExact(cs: seq<seq<nat>>, k: nat)
    requires k <= |cs|
    ensures forall a, i :: 0 <= a < k && i in cs[a] ==> i in FirstMembers(cs, k)
    ensures forall i :: i in FirstMembers(cs, k) ==> Listed(cs[..k], i)
  {
    if k > 0 {
      FirstMembersExact(cs, k - 1);
      forall i | i in FirstMembers(cs, k) ensures Listed(cs[..k], i) {
        if i in FirstMembers(cs, k - 1) {
          assert Listed(cs[..k - 1], i);
          var a :| 0 <= a < k - 1 && i in cs[..k - 1][a];
          assert i in cs[..k][a];
        } else {
          assert i in cs[..k][k - 1];
        }
      }
    }
  }

  lemma PartAscending(cs: seq<seq<nat>>, n: nat, a: nat)
    requires IsPartition(cs, n) && a < |cs|
    ensures Ascending(cs[a])
  {
  }

  lemma FirstMembersApart(cs: seq<seq<nat>>, n: nat, k: nat)
    requires IsPartition(cs, n) && k < |cs|
    ensures FirstMembers(cs, k) * MemberSet(cs[k]) == {}
  {
    hide IsPartition, FirstMembers;
    FirstMembersExact(cs, k);
    forall i | i in FirstMembers(cs, k) ensures i !in cs[k] {
      assert Listed(cs[..k], i);
      var a :| 0 <= a < k && i in cs[..k][a];
      OtherClusterMembers(cs, n, a, k, i);
    }
  }

  lemma {:induction false} FirstMembersSize(cs: seq<seq<nat>>, n: nat, k: nat)
    requires IsPartition(cs, n) && k <= |cs|
    ensures |FirstMembers(cs, k)| == SumOfSizes(cs, k)
  {
    hide IsPartition, MemberSet, Ascending;
    if k > 0 {
      FirstMembersSize(cs, n, k - 1);
      FirstMembersApart(cs, n, k - 1);
      PartAscending(cs, n, k - 1);
      AscendingSize(cs[k - 1]);
    }
  }

  function Below(n: nat): set<nat> {
    if n == 0 then {} else Below(n - 1) + {n - 1}
  }

  lemma {:induction false} BelowExact(n: nat)
    ensures |Below(n)| == n
    ensures forall i: nat :: i in Below(n) <==> i < n
  {
    if n > 0 {
      BelowExact(n - 1);
    }
  }

  /** The clusters of a partition hold every index once. */
  lemma PartitionSize(cs: seq<seq<nat>>, n: nat)
    requires IsPartition(cs, n)
    ensures SumOfSizes(cs, |cs|) == n
  {
    FirstMembersSize(cs, n, |cs|);
    FirstMembersExact(cs, |cs|);
    BelowExact(n);
    assert cs[..|cs|] == cs;
    forall i: nat ensures i in FirstMembers(cs, |cs|) <==> i in Below(n) {
      if i < n {
        assert Listed(cs, i);
      }
    }
    assert FirstMembers(cs, |cs|) == Below(n);
  }

  method MergeComponents(t: Text, reqs: seq<Requirement>, cs: seq<seq<nat>>) returns (reps: seq<nat>, mergedCount: nat)
    requires NoRepeats(reqs) && IsPartition(cs, |reqs|) && AllInRange(cs, |reqs|)
    modifies reqs
    ensures reps == Reps(t, old(Views(reqs)), cs)
    ensures MergedUpTo(t, old(Views(reqs)), Views(reqs), cs, |cs|)
    ensures mergedCount == |reqs| - |cs|
  {
    hide MergedView, Rep, NoRepeats, MergedUpTo;
    ghost var w := Views(reqs);
    reps, mergedCount := [], 0;
    MergedStart(t, w, cs);
    for a := 0 to |cs|
      invariant MergedUpTo(t, w, Views(reqs), cs, a)
      invariant |reps| == a && forall b :: 0 <= b < a ==> reps[b] == Rep(t, w, cs[b])
      invariant mergedCount == SumOfSizes(cs, a) - a
    {
      MergedStep(t, w, Views(reqs), cs, a);
      var rep, merged := MergeComponent(t, reqs, cs[a]);
      reps := reps + [rep];
      mergedCount := mergedCount + merged;
    }
    PartitionSize(cs, |reqs|);
  }

  lemma MergedStart(t: Text, w: seq<Req>, cs: seq<seq<nat>>)
    requires AllInRange(cs, |w|)
    ensures MergedUpTo(t, w, w, cs, 0)
  {
  }

  // ---------- new ids ----------

  /** Gives each survivor its id and points every old id of its cluster to it. */
  method AssignIds(canonical: seq<Requirement>, oldIds: seq<seq<int>>, renumber: bool) returns (oldToNew: map<int, int>)
    requires NoRepeats(canonical) && |canonical| == |oldIds|
    requires forall a :: 0 <= a < |oldIds| ==> oldIds[a] != []
    modifies canonical
    ensures forall p :: 0 <= p < |canonical| ==>
      canonical[p].View() == old(canonical[p].View()).(id := NewId(oldIds, renumber, p))
    ensures oldToNew == IdMap(oldIds, renumber, |oldIds|)
  {
    oldToNew := map[];
    for p := 0 to |canonical|
      invariant forall q :: 0 <= q < p ==> canonical[q].View() == old(canonical[q].View()).(id := NewId(oldIds, renumber, q))
      invariant forall q :: p <= q < |canonical| ==> canonical[q].View() == old(canonical[q].View())
      invariant oldToNew == IdMap(oldIds, renumber, p)
    {
      var newId := if renumber then p + 1 else oldIds[p][0];
      canonical[p].id := newId;
      ghost var before := oldToNew;
      for k := 0 to |oldIds[p]|
        invariant oldToNew == Point(before, oldIds[p][..k], newId)
      {
        assert oldIds[p][..k + 1][..k] == oldIds[p][..k];
        oldToNew := oldToNew[oldIds[p][k] := newId];
      }
      assert oldIds[p][..|oldIds[p]|] == oldIds[p];
    }
  }

  // ---------- the whole pass ----------

  /** Merged and renumbered survivors are what `Canonical` describes. */
  lemma PassIsCanonical(t: Text, v: seq<Req>, w: seq<Req>, u: seq<Req>, cs: seq<seq<nat>>, out: seq<Req>, renumber: bool)
    requires cs == ComponentsOf(MergeEdges(t, v), |v|) && IsPartition(cs, |v|) && AllInRange(cs, |v|)
    requires SameCores(w, v) && MergedUpTo(t, w, u, cs, |cs|)
    requires OrderBy(Reps(t, w, cs)) == OrderBy(Reps(t, v, cs)) && |OrderBy(Reps(t, v, cs))| == |cs|
    requires forall p :: 0 <= p < |cs| ==> OrderBy(Reps(t, v, cs))[p] < |cs|
    requires AllInRange(Arranged(t, v), |v|)
    requires |out| == |cs| == |Arranged(t, v)|
    requires forall p :: 0 <= p < |cs| ==> Arranged(t, v)[p] == cs[OrderBy(Reps(t, v, cs))[p]]
    requires forall p :: 0 <= p < |cs| ==>
      out[p] == u[Rep(t, w, cs[OrderBy(Reps(t, v, cs))[p]])].(id := NewId(OldIds(v, Arranged(t, v)), renumber, p))
    ensures out == Survivors(t, v, w, Arranged(t, v), renumber)
  {
    SameCoresShape(w, v);
    hide Arranged, ComponentsOf, IsPartition, SameCores, MergedView, Rep, OrderBy;
    var r := Survivors(t, v, w, Arranged(t, v), renumber);
    var order := OrderBy(Reps(t, v, cs));
    forall p | 0 <= p < |cs| ensures out[p] == r[p] {
      assert u[Rep(t, w, cs[order[p]])] == MergedView(t, w, cs[order[p]]);
    }
  }

  lemma RepsLocal(t: Text, v: seq<Req>, w: seq<Req>, cs: seq<seq<nat>>)
    requires SameCores(w, v) && AllInRange(cs, |v|)
    ensures Reps(t, w, cs) == Reps(t, v, cs)
  {
    forall a | 0 <= a < |cs| ensures Rep(t, w, cs[a]) == Rep(t, v, cs[a]) {
      RepLocal(t, w, v, cs[a]);
    }
  }

  lemma ArrangedIs(t: Text, v: seq<Req>, cs: seq<seq<nat>>)
    requires cs == ComponentsOf(MergeEdges(t, v), |v|)
    ensures IsPartition(cs, |v|) && AllInRange(cs, |v|)
    ensures var order := OrderBy(Reps(t, v, cs));
      && IsPermutationOf(order, |cs|) && |Arranged(t, v)| == |cs|
      && AllInRange(Arranged(t, v), |v|)
      && forall p :: 0 <= p < |cs| ==> Arranged(t, v)[p] == cs[order[p]]
  {
    ComponentsPartition(MergeEdges(t, v), |v|);
    PartitionInRange(cs, |v|);
    OrderByPermutes(Reps(t, v, cs));
    PartitionInRange(Arranged(t, v), |v|);
  }

  lemma DistinctSelection(reqs: seq<Requirement>, picks: seq<nat>, selected: seq<Requirement>)
    requires NoRepeats(reqs) && |picks| == |selected|
    requires forall a, b :: 0 <= a < b < |picks| ==> picks[a] != picks[b]
    requires forall a :: 0 <= a < |picks| ==> picks[a] < |reqs| && selected[a] == reqs[picks[a]]
    ensures NoRepeats(selected)
  {
  }

  lemma RepsDistinct(t: Text, w: seq<Req>, cs: seq<seq<nat>>)
    requires IsPartition(cs, |w|) && AllInRange(cs, |w|)
    ensures forall a, b :: 0 <= a < b < |cs| ==> Rep(t, w, cs[a]) != Rep(t, w, cs[b])
    ensures forall a :: 0 <= a < |cs| ==> Rep(t, w, cs[a]) < |w|
  {
    hide IsPartition;
    forall a, b | 0 <= a < b < |cs| ensures Rep(t, w, cs[a]) != Rep(t, w, cs[b]) {
      OtherClusterMembers(cs, |w|, a, b, Rep(t, w, cs[a]));
    }
    forall a | 0 <= a < |cs| ensures Rep(t, w, cs[a]) < |w| {
      var rep := Rep(t, w, cs[a]);
      var k :| 0 <= k < |cs[a]| && cs[a][k] == rep;
    }
  }

  /** The representatives in order of position, and the original ids each of them stands for. */
  method Collect(t: Text, reqs: seq<Requirement>, originals: seq<Req>, cs: seq<seq<nat>>, reps: seq<nat>)
    returns (canonical: seq<Requirement>, oldIds: seq<seq<int>>)
    requires NoRepeats(reqs) && |originals| == |reqs| && IsPartition(cs, |reqs|) && AllInRange(cs, |reqs|)
    requires reps == Reps(t, originals, cs)
    ensures |canonical| == |oldIds| == |cs| == |OrderBy(reps)| && NoRepeats(canonical)
    ensures forall p :: 0 <= p < |cs| ==> OrderBy(reps)[p] < |cs| && oldIds[p] == IdsOf(originals, cs[OrderBy(reps)[p]])
    ensures forall p :: 0 <= p < |cs| ==> reps[OrderBy(reps)[p]] < |reqs| && canonical[p] == reqs[reps[OrderBy(reps)[p]]]
  {
    OrderByPermutes(reps);
    RepsDistinct(t, originals, cs);
    hide IsPartition, Rep, OrderBy;
    var order := OrderBy(reps);
    ghost var picks := seq(|order|, p requires 0 <= p < |order| => reps[order[p]]);
    canonical := seq(|order|, p requires 0 <= p < |order| => reqs[reps[order[p]]]);
    oldIds := seq(|order|, p requires 0 <= p < |order| => IdsOf(originals, cs[order[p]]));
    DistinctSelection(reqs, picks, canonical);
  }

  /** Collects the survivors of merged clusters in order and renumbers them. */
  method Renumber(t: Text, reqs: seq<Requirement>, originals: seq<Req>, ghost w: seq<Req>, cs: seq<seq<nat>>, reps: seq<nat>, renumber: bool)
    returns (canonical: seq<Requirement>, oldToNew: map<int, int>)
    requires NoRepeats(reqs) && |reqs| == |originals| && SameCores(w, originals)
    requires cs == ComponentsOf(MergeEdges(t, originals), |originals|)
    requires AllInRange(cs, |w|) && AllInRange(cs, |originals|) && reps == Reps(t, w, cs)
    requires MergedUpTo(t, w, Views(reqs), cs, |cs|)
    modifies reqs
    ensures NoRepeats(canonical) && forall r :: r in canonical ==> r in reqs
    ensures AllInRange(Arranged(t, originals), |originals|) && |Arranged(t, originals)| == |cs|
    ensures Views(canonical) == Survivors(t, originals, w, Arranged(t, originals), renumber)
    ensures oldToNew == IdMap(OldIds(originals, Arranged(t, originals)), renumber, |cs|)
  {
    hide NoRepeats, Arranged, ComponentsOf, IsPartition, SameCores, MergedUpTo, Survivors, OrderBy, Rep, MergedView, MergeEdges, OldIds, NewId, IdMap;
    ArrangedIs(t, originals, cs);
    RepsLocal(t, originals, w, cs);
    ghost var u := Views(reqs);
    var oldIds;
    canonical, oldIds := Collect(t, reqs, originals, cs, reps);
    OldIdsAre(originals, Arranged(t, originals), oldIds);
    ghost var before := Views(canonical);
    oldToNew := AssignIds(canonical, oldIds, renumber);
    forall p | 0 <= p < |canonical|
      ensures canonical[p].View() == u[reps[OrderBy(reps)[p]]].(id := NewId(oldIds, renumber, p))
    {
      assert before[p] == u[reps[OrderBy(reps)[p]]];
    }
    PassIsCanonical(t, originals, w, u, cs, Views(canonical), renumber);
  }

  /** Merges every cluster, collects the survivors in order and renumbers them. */
  method MergeAndRenumber(t: Text, reqs: seq<Requirement>, originals: seq<Req>, cs: seq<seq<nat>>, reassign: bool)
    returns (canonical: seq<Requirement>, mergedCount: int, oldToNew: map<int, int>)
    requires NoRepeats(reqs) && |reqs| == |originals| && SameCores(Views(reqs), originals)
    requires cs == ComponentsOf(MergeEdges(t, originals), |originals|)
    modifies reqs
    ensures NoRepeats(canonical) && forall r :: r in canonical ==> r in reqs
    ensures AllInRange(Arranged(t, originals), |originals|) && |Arranged(t, originals)| == |cs|
    ensures mergedCount == |reqs| - |cs|
    ensures Views(canonical) == Survivors(t, originals, old(Views(reqs)), Arranged(t, originals), reassign || mergedCount > 0)
    ensures oldToNew == IdMap(OldIds(originals, Arranged(t, originals)), reassign || mergedCount > 0, |cs|)
  {
    hide NoRepeats, Arranged, ComponentsOf, IsPartition, SameCores, MergedUpTo, Survivors, OrderBy, Rep, MergedView, MergeEdges, OldIds;
    ghost var w := Views(reqs);
    ArrangedIs(t, originals, cs);
    var reps;
    reps, mergedCount := MergeComponents(t, reqs, cs);
    canonical, oldToNew := Renumber(t, reqs, originals, w, cs, reps, reassign || mergedCount > 0);
  }

  /** Canonicalizes the requirements in place and returns the survivors with the id mapping. */
  method CanonicalizeRequirements(t: Text, reqs: seq<Requirement>, reassign: bool)
    returns (canonical: seq<Requirement>, mergedCount: int, oldToNew: map<int, int>, reviewIds: seq<int>)
    requires NoRepeats(reqs)
    modifies reqs
    ensures NoRepeats(canonical) && forall r :: r in canonical ==> r in reqs
    ensures Outcome(Views(canonical), mergedCount, oldToNew, reviewIds) == Canonical(t, old(Views(reqs)), reassign)
  {
    hide NoRepeats, Arranged, ComponentsOf, SameCores, Survivors, FlagFrom, MergeEdges, OldIds;
    var originals := Views(reqs);
    if |reqs| <= 1 {
      canonical, mergedCount, reviewIds := reqs, 0, [];
      oldToNew := map i | 0 <= i < |reqs| :: originals[i].id := originals[i].id;
    } else {
      var components;
      components, reviewIds := CanonicalComponents(t, reqs);
      FlagFromKeeps(t, originals, 0);
      canonical, mergedCount, oldToNew := MergeAndRenumber(t, reqs, originals, components, reassign);
    }
  }

  lemma OldIdsAre(v: seq<Req>, cs: seq<seq<nat>>, oldIds: seq<seq<int>>)
    requires AllInRange(cs, |v|) && |oldIds| == |cs|
    requires forall p :: 0 <= p < |cs| ==> oldIds[p] == IdsOf(v, cs[p])
    ensures oldIds == OldIds(v, cs)
    ensures forall p :: 0 <= p < |cs| ==> oldIds[p] != []
  {
  }
}
