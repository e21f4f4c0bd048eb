/**
 Merging each cluster of duplicates into its most informative member, in place, and
 renumbering the survivors. `Canonical` is what the pass computes from the values of its
 input; what that means is proved in `CanonicalProperties`.
 */
module Canonicalize {
  import opened Wrappers
  import opened Requirements
  import opened Connectivity
  import opened Clustering
  import opened Sorting

  ghost predicate Within(c: seq<nat>, n: nat) {
    forall k :: 0 <= k < |c| ==> c[k] < n
  }

  ghost predicate InRange(c: seq<nat>, n: nat) {
    c != [] && Within(c, n)
  }

  ghost predicate AllInRange(cs: seq<seq<nat>>, n: nat) {
    forall a {:trigger cs[a]} :: 0 <= a < |cs| ==> InRange(cs[a], n)
  }

  /** The ranking of candidates: meaningful tokens, then text length, then confidence, then position. */
  predicate Outranks(t: Text, v: seq<Req>, i: nat, j: nat)
    requires i < |v| && j < |v|
  {
    var mi, mj := |t.meaningful(v[i].text)|, |t.meaningful(v[j].text)|;
    var li, lj := |v[i].text|, |v[j].text|;
    mi > mj || (mi == mj && (li > lj || (li == lj && (v[i].confidence > v[j].confidence
      || (v[i].confidence == v[j].confidence && i < j)))))
  }

  /** The highest-ranked member. */
  function Rep(t: Text, v: seq<Req>, c: seq<nat>): (r: nat)
    requires InRange(c, |v|)
    ensures r in c
  {
    var last := c[|c| - 1];
    if |c| == 1 then last
    else
      var best := Rep(t, v, c[..|c| - 1]);
      if Outranks(t, v, last, best) then last else best
  }

  lemma {:induction false} RepOutranksAll(t: Text, v: seq<Req>, c: seq<nat>)
    requires InRange(c, |v|)
    ensures forall i :: i in c && i != Rep(t, v, c) ==> Outranks(t, v, Rep(t, v, c), i)
  {
    if |c| > 1 {
      RepOutranksAll(t, v, c[..|c| - 1]);
      assert c == c[..|c| - 1] + [c[|c| - 1]];
    }
  }

  function Others(v: seq<Req>, c: seq<nat>, rep: nat): seq<Req>
    requires Within(c, |v|)
  {
    if c == [] then []
    else (if c[0] == rep then [] else [v[c[0]]]) + Others(v, c[1..], rep)
  }

  /** Folds requirements into `base`, first to last. */
  function MergeAll(base: Req, others: seq<Req>): Req
    decreases others
  {
    if others == [] then base else MergeAll(Merge(base, others[0]), others[1..])
  }

  /** One cluster as a single requirement. */
  function MergedView(t: Text, v: seq<Req>, c: seq<nat>): Req
    requires InRange(c, |v|)
  {
    MergeAll(v[Rep(t, v, c)], Others(v, c, Rep(t, v, c)))
  }

  /** The clusters, arranged by the position of their representatives. */
  ghost function Arranged(t: Text, v: seq<Req>): (r: seq<seq<nat>>)
    ensures IsPartition(r, |v|)
  {
    var cs := ComponentsOf(MergeEdges(t, v), |v|);
    ComponentsPartition(MergeEdges(t, v), |v|);
    ArrangePartition(t, v, cs);
    Arrange(t, v, cs)
  }

  ghost function Reps(t: Text, v: seq<Req>, cs: seq<seq<nat>>): (r: seq<nat>)
    requires AllInRange(cs, |v|)
    ensures |r| == |cs| && forall a :: 0 <= a < |cs| ==> r[a] == Rep(t, v, cs[a])
  {
    seq(|cs|, a requires 0 <= a < |cs| => Rep(t, v, cs[a]))
  }

  ghost function Pick(cs: seq<seq<nat>>, order: seq<nat>): (r: seq<seq<nat>>)
    requires forall a :: 0 <= a < |order| ==> order[a] < |cs|
    ensures |r| == |order| && forall a :: 0 <= a < |r| ==> r[a] == cs[order[a]]
  {
    seq(|order|, a requires 0 <= a < |order| => cs[order[a]])
  }

  ghost function Arrange(t: Text, v: seq<Req>, cs: seq<seq<nat>>): seq<seq<nat>>
    requires IsPartition(cs, |v|)
  {
    PartitionInRange(cs, |v|);
    OrderByPermutes(Reps(t, v, cs));
    Pick(cs, OrderBy(Reps(t, v, cs)))
  }

  lemma PartitionInRange(cs: seq<seq<nat>>, n: nat)
    requires IsPartition(cs, n)
    ensures AllInRange(cs, n)
  {
    forall a, k | 0 <= a < |cs| && 0 <= k < |cs[a]| ensures cs[a][k] < n {
      assert cs[a][k] in cs[a];
    }
  }

  lemma PickPartition(cs: seq<seq<nat>>, order: seq<nat>, n: nat)
    requires IsPartition(cs, n) && IsPermutationOf(order, |cs|)
    ensures IsPartition(Pick(cs, order), n)
  {
    var r := Pick(cs, order);
    forall i: nat | i < n ensures Listed(r, i) {
      assert Listed(cs, i);
      var a :| 0 <= a < |cs| && i in cs[a];
      assert a in order;
      var b :| 0 <= b < |order| && order[b] == a;
      assert i in r[b];
    }
    forall a, b, i | 0 <= a < |r| && 0 <= b < |r| && i in r[a] && i in r[b] ensures a == b {
      assert order[a] == order[b];
    }
  }

  lemma ArrangePartition(t: Text, v: seq<Req>, cs: seq<seq<nat>>)
    requires IsPartition(cs, |v|)
    ensures IsPartition(Arrange(t, v, cs), |v|) && |Arrange(t, v, cs)| == |cs|
  {
    PartitionInRange(cs, |v|);
    OrderByPermutes(Reps(t, v, cs));
    PickPartition(cs, OrderBy(Reps(t, v, cs)), |v|);
  }

  datatype Outcome = Outcome(reqs: seq<Req>, mergedCount: int, ids: map<int, int>, reviewIds: seq<int>)

  /** The ids of the members of each cluster. */
  function OldIds(v: seq<Req>, cs: seq<seq<nat>>): (r: seq<seq<int>>)
    requires AllInRange(cs, |v|)
    ensures |r| == |cs| && forall a :: 0 <= a < |cs| ==> r[a] == IdsOf(v, cs[a])
  {
    seq(|cs|, a requires 0 <= a < |cs| => IdsOf(v, cs[a]))
  }

  function IdsOf(v: seq<Req>, c: seq<nat>): (r: seq<int>)
    requires Within(c, |v|)
    ensures |r| == |c| && forall k :: 0 <= k < |c| ==> r[k] == v[c[k]].id
  {
    seq(|c|, k requires 0 <= k < |c| => v[c[k]].id)
  }

  function NewId(oldIds: seq<seq<int>>, renumber: bool, p: nat): int
    requires p < |oldIds| && oldIds[p] != []
  {
    if renumber then p + 1 else oldIds[p][0]
  }

  /** Sends every id in `from` to `to`. */
  function Point(ids: map<int, int>, from: seq<int>, to: int): map<int, int> {
    if from == [] then ids else Point(ids, from[..|from| - 1], to)[from[|from| - 1] := to]
  }

  /** Old ids to new ones, after the first `k` clusters. */
  function IdMap(oldIds: seq<seq<int>>, renumber: bool, k: nat): map<int, int>
    requires k <= |oldIds| && forall a :: 0 <= a < |oldIds| ==> oldIds[a] != []
  {
    if k == 0 then map[]
    else Point(IdMap(oldIds, renumber, k - 1), oldIds[k - 1], NewId(oldIds, renumber, k - 1))
  }

  ghost function Survivors(t: Text, v: seq<Req>, w: seq<Req>, cs: seq<seq<nat>>, renumber: bool): (r: seq<Req>)
    requires |w| == |v| && AllInRange(cs, |v|)
    ensures |r| == |cs|
    ensures forall p :: 0 <= p < |r| ==> r[p] == MergedView(t, w, cs[p]).(id := NewId(OldIds(v, cs), renumber, p))
  {
    seq(|cs|, p requires 0 <= p < |cs| => MergedView(t, w, cs[p]).(id := NewId(OldIds(v, cs), renumber, p)))
  }

  /** The survivors, how many were folded away, the id mapping, and the ids listed for review. */
  ghost function Canonical(t: Text, v: seq<Req>, reassign: bool): (r: Outcome) {
    if |v| <= 1 then Outcome(v, 0, map i | 0 <= i < |v| :: v[i].id := v[i].id, [])
    else
      var cs := Arranged(t, v);
      PartitionInRange(cs, |v|);
      var flags := FlagFrom(t, v, 0);
      var merged := |v| - |cs|;
      var renumber := reassign || merged > 0;
      Outcome(Survivors(t, v, flags.views, cs, renumber), merged, IdMap(OldIds(v, cs), renumber, |cs|), flags.ids)
  }
}
