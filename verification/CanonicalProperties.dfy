/**
 The guarantees of canonicalization, for every list of requirements: which requirements end
 up together, where each id is sent, that grounding is conserved, and what a survivor holds.
 */
module CanonicalProperties {
  import opened Texts
  import opened Wrappers
  import opened Requirements
  import opened Connectivity
  import opened Clustering
  import opened Canonicalize
  import opened CanonicalizePass
  import opened MergeLaws
  import opened Sorting

  ghost predicate DistinctIds(v: seq<Req>) {
    forall i, j :: 0 <= i < j < |v| ==> v[i].id != v[j].id
  }

  /** `i` is folded into the survivor at position `p`. */
  ghost predicate Home(t: Text, v: seq<Req>, i: nat, p: nat) {
    if |v| <= 1 then i == p == 0 && |v| == 1
    else p < |Arranged(t, v)| && i in Arranged(t, v)[p]
  }

  /** Survivors come in the order of their representatives in the source. */
  lemma SurvivorsInSourceOrder(t: Text, v: seq<Req>, p: nat, q: nat)
    requires p < q < |Arranged(t, v)|
    ensures AllInRange(Arranged(t, v), |v|) && Rep(t, v, Arranged(t, v)[p]) < Rep(t, v, Arranged(t, v)[q])
  {
    hide Arranged, ComponentsOf, MergeEdges, OrderBy, Rep, IsPermutationOf, Within;
    var cs := ComponentsOf(MergeEdges(t, v), |v|);
    ArrangedIs(t, v, cs);
    OrderBySorts(Reps(t, v, cs));
    var a, b := Arranged(t, v)[p], Arranged(t, v)[q];
    assert Rep(t, v, a) <= Rep(t, v, b);
    PartsApart(Arranged(t, v), |v|, p, q, Rep(t, v, a));
    assert Rep(t, v, a) in a && Rep(t, v, b) in b;
  }

  lemma PartsApart(cs: seq<seq<nat>>, n: nat, p: nat, q: nat, i: nat)
    requires IsPartition(cs, n) && p < q < |cs| && i in cs[p]
    ensures i !in cs[q]
  {
  }

  // ---------- which requirements end up together ----------

  lemma ArrangedTogether(t: Text, v: seq<Req>, p: nat, i: nat, j: nat)
    requires p < |Arranged(t, v)| && i in Arranged(t, v)[p] && j < |v|
    ensures j in Arranged(t, v)[p] <==> Connected(MergeEdges(t, v), i, j)
  {
    var edges := MergeEdges(t, v);
    var cs := ComponentsOf(edges, |v|);
    ArrangedIs(t, v, cs);
    hide Arranged, ComponentsOf, Rep, MergeEdges, OrderBy, IsPermutationOf;
    var order := OrderBy(Reps(t, v, cs));
    SameComponentIffConnected(edges, |v|, i, j);
  }


  /** Every requirement has exactly one home. */
  lemma HomeExists(t: Text, v: seq<Req>, i: nat) returns (p: nat)
    requires i < |v|
    ensures Home(t, v, i, p) && p < |Canonical(t, v, true).reqs|
  {
    if |v| <= 1 {
      return 0;
    }
    var cs := Arranged(t, v);
    assert Listed(cs, i);
    p :| 0 <= p < |cs| && i in cs[p];
  }

  /** Two requirements become one exactly when a chain of duplicate pairs connects them. */
  lemma FoldedTogetherIffConnected(t: Text, v: seq<Req>, i: nat, j: nat, p: nat, q: nat)
    requires i < |v| && j < |v| && Home(t, v, i, p) && Home(t, v, j, q)
    ensures p == q <==> Connected(MergeEdges(t, v), i, j)
  {
    if |v| <= 1 {
      ConnectedRefl(MergeEdges(t, v), 0);
    } else {
      ArrangedTogether(t, v, p, i, j);
      hide Connected;
      assert IsPartition(Arranged(t, v), |v|);
    }
  }

  // ---------- where ids are sent ----------

  lemma {:induction false} PointExact(ids: map<int, int>, from: seq<int>, to: int)
    ensures forall x :: x in Point(ids, from, to) <==> x in ids || x in from
    ensures forall x :: x in from ==> Point(ids, from, to)[x] == to
    ensures forall x :: x in ids && x !in from ==> Point(ids, from, to)[x] == ids[x]
  {
    if from != [] {
      var front := from[..|from| - 1];
      PointExact(ids, front, to);
      assert from == front + [from[|from| - 1]];
    }
  }

  ghost predicate NoSharedIds(oldIds: seq<seq<int>>) {
    forall a, b, x :: 0 <= a < |oldIds| && 0 <= b < |oldIds| && x in oldIds[a] && x in oldIds[b] ==> a == b
  }

  lemma {:induction false} IdMapExact(oldIds: seq<seq<int>>, renumber: bool, k: nat)
    requires k <= |oldIds| && NoSharedIds(oldIds)
    requires forall a :: 0 <= a < |oldIds| ==> oldIds[a] != []
    ensures forall a, x :: 0 <= a < k && x in oldIds[a] ==>
      x in IdMap(oldIds, renumber, k) && IdMap(oldIds, renumber, k)[x] == NewId(oldIds, renumber, a)
    ensures forall x :: x in IdMap(oldIds, renumber, k) ==> exists a :: 0 <= a < k && x in oldIds[a]
  {
    if k > 0 {
      IdMapExact(oldIds, renumber, k - 1);
      hide NewId;
      PointExact(IdMap(oldIds, renumber, k - 1), oldIds[k - 1], NewId(oldIds, renumber, k - 1));
    }
  }

  lemma ClusterIdsApart(v: seq<Req>, cs: seq<seq<nat>>)
    requires DistinctIds(v) && IsPartition(cs, |v|) && AllInRange(cs, |v|)
    ensures NoSharedIds(OldIds(v, cs))
  {
    var oldIds := OldIds(v, cs);
    forall a, b, x | 0 <= a < |cs| && 0 <= b < |cs| && x in oldIds[a] && x in oldIds[b] ensures a == b {
      var k :| 0 <= k < |oldIds[a]| && oldIds[a][k] == x;
      var m :| 0 <= m < |oldIds[b]| && oldIds[b][m] == x;
      assert cs[a][k] == cs[b][m];
      assert cs[a][k] in cs[a] && cs[b][m] in cs[b];
    }
  }

  /** With nothing to merge, every cluster is a single requirement. */
  lemma NothingMergedMeansSingles(cs: seq<seq<nat>>, n: nat)
    requires IsPartition(cs, n) && |cs| == n
    ensures forall a :: 0 <= a < |cs| ==> |cs[a]| == 1
  {
    PartitionSize(cs, n);
    SizesAtLeast(cs, n, |cs|);
  }

  lemma {:induction false} SizesAtLeast(cs: seq<seq<nat>>, n: nat, k: nat)
    requires IsPartition(cs, n) && k <= |cs|
    ensures SumOfSizes(cs, k) >= k
    ensures SumOfSizes(cs, k) == k ==> forall a :: 0 <= a < k ==> |cs[a]| == 1
  {
    if k > 0 {
      SizesAtLeast(cs, n, k - 1);
      assert cs[k - 1] != [];
    }
  }

  /**
   The id mapping is total, lands on the survivor each requirement was folded into, and
   survivors keep distinct ids. The merged count is exactly the loss in length.
   */
  lemma IdsFollowRequirements(t: Text, v: seq<Req>, reassign: bool)
    requires DistinctIds(v)
    ensures var r := Canonical(t, v, reassign);
      && r.mergedCount == |v| - |r.reqs|
      && (forall i :: 0 <= i < |v| ==> v[i].id in r.ids)
      && (forall x :: x in r.ids ==> exists i :: 0 <= i < |v| && v[i].id == x)
      && (forall i: nat, p: nat :: i < |v| && Home(t, v, i, p) ==> p < |r.reqs| && r.reqs[p].id == r.ids[v[i].id])
      && DistinctIds(r.reqs)
  {
    if |v| > 1 {
      var cs := Arranged(t, v);
      PartitionInRange(cs, |v|);
      ClusterIdsApart(v, cs);
      PartitionSize(cs, |v|);
      SizesAtLeast(cs, |v|, |cs|);
      if |cs| == |v| {
        NothingMergedMeansSingles(cs, |v|);
      }
      IdsFollowClusters(t, v, reassign);
    }
  }

  lemma MemberIdMapped(v: seq<Req>, cs: seq<seq<nat>>, renumber: bool, i: nat, p: nat)
    requires AllInRange(cs, |v|) && NoSharedIds(OldIds(v, cs)) && i < |v| && p < |cs| && i in cs[p]
    ensures v[i].id in IdMap(OldIds(v, cs), renumber, |cs|)
    ensures IdMap(OldIds(v, cs), renumber, |cs|)[v[i].id] == NewId(OldIds(v, cs), renumber, p)
  {
    var oldIds := OldIds(v, cs);
    IdMapExact(oldIds, renumber, |cs|);
    hide NoSharedIds, IdMap;
    var k :| 0 <= k < |cs[p]| && cs[p][k] == i;
    assert oldIds[p][k] == v[i].id;
  }

  lemma MappedIdIsMember(v: seq<Req>, cs: seq<seq<nat>>, renumber: bool, x: int)
    requires AllInRange(cs, |v|) && NoSharedIds(OldIds(v, cs)) && x in IdMap(OldIds(v, cs), renumber, |cs|)
    ensures exists i :: 0 <= i < |v| && v[i].id == x
  {
    var oldIds := OldIds(v, cs);
    IdMapExact(oldIds, renumber, |cs|);
    hide NoSharedIds, IdMap;
    var a :| 0 <= a < |cs| && x in oldIds[a];
    var k :| 0 <= k < |oldIds[a]| && oldIds[a][k] == x;
    assert v[cs[a][k]].id == x;
  }

  lemma NewIdsApart(oldIds: seq<seq<int>>, renumber: bool, p: nat, q: nat)
    requires NoSharedIds(oldIds) && p < q < |oldIds| && oldIds[p] != [] && oldIds[q] != []
    ensures NewId(oldIds, renumber, p) != NewId(oldIds, renumber, q)
  {
    assert oldIds[p][0] in oldIds[p] && oldIds[q][0] in oldIds[q];
  }

  lemma IdsFollowClusters(t: Text, v: seq<Req>, reassign: bool)
    requires |v| > 1 && AllInRange(Arranged(t, v), |v|)
    requires NoSharedIds(OldIds(v, Arranged(t, v)))
    ensures var r := Canonical(t, v, reassign);
      && (forall i :: 0 <= i < |v| ==> v[i].id in r.ids)
      && (forall x :: x in r.ids ==> exists i :: 0 <= i < |v| && v[i].id == x)
      && (forall i: nat, p: nat :: i < |v| && Home(t, v, i, p) ==> p < |r.reqs| && r.reqs[p].id == r.ids[v[i].id])
      && DistinctIds(r.reqs)
  {
    hide Arranged, MergedView, FlagFrom, NoSharedIds, IdMap, NewId;
    var cs, r := Arranged(t, v), Canonical(t, v, reassign);
    var renumber := reassign || |v| - |cs| > 0;
    forall i: nat, p: nat | i < |v| && p < |cs| && i in cs[p] ensures v[i].id in r.ids && r.reqs[p].id == r.ids[v[i].id] {
      MemberIdMapped(v, cs, renumber, i, p);
    }
    forall i | 0 <= i < |v| ensures v[i].id in r.ids {
      assert Listed(cs, i);
      var p :| 0 <= p < |cs| && i in cs[p];
    }
    forall x | x in r.ids ensures exists i :: 0 <= i < |v| && v[i].id == x {
      MappedIdIsMember(v, cs, renumber, x);
    }
    forall p, q | 0 <= p < q < |r.reqs| ensures r.reqs[p].id != r.reqs[q].id {
      NewIdsApart(OldIds(v, cs), renumber, p, q);
    }
  }

  // ---------- what a survivor holds ----------

  /** `m` represents `x`, and `x` alone may have gained a review flag and note on the way. */
  lemma CoversUnflagged(m: Req, x: Req, y: Req)
    requires Covers(m, x) && Core(x) == Core(y) && (y.needsReview ==> x.needsReview)
    requires OrEmpty(y.reviewReason) <= OrEmpty(x.reviewReason)
    ensures Covers(m, y)
  {
    var reason := OrEmpty(x.reviewReason);
    ContainsPart("", OrEmpty(y.reviewReason), reason[|OrEmpty(y.reviewReason)|..]);
    assert "" + OrEmpty(y.reviewReason) + reason[|OrEmpty(y.reviewReason)|..] == reason;
    ContainsTrans(OrEmpty(m.reviewReason), reason, OrEmpty(y.reviewReason));
    hide Keys, Contains;
    CoreCarries(x, y);
  }

  lemma CoreCarries(x: Req, y: Req)
    requires Core(x) == Core(y)
    ensures x == y.(needsReview := x.needsReview, reviewReason := x.reviewReason)
  {
    assert x == Core(x).(needsReview := x.needsReview, reviewReason := x.reviewReason);
    assert y == Core(y).(needsReview := y.needsReview, reviewReason := y.reviewReason);
  }

  lemma {:induction false} OthersMembers(w: seq<Req>, c: seq<nat>, rep: nat)
    requires Within(c, |w|)
    ensures forall k :: 0 <= k < |c| && c[k] != rep ==> w[c[k]] in Others(w, c, rep)
    ensures forall x :: x in Others(w, c, rep) ==> exists k :: 0 <= k < |c| && x == w[c[k]]
  {
    if c != [] {
      var rest := c[1..];
      OthersMembers(w, rest, rep);
      forall k | 0 <= k < |c| && c[k] != rep ensures w[c[k]] in Others(w, c, rep) {
        if k > 0 {
          assert rest[k - 1] == c[k];
        }
      }
      forall x | x in Others(w, c, rep) ensures exists k :: 0 <= k < |c| && x == w[c[k]] {
        if x in Others(w, rest, rep) {
          var k :| 0 <= k < |rest| && x == w[rest[k]];
          assert x == w[c[k + 1]];
        } else {
          assert x == w[c[0]];
        }
      }
    }
  }

  lemma MergedViewCovers(t: Text, w: seq<Req>, c: seq<nat>, i: nat)
    requires InRange(c, |w|) && i in c
    ensures Covers(MergedView(t, w, c), w[i])
  {
    hide Covers, Outranks;
    var rep := Rep(t, w, c);
    var k :| 0 <= k < |c| && c[k] == i;
    MergeAllCovers(w[rep], Others(w, c, rep));
    OthersMembers(w, c, rep);
    if i != rep {
      assert w[c[k]] in Others(w, c, rep);
    }
  }

  /** Every survivor represents each requirement folded into it: grounding, ranks, labels, flags and notes all survive. */
  lemma SurvivorCovers(t: Text, v: seq<Req>, reassign: bool, i: nat, p: nat)
    requires i < |v| && Home(t, v, i, p)
    ensures p < |Canonical(t, v, reassign).reqs| && Covers(Canonical(t, v, reassign).reqs[p], v[i])
  {
    if |v| <= 1 {
      SelfCovers(v[0]);
    } else {
      hide Covers, Arranged, FlagFrom, MergedView, Core;
      var cs, w := Arranged(t, v), FlagFrom(t, v, 0).views;
      var renumber := reassign || |v| - |cs| > 0;
      PartitionInRange(cs, |v|);
      FlagFromKeeps(t, v, 0);
      MergedViewCovers(t, w, cs[p], i);
      CoversRenamed(MergedView(t, w, cs[p]), NewId(OldIds(v, cs), renumber, p), w[i]);
      CoversUnflagged(Survivors(t, v, w, cs, renumber)[p], w[i], v[i]);
    }
  }

  lemma CoversRenamed(m: Req, id: int, x: Req)
    requires Covers(m, x)
    ensures Covers(m.(id := id), x)
  {
    hide Keys;
  }

  /** Where everything in a survivor comes from: some requirement folded into it. */
  ghost predicate DrawnFromHome(t: Text, v: seq<Req>, p: nat, m: Req) {
    && (forall e :: e in m.evidence ==> HomeCites(t, v, p, e))
    && (forall l :: l in m.candidateLabels ==> HomeLabelled(t, v, p, l))
    && RanksFromHome(t, v, p, m)
    && (m.classification.Classified? ==> ClassifiedFromHome(t, v, p, m.classification))
  }

  ghost predicate ClassifiedFromHome(t: Text, v: seq<Req>, p: nat, m: Classification)
    requires m.Classified?
  {
    && (forall l :: l in m.labels ==> HomeClassified(t, v, p, l))
    && (exists i: nat :: i < |v| && Home(t, v, i, p) && v[i].classification.Classified? && m.confidence == v[i].classification.confidence)
  }

  ghost predicate HomeClassified(t: Text, v: seq<Req>, p: nat, l: string) {
    exists i: nat :: i < |v| && Home(t, v, i, p) && v[i].classification.Classified? && l in v[i].classification.labels
  }

  ghost predicate HomeCites(t: Text, v: seq<Req>, p: nat, e: Evidence) {
    exists i: nat :: i < |v| && Home(t, v, i, p) && e in v[i].evidence
  }

  ghost predicate HomeLabelled(t: Text, v: seq<Req>, p: nat, l: string) {
    exists i: nat :: i < |v| && Home(t, v, i, p) && l in v[i].candidateLabels
  }

  ghost predicate RanksFromHome(t: Text, v: seq<Req>, p: nat, m: Req) {
    && (exists i: nat :: i < |v| && Home(t, v, i, p) && m.confidence == v[i].confidence)
    && (exists i: nat :: i < |v| && Home(t, v, i, p) && m.priority == v[i].priority)
    && (exists i: nat :: i < |v| && Home(t, v, i, p) && m.disposition == v[i].disposition)
  }

  /** The parts folded into `m` are members of the cluster `c`, apart from review flags. */
  ghost predicate PartsIn(v: seq<Req>, c: seq<nat>, parts: seq<Req>)
    requires Within(c, |v|)
  {
    forall k :: 0 <= k < |parts| ==> PartIn(v, c, parts[k])
  }

  ghost predicate PartIn(v: seq<Req>, c: seq<nat>, x: Req)
    requires Within(c, |v|)
  {
    exists j :: 0 <= j < |c| && Core(x) == Core(v[c[j]])
  }

  lemma ClusterParts(t: Text, v: seq<Req>, w: seq<Req>, c: seq<nat>)
    requires SameCores(w, v) && InRange(c, |v|)
    ensures PartsIn(v, c, [w[Rep(t, w, c)]] + Others(w, c, Rep(t, w, c)))
  {
    hide Core, Outranks;
    var rep := Rep(t, w, c);
    var parts := [w[rep]] + Others(w, c, rep);
    OthersMembers(w, c, rep);
    forall k | 0 <= k < |parts| ensures PartIn(v, c, parts[k]) {
      if k == 0 {
        var j :| 0 <= j < |c| && c[j] == rep;
        assert Core(parts[k]) == Core(v[c[j]]);
      } else {
        assert parts[k] in Others(w, c, rep);
        var j :| 0 <= j < |c| && parts[k] == w[c[j]];
        assert Core(parts[k]) == Core(v[c[j]]);
      }
    }
  }

  lemma PartHome(t: Text, v: seq<Req>, p: nat, x: Req) returns (i: nat)
    requires |v| > 1 && p < |Arranged(t, v)| && InRange(Arranged(t, v)[p], |v|)
    requires PartIn(v, Arranged(t, v)[p], x)
    ensures i < |v| && Home(t, v, i, p) && Core(x) == Core(v[i])
  {
    hide Arranged, Core;
    var c := Arranged(t, v)[p];
    var j :| 0 <= j < |c| && Core(x) == Core(v[c[j]]);
    i := c[j];
    assert i in c;
  }

  lemma RanksFromCluster(t: Text, v: seq<Req>, p: nat, parts: seq<Req>, m: Req)
    requires |v| > 1 && p < |Arranged(t, v)| && InRange(Arranged(t, v)[p], |v|)
    requires PartsIn(v, Arranged(t, v)[p], parts) && DrawnFrom(m, parts)
    ensures RanksFromHome(t, v, p, m)
  {
    hide Arranged, Home, PartIn, SomeCites, SomeLabelled, ClassificationDrawn;
    var a :| 0 <= a < |parts| && m.confidence == parts[a].confidence;
    var ia := PartHome(t, v, p, parts[a]);
    var b :| 0 <= b < |parts| && m.priority == parts[b].priority;
    var ib := PartHome(t, v, p, parts[b]);
    var c :| 0 <= c < |parts| && m.disposition == parts[c].disposition;
    var ic := PartHome(t, v, p, parts[c]);
  }

  lemma ClassifiedFromCluster(t: Text, v: seq<Req>, p: nat, parts: seq<Req>, m: Classification)
    requires |v| > 1 && p < |Arranged(t, v)| && InRange(Arranged(t, v)[p], |v|)
    requires PartsIn(v, Arranged(t, v)[p], parts) && m.Classified? && ClassificationDrawn(m, parts)
    ensures ClassifiedFromHome(t, v, p, m)
  {
    hide Arranged, Home, PartIn;
    forall l | l in m.labels ensures HomeClassified(t, v, p, l) {
      assert SomeClassified(parts, l);
      var k :| 0 <= k < |parts| && parts[k].classification.Classified? && l in parts[k].classification.labels;
      var i := PartHome(t, v, p, parts[k]);
      CoreCarries(parts[k], v[i]);
    }
    var k :| 0 <= k < |parts| && parts[k].classification.Classified? && m.confidence == parts[k].classification.confidence;
    var i := PartHome(t, v, p, parts[k]);
    CoreCarries(parts[k], v[i]);
  }

  lemma DrawnFromCluster(t: Text, v: seq<Req>, p: nat, parts: seq<Req>, m: Req)
    requires |v| > 1 && p < |Arranged(t, v)| && InRange(Arranged(t, v)[p], |v|)
    requires PartsIn(v, Arranged(t, v)[p], parts) && DrawnFrom(m, parts)
    ensures DrawnFromHome(t, v, p, m)
  {
    hide Arranged, Home, PartIn, RanksFromHome, ClassificationDrawn, ClassifiedFromHome;
    RanksFromCluster(t, v, p, parts, m);
    if m.classification.Classified? {
      ClassifiedFromCluster(t, v, p, parts, m.classification);
    }
    forall e | e in m.evidence ensures HomeCites(t, v, p, e) {
      assert SomeCites(parts, e);
      var k :| 0 <= k < |parts| && e in parts[k].evidence;
      var i := PartHome(t, v, p, parts[k]);
    }
    forall l | l in m.candidateLabels ensures HomeLabelled(t, v, p, l) {
      assert SomeLabelled(parts, l);
      var k :| 0 <= k < |parts| && l in parts[k].candidateLabels;
      var i := PartHome(t, v, p, parts[k]);
    }
  }

  /**
   A survivor invents nothing: its citations and labels occur in requirements folded into it,
   and its confidence, priority and disposition are those of one of them. With `SurvivorCovers`
   this makes them the maxima over the merged cluster.
   */
  lemma SurvivorDrawn(t: Text, v: seq<Req>, reassign: bool, p: nat)
    requires |v| > 1 && p < |Canonical(t, v, reassign).reqs|
    ensures DrawnFromHome(t, v, p, Canonical(t, v, reassign).reqs[p])
  {
    hide Arranged, FlagFrom, DrawnFrom, PartsIn, DrawnFromHome, Outranks, SameCores, Rep;
    var cs, w := Arranged(t, v), FlagFrom(t, v, 0).views;
    PartitionInRange(cs, |v|);
    FlagFromKeeps(t, v, 0);
    var rep := Rep(t, w, cs[p]);
    var others := Others(w, cs[p], rep);
    ClusterParts(t, v, w, cs[p]);
    MergeAllDrawn(w[rep], others);
    DrawnFromCluster(t, v, p, [w[rep]] + others, MergedView(t, w, cs[p]));
    DrawnRenamed(t, v, p, MergedView(t, w, cs[p]), NewId(OldIds(v, cs), reassign || |v| - |cs| > 0, p));
  }

  lemma DrawnRenamed(t: Text, v: seq<Req>, p: nat, m: Req, id: int)
    requires DrawnFromHome(t, v, p, m)
    ensures DrawnFromHome(t, v, p, m.(id := id))
  {
    hide Home;
  }

  /** `m` keeps the wording and leading evidence of `x`, is classified if `x` is, and keeps its actor and goal when it names them. */
  ghost predicate SpeaksFor(m: Req, x: Req) {
    && m.text == x.text
    && (OrEmpty(x.actor) != "" ==> m.actor == x.actor)
    && (OrEmpty(x.goal) != "" ==> m.goal == x.goal)
    && x.evidence <= m.evidence
    && m.classification.Classified? == x.classification.Classified?
  }

  /** `best` outranks every other requirement folded into the survivor at `p`. */
  ghost predicate BestAt(t: Text, v: seq<Req>, p: nat, best: nat) {
    && best < |v| && Home(t, v, best, p)
    && forall i: nat :: i < |v| && Home(t, v, i, p) && i != best ==> Outranks(t, v, best, i)
  }

  lemma MergedViewSpeaks(t: Text, v: seq<Req>, w: seq<Req>, c: seq<nat>, id: int)
    requires SameCores(w, v) && InRange(c, |v|)
    ensures SpeaksFor(MergedView(t, w, c).(id := id), v[Rep(t, v, c)])
  {
    RepLocal(t, w, v, c);
    var best := Rep(t, v, c);
    var k :| 0 <= k < |c| && c[k] == best;
    hide Outranks, Rep;
    MergeAllKeeps(w[best], Others(w, c, best));
    assert Core(w[best]) == Core(v[best]);
  }

  /** A survivor speaks for the highest-ranked requirement folded into it. */
  lemma SurvivorSpeaksForBest(t: Text, v: seq<Req>, reassign: bool, p: nat) returns (best: nat)
    requires |v| > 1 && p < |Canonical(t, v, reassign).reqs|
    ensures BestAt(t, v, p, best) && SpeaksFor(Canonical(t, v, reassign).reqs[p], v[best])
  {
    hide Arranged, FlagFrom, Outranks, SpeaksFor, MergedView, SameCores;
    var cs, w := Arranged(t, v), FlagFrom(t, v, 0).views;
    PartitionInRange(cs, |v|);
    FlagFromKeeps(t, v, 0);
    SameCoresShape(w, v);
    RepOutranksAll(t, v, cs[p]);
    best := Rep(t, v, cs[p]);
    var k :| 0 <= k < |cs[p]| && cs[p][k] == best;
    MergedViewSpeaks(t, v, w, cs[p], NewId(OldIds(v, cs), reassign || |v| - |cs| > 0, p));
  }
}
