/**
 Canonicalizing the output again, as the service does before generating stories. Although the first pass
 filled in actors, goals and evidence, a second one merges only clusters that the first pass itself
 reopened: by lifting a rejected requirement through an undecided duplicate, or by gathering evidence that
 gives two sources a document in common.
 */
module CanonicalStability {
  import opened Wrappers
  import opened Requirements
  import opened Connectivity
  import opened Clustering
  import opened Canonicalize
  import opened CanonicalizePass
  import opened MergeLaws
  import opened CanonicalProperties
  import opened DispositionMixing
  import opened Sorting
  import opened Texts

  /** No requirement cites a document but `d`. */
  ghost predicate OneDocument(v: seq<Req>, d: string) {
    forall i :: 0 <= i < |v| ==> CitesOnly(v[i], d)
  }

  ghost predicate CitesOnly(x: Req, d: string) {
    DocumentIds(x.evidence) <= {d}
  }

  lemma OneDocumentIntent(t: Text, a: Req, b: Req, d: string)
    requires CitesOnly(a, d) && CitesOnly(b, d)
    ensures SourceIntentMatches(t, a, b)
  {
    var aDocs, bDocs := DocumentIds(a.evidence), DocumentIds(b.evidence);
    if aDocs != {} && bDocs != {} {
      var x :| x in aDocs;
      var y :| y in bDocs;
      assert x == d == y;
      assert d in aDocs * bDocs;
    }
  }

  /** One is accepted and the other rejected. */
  predicate Opposed(a: Req, b: Req) {
    Decided(a) && Decided(b) && a.disposition != b.disposition
  }

  /** Duplicates but for dispositions and sources; `a` and `b` give the texts, `x` and `y` the actors. */
  predicate Alike(t: Text, a: Req, b: Req, x: Req, y: Req) {
    ExactDuplicate(t, a, b) || ContainmentDuplicate(t, a, b) || (NearDuplicate(t, a, b) && !ActorsConflict(t, x, y))
  }

  /** What filling in actors, goals and evidence leaves of the comparison of two requirements. */
  lemma ComparedAgain(t: Text, a: Req, b: Req, a': Req, b': Req)
    requires SpeaksFor(a', a) && SpeaksFor(b', b)
    ensures Compare(t, a', b') == Merged <==> !Opposed(a', b') && Alike(t, a, b, a', b') && SourceIntentMatches(t, a', b')
  {
    hide SourceIntentMatches, Jaccard, StripTrailingS;
  }

  /**
   Two requirements kept apart become duplicates only when their decisions were opposed and no longer are,
   or when their sources did not match and now do.
   */
  lemma StayApart(t: Text, a: Req, b: Req, a': Req, b': Req)
    requires SpeaksFor(a', a) && SpeaksFor(b', b)
    requires Compare(t, a, b) != Merged && Compare(t, a', b') == Merged
    ensures (Opposed(a, b) && !Opposed(a', b')) || (!SourceIntentMatches(t, a, b) && SourceIntentMatches(t, a', b'))
  {
    hide SourceIntentMatches, Jaccard, StripTrailingS;
  }

  // ---------- what the second pass can still merge ----------

  /** Something not rejected was folded into the survivor. */
  ghost predicate Lifted(t: Text, v: seq<Req>, p: nat) {
    exists k: nat :: k < |v| && Home(t, v, k, p) && v[k].disposition != Rejected
  }

  ghost predicate HoldsAccepted(t: Text, v: seq<Req>, p: nat) {
    exists k: nat :: k < |v| && Home(t, v, k, p) && v[k].disposition == Accepted
  }

  /** The survivor is rejected exactly when everything folded into it is, and accepted exactly when something is. */
  lemma SurvivorDisposition(t: Text, v: seq<Req>, reassign: bool, p: nat)
    requires |v| > 1 && p < |Canonical(t, v, reassign).reqs|
    ensures Canonical(t, v, reassign).reqs[p].disposition == Accepted <==> HoldsAccepted(t, v, p)
    ensures Canonical(t, v, reassign).reqs[p].disposition == Rejected <==> !Lifted(t, v, p)
  {
    hide Canonical, Home, DocumentIds, Keys, Contains;
    var m := Canonical(t, v, reassign).reqs[p];
    SurvivorDrawn(t, v, reassign, p);
    var k: nat :| k < |v| && Home(t, v, k, p) && m.disposition == v[k].disposition;
    if k: nat :| k < |v| && Home(t, v, k, p) && v[k].disposition == Accepted {
      SurvivorCovers(t, v, reassign, k, p);
    }
    if k: nat :| k < |v| && Home(t, v, k, p) && v[k].disposition != Rejected {
      SurvivorCovers(t, v, reassign, k, p);
    }
  }

  /** One cluster holds an accepted requirement and the other nothing but rejected ones. */
  ghost predicate ClustersOpposed(t: Text, v: seq<Req>, p: nat, q: nat) {
    (HoldsAccepted(t, v, p) && !Lifted(t, v, q)) || (HoldsAccepted(t, v, q) && !Lifted(t, v, p))
  }

  lemma SurvivorsOpposed(t: Text, v: seq<Req>, reassign: bool, p: nat, q: nat)
    requires |v| > 1 && p < |Canonical(t, v, reassign).reqs| && q < |Canonical(t, v, reassign).reqs|
    ensures Opposed(Canonical(t, v, reassign).reqs[p], Canonical(t, v, reassign).reqs[q]) <==> ClustersOpposed(t, v, p, q)
  {
    hide Canonical, HoldsAccepted, Lifted;
    SurvivorDisposition(t, v, reassign, p);
    SurvivorDisposition(t, v, reassign, q);
  }

  /**
   Two clusters with best members `i` and `j` that are alike, whose decisions no longer stand against each
   other, and whose sources match once their evidence and goals are gathered.
   */
  ghost predicate Reopened(t: Text, v: seq<Req>, reassign: bool, p: nat, q: nat, i: nat, j: nat) {
    && p < q < |Canonical(t, v, reassign).reqs|
    && BestAt(t, v, p, i) && BestAt(t, v, q, j) && !ClustersOpposed(t, v, p, q)
    && Alike(t, v[i], v[j], Canonical(t, v, reassign).reqs[p], Canonical(t, v, reassign).reqs[q])
    && SourceIntentMatches(t, Canonical(t, v, reassign).reqs[p], Canonical(t, v, reassign).reqs[q])
  }

  /**
   Survivors compare as duplicates exactly when their clusters are reopened; their best members were then
   kept apart by their decisions or their sources.
   */
  lemma SurvivorsMergeIff(t: Text, v: seq<Req>, reassign: bool, p: nat, q: nat) returns (i: nat, j: nat)
    requires |v| > 1 && p < q < |Canonical(t, v, reassign).reqs|
    ensures BestAt(t, v, p, i) && BestAt(t, v, q, j)
    ensures Compare(t, Canonical(t, v, reassign).reqs[p], Canonical(t, v, reassign).reqs[q]) == Merged
      <==> Reopened(t, v, reassign, p, q, i, j)
    ensures Reopened(t, v, reassign, p, q, i, j) ==> Opposed(v[i], v[j]) || !SourceIntentMatches(t, v[i], v[j])
  {
    hide Canonical, Home, Compare, SpeaksFor, Outranks, Connected, Alike, ClustersOpposed, SourceIntentMatches, Opposed;
    var out := Canonical(t, v, reassign).reqs;
    i := SurvivorSpeaksForBest(t, v, reassign, p);
    j := SurvivorSpeaksForBest(t, v, reassign, q);
    FoldedTogetherIffConnected(t, v, i, j, p, q);
    DifferentHomesNoEdge(t, v, i, j);
    SurvivorsOpposed(t, v, reassign, p, q);
    ComparedAgain(t, v[i], v[j], out[p], out[q]);
    if Compare(t, out[p], out[q]) == Merged {
      StayApart(t, v[i], v[j], out[p], out[q]);
    }
  }

  lemma BestUnique(t: Text, v: seq<Req>, p: nat, i: nat, j: nat)
    requires BestAt(t, v, p, i) && BestAt(t, v, p, j)
    ensures i == j
  {
    hide Home;
  }

  lemma DifferentHomesNoEdge(t: Text, v: seq<Req>, i: nat, j: nat)
    requires i < |v| && j < |v| && !Connected(MergeEdges(t, v), i, j)
    ensures i != j && Compare(t, v[i], v[j]) != Merged
  {
    hide Compare, Connected;
    ConnectedRefl(MergeEdges(t, v), i);
    CompareSymmetric(t, v[i], v[j]);
    var l, r := if i < j then i else j, if i < j then j else i;
    if (l, r) in MergeEdges(t, v) {
      ConnectedEdge(MergeEdges(t, v), i, j);
    }
  }

  // ---------- a pass with no duplicates ----------

  lemma {:induction false} AloneMembers(n: nat, i: nat)
    ensures MembersUpTo({}, n, i) == if i < n then [i] else []
  {
    if n > 0 {
      AloneMembers(n - 1, i);
      ConnectedRefl({}, i);
      if Connected({}, i, n - 1) {
        NoEdgesAlone({}, i, n - 1);
      }
      hide Connected;
    }
  }

  lemma AloneLeader(edges: Edges, i: nat)
    requires edges == {}
    ensures IsLeader(edges, i)
  {
    forall j: nat | j < i ensures !Connected(edges, j, i) {
      if Connected(edges, j, i) {
        NoEdgesAlone(edges, j, i);
      }
    }
  }

  lemma {:induction false} AloneLeaders(n: nat)
    ensures LeadersUpTo({}, n) == Range(n)
  {
    if n > 0 {
      AloneLeaders(n - 1);
      AloneLeader({}, n - 1);
    }
  }

  function Singles(n: nat): (r: seq<seq<nat>>)
    ensures |r| == n && forall i :: 0 <= i < n ==> r[i] == [i]
  {
    seq(n, i requires 0 <= i < n => [i])
  }

  lemma {:induction false} SortOrdered<T(!new)>(s: seq<T>, le: (T, T) -> bool)
    requires Ordered(s, le)
    ensures Sort(s, le) == s
  {
    if s != [] {
      SortOrdered(s[1..], le);
    }
  }

  lemma OrderByRange(n: nat)
    ensures OrderBy(Range(n)) == Range(n)
  {
    SortOrdered(Range(n), ByKey(Range(n)));
  }

  lemma ArrangedAlone(t: Text, v: seq<Req>)
    requires MergeEdges(t, v) == {}
    ensures Arranged(t, v) == Singles(|v|)
  {
    var cs := ComponentsOf({}, |v|);
    AloneLeaders(|v|);
    forall i | 0 <= i < |v| ensures cs[i] == [i] {
      AloneMembers(|v|, i);
    }
    assert cs == Singles(|v|);
    ArrangedIs(t, v, cs);
    assert Reps(t, v, cs) == Range(|v|);
    OrderByRange(|v|);
  }

  lemma {:induction false} IdMapAlone(oldIds: seq<seq<int>>, renumber: bool, k: nat)
    requires k <= |oldIds|
    requires forall a :: 0 <= a < |oldIds| ==> |oldIds[a]| == 1 && NewId(oldIds, renumber, a) == oldIds[a][0]
    ensures forall a :: 0 <= a < k ==> oldIds[a][0] in IdMap(oldIds, renumber, k)
    ensures forall x :: x in IdMap(oldIds, renumber, k) ==> IdMap(oldIds, renumber, k)[x] == x
  {
    if k > 0 {
      IdMapAlone(oldIds, renumber, k - 1);
      hide NewId;
      PointExact(IdMap(oldIds, renumber, k - 1), oldIds[k - 1], NewId(oldIds, renumber, k - 1));
      assert oldIds[k - 1] == [oldIds[k - 1][0]];
    }
  }

  /** The result `r` of canonicalizing `v` keeps every requirement and every id. */
  ghost predicate KeepsAll(v: seq<Req>, r: Outcome) {
    && r.mergedCount == 0 && |r.reqs| == |v|
    && (forall p :: 0 <= p < |v| ==> Core(r.reqs[p]) == Core(v[p]))
    && (forall p :: 0 <= p < |v| ==> v[p].id in r.ids)
    && (forall x :: x in r.ids ==> r.ids[x] == x)
  }

  lemma NoDuplicatesKeepsAll(t: Text, v: seq<Req>, reassign: bool)
    requires |v| > 1 && MergeEdges(t, v) == {}
    requires reassign ==> forall p :: 0 <= p < |v| ==> v[p].id == p + 1
    ensures KeepsAll(v, Canonical(t, v, reassign))
  {
    hide FlagFrom, MergeEdges, Outranks;
    ArrangedAlone(t, v);
    var cs, w := Arranged(t, v), FlagFrom(t, v, 0).views;
    FlagFromKeeps(t, v, 0);
    PartitionInRange(cs, |v|);
    var oldIds := OldIds(v, cs);
    IdMapAlone(oldIds, reassign, |cs|);
    hide Arranged, IdMap;
    forall p | 0 <= p < |v| ensures Core(Canonical(t, v, reassign).reqs[p]) == Core(v[p]) {
      AloneView(t, w, p);
      assert Core(w[p]) == Core(v[p]);
    }
    forall p | 0 <= p < |v| ensures v[p].id in Canonical(t, v, reassign).ids {
      assert oldIds[p][0] == v[p].id;
    }
  }

  lemma AloneView(t: Text, w: seq<Req>, p: nat)
    requires p < |w|
    ensures MergedView(t, w, [p]) == w[p]
  {
    assert Others(w, [p], p) == [] by {
      assert [p][1..] == [];
    }
  }

  lemma SurvivorIdsArePositions(t: Text, v: seq<Req>, reassign: bool)
    requires |v| > 1
    ensures var r := Canonical(t, v, reassign);
      (reassign || r.mergedCount > 0) ==> forall p :: 0 <= p < |r.reqs| ==> r.reqs[p].id == p + 1
  {
    hide Arranged, FlagFrom, MergedView;
  }

  /** A pair of duplicates costs a requirement. */
  lemma EdgeMerges(t: Text, v: seq<Req>, reassign: bool, i: nat, j: nat)
    requires i < j < |v| && Compare(t, v[i], v[j]) == Merged
    ensures Canonical(t, v, reassign).mergedCount > 0
  {
    hide Arranged, FlagFrom, Survivors, IdMap, Compare;
    var cs := Arranged(t, v);
    FewerOrSingles(cs, |v|);
    assert Listed(cs, i);
    var p :| 0 <= p < |cs| && i in cs[p];
    assert (i, j) in MergeEdges(t, v);
    ConnectedEdge(MergeEdges(t, v), i, j);
    ArrangedTogether(t, v, p, i, j);
  }

  lemma FewerOrSingles(cs: seq<seq<nat>>, n: nat)
    requires IsPartition(cs, n)
    ensures |cs| < n || forall a :: 0 <= a < |cs| ==> |cs[a]| == 1
  {
    PartitionSize(cs, n);
    SizesAtLeast(cs, n, |cs|);
    if |cs| == n {
      NothingMergedMeansSingles(cs, n);
    }
  }

  /** The ids are one, two, three and so on. */
  ghost predicate Positioned(v: seq<Req>) {
    forall p :: 0 <= p < |v| ==> v[p].id == p + 1
  }

  /** Between the passes, only what no comparison looks at has changed. */
  ghost predicate SameToCompare(v: seq<Req>, w: seq<Req>) {
    |v| == |w| && forall p :: 0 <= p < |v| ==> Seen(v[p]) == Seen(w[p])
  }

  function Seen(x: Req): (int, string, Option<string>, Option<string>, Disposition, seq<Evidence>) {
    (x.id, x.text, x.actor, x.goal, x.disposition, x.evidence)
  }

  lemma CompareSees(t: Text, a: Req, b: Req, c: Req, d: Req)
    requires Seen(a) == Seen(c) && Seen(b) == Seen(d)
    ensures Compare(t, a, b) == Compare(t, c, d)
  {
    hide DocumentIds, Jaccard, StripTrailingS;
  }

  ghost predicate NoneReopened(t: Text, v: seq<Req>, first: bool) {
    forall p: nat, q: nat, i: nat, j: nat :: !Reopened(t, v, first, p, q, i, j)
  }

  lemma SecondPassEdges(t: Text, v: seq<Req>, first: bool, w: seq<Req>)
    requires |v| > 1 && SameToCompare(Canonical(t, v, first).reqs, w)
    ensures MergeEdges(t, w) == {} <==> NoneReopened(t, v, first)
  {
    hide Canonical, Compare, Reopened, BestAt, Seen;
    var out := Canonical(t, v, first).reqs;
    forall p: nat, q: nat, i: nat, j: nat | Reopened(t, v, first, p, q, i, j) ensures (p, q) in MergeEdges(t, w) {
      ReopenedBest(t, v, first, p, q, i, j);
      var i', j' := SurvivorsMergeIff(t, v, first, p, q);
      BestUnique(t, v, p, i, i');
      BestUnique(t, v, q, j, j');
      CompareSees(t, out[p], out[q], w[p], w[q]);
    }
    if NoneReopened(t, v, first) {
      forall p: nat, q: nat | p < q < |w| ensures Compare(t, w[p], w[q]) != Merged {
        var i, j := SurvivorsMergeIff(t, v, first, p, q);
        CompareSees(t, out[p], out[q], w[p], w[q]);
      }
      assert MergeEdges(t, w) == {};
    }
  }

  lemma ReopenedBest(t: Text, v: seq<Req>, reassign: bool, p: nat, q: nat, i: nat, j: nat)
    requires Reopened(t, v, reassign, p, q, i, j)
    ensures p < q < |Canonical(t, v, reassign).reqs| && BestAt(t, v, p, i) && BestAt(t, v, q, j)
  {
    hide Canonical, BestAt;
  }

  /** The first pass numbers its survivors from one, or found them numbered so. */
  ghost predicate Numbers(t: Text, v: seq<Req>, first: bool) {
    first || Canonical(t, v, first).mergedCount > 0 || Positioned(v)
  }

  lemma PositionedIffNumbers(t: Text, v: seq<Req>, first: bool)
    requires |v| > 1
    ensures Positioned(Canonical(t, v, first).reqs) <==> Numbers(t, v, first)
  {
    hide Canonical, Positioned;
    if first || Canonical(t, v, first).mergedCount > 0 {
      SurvivorIdsArePositions(t, v, first);
      PositionedIs(Canonical(t, v, first).reqs);
    } else {
      NothingMergedKeepsIds(t, v, first);
      SamePositions(v, Canonical(t, v, first).reqs);
    }
  }

  lemma PositionedIs(v: seq<Req>)
    ensures Positioned(v) <==> forall p :: 0 <= p < |v| ==> v[p].id == p + 1
  {
  }

  lemma SamePositions(v: seq<Req>, w: seq<Req>)
    requires |v| == |w| && forall p :: 0 <= p < |v| ==> w[p].id == v[p].id
    ensures Positioned(v) <==> Positioned(w)
  {
    if Positioned(w) {
      assert forall p :: 0 <= p < |v| ==> w[p].id == v[p].id == p + 1;
    }
  }

  lemma NothingMergedKeepsIds(t: Text, v: seq<Req>, first: bool)
    requires |v| > 1 && !first && Canonical(t, v, first).mergedCount <= 0
    ensures var out := Canonical(t, v, first).reqs;
      |out| == |v| && forall p :: 0 <= p < |v| ==> out[p].id == v[p].id
  {
    hide Canonical, Compare, Core;
    forall i: nat, j: nat | i < j < |v| ensures Compare(t, v[i], v[j]) != Merged {
      if Compare(t, v[i], v[j]) == Merged {
        EdgeMerges(t, v, first, i, j);
      }
    }
    assert MergeEdges(t, v) == {};
    NoDuplicatesKeepsAll(t, v, first);
    CoreIds(v, Canonical(t, v, first).reqs);
  }

  lemma CoreIds(v: seq<Req>, out: seq<Req>)
    requires |out| == |v| && forall p :: 0 <= p < |v| ==> Core(out[p]) == Core(v[p])
    ensures forall p :: 0 <= p < |v| ==> out[p].id == v[p].id
  {
    forall p | 0 <= p < |v| ensures out[p].id == v[p].id {
      assert Core(out[p]).id == Core(v[p]).id;
    }
  }

  /** A list without duplicates is kept exactly when it is not renumbered, or numbered that way already. */
  lemma NoDuplicatesKeepsAllIff(t: Text, w: seq<Req>, second: bool)
    requires |w| > 1 && MergeEdges(t, w) == {}
    ensures KeepsAll(w, Canonical(t, w, second)) <==> (second ==> Positioned(w))
  {
    hide Canonical, MergeEdges, Positioned, Core;
    PositionedIs(w);
    if second ==> Positioned(w) {
      NoDuplicatesKeepsAll(t, w, second);
    } else {
      SurvivorIdsArePositions(t, w, second);
      if KeepsAll(w, Canonical(t, w, second)) {
        CoreIds(w, Canonical(t, w, second).reqs);
      }
    }
  }

  /**
   For all dispositions and documents, a second pass merges nothing, keeps every survivor and maps every id
   to itself exactly when no two clusters are reopened and it does not renumber survivors numbered otherwise.
   */
  lemma SecondPassKeepsAllIff(t: Text, v: seq<Req>, first: bool, second: bool, w: seq<Req>)
    requires SameToCompare(Canonical(t, v, first).reqs, w)
    ensures KeepsAll(w, Canonical(t, w, second))
      <==> NoneReopened(t, v, first) && (second && |w| > 1 ==> Numbers(t, v, first))
  {
    hide Canonical, KeepsAll, Reopened, MergeEdges, Positioned, Numbers, Seen;
    if |v| > 1 && |w| > 1 {
      SecondPassEdges(t, v, first, w);
      PositionedIffNumbers(t, v, first);
      SeenPositions(Canonical(t, v, first).reqs, w);
      if MergeEdges(t, w) == {} {
        NoDuplicatesKeepsAllIff(t, w, second);
      } else {
        DuplicatesMerge(t, w, second);
      }
    } else {
      FewKept(t, v, first);
      FewKept(t, w, second);
      FewNotReopened(t, v, first);
    }
  }

  lemma SeenPositions(v: seq<Req>, w: seq<Req>)
    requires SameToCompare(v, w)
    ensures Positioned(v) <==> Positioned(w)
  {
    forall p | 0 <= p < |v| ensures w[p].id == v[p].id {
      assert Seen(v[p]).0 == Seen(w[p]).0;
    }
    SamePositions(v, w);
  }

  lemma DuplicatesMerge(t: Text, w: seq<Req>, second: bool)
    requires MergeEdges(t, w) != {}
    ensures !KeepsAll(w, Canonical(t, w, second))
  {
    hide Canonical, Compare;
    var p: nat, q: nat :| (p, q) in MergeEdges(t, w);
    EdgeMerges(t, w, second, p, q);
  }

  lemma FewNotReopened(t: Text, v: seq<Req>, first: bool)
    requires |Canonical(t, v, first).reqs| <= 1
    ensures NoneReopened(t, v, first)
  {
    hide Canonical, BestAt, Alike, ClustersOpposed;
  }

  /** At most one requirement is kept as it is. */
  lemma FewKept(t: Text, v: seq<Req>, reassign: bool)
    ensures |v| <= 1 ==> Canonical(t, v, reassign).reqs == v && KeepsAll(v, Canonical(t, v, reassign))
  {
    hide Arranged, FlagFrom, Survivors, IdMap;
  }

  // ---------- one document ----------

  /** Within one document only opposed decisions are reopened, and only when the rejected cluster was lifted. */
  lemma OneDocumentReopened(t: Text, v: seq<Req>, reassign: bool, p: nat, q: nat, i: nat, j: nat, d: string)
    requires |v| > 1 && OneDocument(v, d) && Reopened(t, v, reassign, p, q, i, j)
    ensures Opposed(v[i], v[j]) && Lifted(t, v, if v[i].disposition == Rejected then p else q)
  {
    hide Canonical, BestAt, Alike, SourceIntentMatches, CitesOnly, Home;
    ReopenedBest(t, v, reassign, p, q, i, j);
    var i', j' := SurvivorsMergeIff(t, v, reassign, p, q);
    BestUnique(t, v, p, i, i');
    BestUnique(t, v, q, j, j');
    BestHome(t, v, p, i);
    BestHome(t, v, q, j);
    OneDocumentIntent(t, v[i], v[j], d);
  }

  lemma BestHome(t: Text, v: seq<Req>, p: nat, i: nat)
    requires BestAt(t, v, p, i)
    ensures i < |v| && Home(t, v, i, p)
  {
    hide Home;
  }

  /** Accepted and rejected requirements of one document: a second pass that need not renumber keeps everything. */
  lemma SecondPassKeepsAll(t: Text, v: seq<Req>, first: bool, second: bool, w: seq<Req>, d: string)
    requires OneDocument(v, d) && SameToCompare(Canonical(t, v, first).reqs, w)
    requires forall i :: 0 <= i < |v| ==> Decided(v[i])
    ensures KeepsAll(w, Canonical(t, w, second)) <==> (second && |w| > 1 ==> Numbers(t, v, first))
  {
    hide Canonical, KeepsAll, OneDocument, NoneReopened, Numbers, Decided;
    FewKept(t, v, first);
    if |v| <= 1 {
      FewNotReopened(t, v, first);
    } else {
      DecidedNoneReopened(t, v, first, d);
    }
    SecondPassKeepsAllIff(t, v, first, second, w);
  }

  lemma DecidedNoneReopened(t: Text, v: seq<Req>, first: bool, d: string)
    requires |v| > 1 && OneDocument(v, d) && forall i :: 0 <= i < |v| ==> Decided(v[i])
    ensures NoneReopened(t, v, first)
  {
    hide Canonical, OneDocument, Reopened, Mixes, Decided;
    DecidedNeverMix(t, v);
    forall p: nat, q: nat, i: nat, j: nat ensures !Reopened(t, v, first, p, q, i, j) {
      if Reopened(t, v, first, p, q, i, j) {
        ReopenedUndecided(t, v, first, p, q, i, j, d);
      }
    }
  }

  /** Within one document clusters are reopened only through a mix of decisions or an undecided requirement. */
  lemma ReopenedUndecided(t: Text, v: seq<Req>, reassign: bool, p: nat, q: nat, i: nat, j: nat, d: string)
    requires |v| > 1 && OneDocument(v, d) && Reopened(t, v, reassign, p, q, i, j)
    ensures Mixes(t, v) || exists k: nat :: k < |v| && !Decided(v[k])
  {
    hide Canonical, OneDocument, Reopened, BestAt, Mixes, Lifted;
    OneDocumentReopened(t, v, reassign, p, q, i, j, d);
    ReopenedBest(t, v, reassign, p, q, i, j);
    BestHome(t, v, p, i);
    BestHome(t, v, q, j);
    LiftedMixes(t, v, if v[i].disposition == Rejected then p else q, if v[i].disposition == Rejected then i else j);
  }

  /** A rejected requirement lifted by a decided one was folded together with an accepted one. */
  lemma LiftedMixes(t: Text, v: seq<Req>, p: nat, b: nat)
    requires b < |v| && v[b].disposition == Rejected && Home(t, v, b, p) && Lifted(t, v, p)
    ensures Mixes(t, v) || exists k: nat :: k < |v| && !Decided(v[k])
  {
    hide Home, MergeEdges, Connected;
    var k: nat :| k < |v| && Home(t, v, k, p) && v[k].disposition != Rejected;
    FoldedTogetherIffConnected(t, v, k, b, p, p);
    assert Decided(v[k]) ==> v[k].disposition == Accepted;
  }
}
