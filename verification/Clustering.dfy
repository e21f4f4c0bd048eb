/**
 The pass that compares every pair of requirements, flags ambiguous pairs for review and
 clusters duplicates. The method is proved against `ComponentsOf`: two requirements share a
 component exactly when a chain of merging pairs connects them.
 */
module Clustering {
  import opened Sequences
  import opened Wrappers
  import opened Requirements
  import opened Connectivity
  import opened UnionFind

  const DISPOSITION_NOTE := "[DISPOSITION_CONFLICT: accepted requirement conflicts with rejected proposal]"
  const ACTOR_NOTE := "[POSSIBLE_DUPLICATE: similar proposition has a materially different actor]"
  const CROSS_SOURCE_NOTE := "[POSSIBLE_CROSS_SOURCE_DUPLICATE: similar wording from distinct source intent]"

  // ---------- what the pass computes ----------

  function EdgesBefore(t: Text, v: seq<Req>, left: nat, right: nat): Edges {
    set l: nat, r: nat | l < r < |v| && (l < left || (l == left && r < right)) && Compare(t, v[l], v[r]) == Merged :: (l, r)
  }

  /** The pairs that the rules merge directly. */
  function MergeEdges(t: Text, v: seq<Req>): Edges {
    set l: nat, r: nat | l < r < |v| && Compare(t, v[l], v[r]) == Merged :: (l, r)
  }

  datatype Flags = Flags(views: seq<Req>, ids: seq<int>)

  function FlagPair(t: Text, v: seq<Req>, l: nat, r: nat): (f: Flags)
    requires l < r < |v|
    ensures |f.views| == |v|
  {
    match Compare(t, v[l], v[r])
    case DispositionConflict =>
      Flags(v[r := Flagged(v[r], DISPOSITION_NOTE)][l := Flagged(v[l], DISPOSITION_NOTE)], [v[r].id])
    case ActorReview => Flags(v[r := Flagged(v[r], ACTOR_NOTE)], [v[r].id])
    case CrossSourceReview => Flags(v[r := Flagged(v[r], CROSS_SOURCE_NOTE)], [v[r].id])
    case Merged => Flags(v, [])
    case Apart => Flags(v, [])
  }

  function FlagRow(t: Text, v: seq<Req>, l: nat, r: nat): (f: Flags)
    requires l < r <= |v|
    ensures |f.views| == |v|
    decreases |v| - r
  {
    if r == |v| then Flags(v, [])
    else
      var first := FlagPair(t, v, l, r);
      var rest := FlagRow(t, first.views, l, r + 1);
      Flags(rest.views, first.ids + rest.ids)
  }

  /** Review flags and notes after all pairs from row `l` on, with the flagged ids in visiting order. */
  function FlagFrom(t: Text, v: seq<Req>, l: nat): (f: Flags)
    requires l <= |v|
    ensures |f.views| == |v|
    decreases |v| - l
  {
    if l == |v| then Flags(v, [])
    else
      var first := FlagRow(t, v, l, l + 1);
      var rest := FlagFrom(t, first.views, l + 1);
      Flags(rest.views, first.ids + rest.ids)
  }

  /** Everything but the review flag and note. */
  function Core(r: Req): Req {
    r.(needsReview := false, reviewReason := None)
  }

  ghost predicate SameCores(v: seq<Req>, w: seq<Req>) {
    |v| == |w| && forall i :: 0 <= i < |v| ==> Core(v[i]) == Core(w[i])
  }

  /** Review flags and notes play no part in comparing requirements. */
  lemma CompareUsesCores(t: Text, a: Req, b: Req, c: Req, d: Req)
    requires Core(a) == Core(c) && Core(b) == Core(d)
    ensures Compare(t, a, b) == Compare(t, c, d)
  {
    hide DocumentIds, Jaccard, StripTrailingS;
    CoreFields(a, c);
    CoreFields(b, d);
    hide Core;
  }

  lemma CoreFields(a: Req, c: Req)
    requires Core(a) == Core(c)
    ensures a.id == c.id && a.text == c.text && a.actor == c.actor && a.goal == c.goal && a.disposition == c.disposition && a.evidence == c.evidence
  {
    assert Core(a).id == a.id && Core(a).text == a.text && Core(a).actor == a.actor && Core(a).goal == a.goal;
    assert Core(a).disposition == a.disposition && Core(a).evidence == a.evidence;
  }

  lemma SameCoresTrans(v: seq<Req>, w: seq<Req>, x: seq<Req>)
    requires SameCores(v, w) && SameCores(w, x)
    ensures SameCores(v, x)
  {
    hide Core;
  }

  ghost predicate FlagsGrow(v: seq<Req>, w: seq<Req>) {
    |v| == |w| && forall i :: 0 <= i < |v| ==>
      (v[i].needsReview ==> w[i].needsReview) && OrEmpty(v[i].reviewReason) <= OrEmpty(w[i].reviewReason)
  }

  lemma FlaggedKeeps(x: Req, note: string)
    ensures Core(Flagged(x, note)) == Core(x)
    ensures Flagged(x, note).needsReview && OrEmpty(x.reviewReason) <= OrEmpty(Flagged(x, note).reviewReason)
  {
  }

  lemma FlagPairKeeps(t: Text, v: seq<Req>, l: nat, r: nat)
    requires l < r < |v|
    ensures SameCores(FlagPair(t, v, l, r).views, v) && FlagsGrow(v, FlagPair(t, v, l, r).views)
  {
    hide Compare, Core, Flagged, OrEmpty;
    forall note ensures Core(Flagged(v[r], note)) == Core(v[r]) && Core(Flagged(v[l], note)) == Core(v[l])
      ensures Flagged(v[r], note).needsReview && OrEmpty(v[r].reviewReason) <= OrEmpty(Flagged(v[r], note).reviewReason)
      ensures Flagged(v[l], note).needsReview && OrEmpty(v[l].reviewReason) <= OrEmpty(Flagged(v[l], note).reviewReason)
    {
      FlaggedKeeps(v[r], note);
      FlaggedKeeps(v[l], note);
    }
  }

  lemma {:induction false} FlagRowKeeps(t: Text, v: seq<Req>, l: nat, r: nat)
    requires l < r <= |v|
    ensures SameCores(FlagRow(t, v, l, r).views, v) && FlagsGrow(v, FlagRow(t, v, l, r).views)
    decreases |v| - r
  {
    hide FlagPair, Core;
    if r < |v| {
      var first := FlagPair(t, v, l, r).views;
      FlagPairKeeps(t, v, l, r);
      FlagRowKeeps(t, first, l, r + 1);
      SameCoresTrans(FlagRow(t, first, l, r + 1).views, first, v);
    }
  }

  /** Flagging changes nothing but review flags and notes, withdraws no flag, and only appends to notes. */
  lemma {:induction false} FlagFromKeeps(t: Text, v: seq<Req>, l: nat)
    requires l <= |v|
    ensures SameCores(FlagFrom(t, v, l).views, v) && FlagsGrow(v, FlagFrom(t, v, l).views)
    decreases |v| - l
  {
    hide FlagRow, Core;
    if l < |v| {
      var first := FlagRow(t, v, l, l + 1).views;
      FlagRowKeeps(t, v, l, l + 1);
      FlagFromKeeps(t, first, l + 1);
      SameCoresTrans(FlagFrom(t, first, l + 1).views, first, v);
    }
  }

  predicate IsReview(o: PairOutcome) {
    o == ActorReview || o == CrossSourceReview || o == DispositionConflict
  }

  lemma FlagPairReports(t: Text, v: seq<Req>, l: nat, r: nat)
    requires l < r < |v| && IsReview(Compare(t, v[l], v[r]))
    ensures FlagPair(t, v, l, r).views[r].needsReview && v[r].id in FlagPair(t, v, l, r).ids
    ensures Compare(t, v[l], v[r]) == DispositionConflict ==> FlagPair(t, v, l, r).views[l].needsReview
  {
    hide Compare;
  }

  lemma ComparesAsBefore(t: Text, v: seq<Req>, w: seq<Req>, l: nat, r: nat)
    requires SameCores(v, w) && l < r < |v|
    ensures Compare(t, v[l], v[r]) == Compare(t, w[l], w[r])
    ensures v[r].id == w[r].id
  {
    hide Compare;
    CompareUsesCores(t, v[l], v[r], w[l], w[r]);
  }

  lemma {:induction false} FlagRowReports(t: Text, v: seq<Req>, l: nat, r: nat, k: nat)
    requires l < r <= k < |v| && IsReview(Compare(t, v[l], v[k]))
    ensures FlagRow(t, v, l, r).views[k].needsReview && v[k].id in FlagRow(t, v, l, r).ids
    ensures Compare(t, v[l], v[k]) == DispositionConflict ==> FlagRow(t, v, l, r).views[l].needsReview
    decreases |v| - r
  {
    hide Compare, FlagPair, Core, SameCores;
    var first := FlagPair(t, v, l, r);
    FlagPairKeeps(t, v, l, r);
    FlagRowKeeps(t, first.views, l, r + 1);
    if r == k {
      FlagPairReports(t, v, l, r);
    } else {
      ComparesAsBefore(t, first.views, v, l, k);
      FlagRowReports(t, first.views, l, r + 1, k);
    }
  }

  /** No ambiguous pair goes unreported: its later requirement is flagged and listed. */
  lemma {:induction false} FlagFromReports(t: Text, v: seq<Req>, from: nat, l: nat, k: nat)
    requires from <= l < k < |v| && IsReview(Compare(t, v[l], v[k]))
    ensures FlagFrom(t, v, from).views[k].needsReview && v[k].id in FlagFrom(t, v, from).ids
    ensures Compare(t, v[l], v[k]) == DispositionConflict ==> FlagFrom(t, v, from).views[l].needsReview
    decreases |v| - from
  {
    hide Compare, FlagRow, Core, SameCores;
    var first := FlagRow(t, v, from, from + 1);
    FlagRowKeeps(t, v, from, from + 1);
    FlagFromKeeps(t, first.views, from + 1);
    if from == l {
      FlagRowReports(t, v, l, l + 1, k);
    } else {
      ComparesAsBefore(t, first.views, v, l, k);
      FlagFromReports(t, first.views, from + 1, l, k);
    }
  }

  /** The pair is ambiguous, and flags its later requirement; a disposition conflict flags both. */
  ghost predicate RaisesFlag(t: Text, v: seq<Req>, l: nat, r: nat, k: nat) {
    && l < r < |v| && IsReview(Compare(t, v[l], v[r]))
    && (k == r || (k == l && Compare(t, v[l], v[r]) == DispositionConflict))
  }

  /** Some ambiguous pair is behind the flag. */
  ghost predicate Ambiguous(t: Text, v: seq<Req>, k: nat) {
    exists l: nat, r: nat :: RaisesFlag(t, v, l, r, k)
  }

  /** Some ambiguous pair is behind the listed id. */
  ghost predicate AmbiguousId(t: Text, v: seq<Req>, id: int) {
    exists l: nat, r: nat :: RaisesFlag(t, v, l, r, r) && v[r].id == id
  }

  /** Every flag raised and every id listed is owed to an ambiguous pair. */
  ghost predicate Owed(t: Text, v: seq<Req>, f: Flags) {
    && |f.views| == |v|
    && (forall k: nat :: k < |v| && f.views[k].needsReview ==> v[k].needsReview || Ambiguous(t, v, k))
    && (forall x :: x in f.ids ==> AmbiguousId(t, v, x))
  }

  lemma AmbiguousAsBefore(t: Text, v: seq<Req>, w: seq<Req>, k: nat)
    requires SameCores(v, w)
    ensures Ambiguous(t, v, k) ==> Ambiguous(t, w, k)
  {
    hide Compare;
    if l: nat, r: nat :| RaisesFlag(t, v, l, r, k) {
      ComparesAsBefore(t, v, w, l, r);
      assert RaisesFlag(t, w, l, r, k);
    }
  }

  lemma AmbiguousIdAsBefore(t: Text, v: seq<Req>, w: seq<Req>, id: int)
    requires SameCores(v, w)
    ensures AmbiguousId(t, v, id) ==> AmbiguousId(t, w, id)
  {
    hide Compare;
    if l: nat, r: nat :| RaisesFlag(t, v, l, r, r) && v[r].id == id {
      ComparesAsBefore(t, v, w, l, r);
      assert RaisesFlag(t, w, l, r, r);
    }
  }

  lemma OwedChain(t: Text, v: seq<Req>, first: Flags, rest: Flags)
    requires Owed(t, v, first) && SameCores(first.views, v) && Owed(t, first.views, rest)
    ensures Owed(t, v, Flags(rest.views, first.ids + rest.ids))
  {
    hide Ambiguous, AmbiguousId, SameCores;
    forall k: nat | k < |v| && rest.views[k].needsReview ensures v[k].needsReview || Ambiguous(t, v, k) {
      AmbiguousAsBefore(t, first.views, v, k);
    }
    forall x | x in first.ids + rest.ids ensures AmbiguousId(t, v, x) {
      AmbiguousIdAsBefore(t, first.views, v, x);
    }
  }

  lemma FlagPairOwed(t: Text, v: seq<Req>, l: nat, r: nat)
    requires l < r < |v|
    ensures Owed(t, v, FlagPair(t, v, l, r))
  {
    hide Compare;
    if IsReview(Compare(t, v[l], v[r])) {
      assert RaisesFlag(t, v, l, r, r);
      assert Compare(t, v[l], v[r]) == DispositionConflict ==> RaisesFlag(t, v, l, r, l);
    }
  }

  lemma {:induction false} FlagRowOwed(t: Text, v: seq<Req>, l: nat, r: nat)
    requires l < r <= |v|
    ensures Owed(t, v, FlagRow(t, v, l, r))
    decreases |v| - r
  {
    hide Compare, FlagPair, Ambiguous, AmbiguousId;
    if r < |v| {
      var first := FlagPair(t, v, l, r);
      FlagPairOwed(t, v, l, r);
      FlagPairKeeps(t, v, l, r);
      FlagRowOwed(t, first.views, l, r + 1);
      OwedChain(t, v, first, FlagRow(t, first.views, l, r + 1));
    }
  }

  /** Nothing is flagged or listed without an ambiguous pair behind it. */
  lemma {:induction false} FlagFromOwed(t: Text, v: seq<Req>, from: nat)
    requires from <= |v|
    ensures Owed(t, v, FlagFrom(t, v, from))
    decreases |v| - from
  {
    hide Compare, FlagRow, Ambiguous, AmbiguousId;
    if from < |v| {
      var first := FlagRow(t, v, from, from + 1);
      FlagRowOwed(t, v, from, from + 1);
      FlagRowKeeps(t, v, from, from + 1);
      FlagFromOwed(t, first.views, from + 1);
      OwedChain(t, v, first, FlagFrom(t, first.views, from + 1));
    }
  }

  // ---------- the pass itself ----------

  function Views(reqs: seq<Requirement>): (v: seq<Req>)
    reads reqs
    ensures |v| == |reqs| && forall i :: 0 <= i < |v| ==> v[i] == reqs[i].View()
  {
    seq(|reqs|, i requires 0 <= i < |reqs| reads reqs => reqs[i].View())
  }

  /** Roots agree with the chains made of the edges seen so far. */
  ghost predicate Clusters(edges: Edges, root: seq<nat>) {
    && (forall i, j :: (i, j) in edges ==> i < |root| && j < |root| && root[i] == root[j])
    && (forall i: nat, j: nat :: i < |root| && j < |root| && root[i] == root[j] ==> Connected(edges, i, j))
  }

  lemma UnionClusters(edges: Edges, root: seq<nat>, l: nat, r: nat)
    requires l < |root| && r < |root| && Clusters(edges, root)
    ensures Clusters(edges + {(l, r)}, Relabelled(root, root[r], root[l]))
  {
    var more := edges + {(l, r)};
    var root' := Relabelled(root, root[r], root[l]);
    forall i: nat, j: nat | i < |root'| && j < |root'| && root'[i] == root'[j] ensures Connected(more, i, j) {
      if root[i] == root[j] {
        ConnectedMono(edges, more, i, j);
      } else if root[i] == root[l] {
        ViaNewEdge(edges, l, r, i, j);
      } else {
        ViaNewEdge(edges, l, r, j, i);
        ConnectedSym(more, j, i);
      }
    }
  }

  lemma ViaNewEdge(edges: Edges, l: nat, r: nat, i: nat, j: nat)
    requires Connected(edges, i, l) && Connected(edges, j, r)
    ensures Connected(edges + {(l, r)}, i, j)
  {
    var more := edges + {(l, r)};
    ConnectedMono(edges, more, i, l);
    ConnectedMono(edges, more, j, r);
    ConnectedSym(more, j, r);
    ConnectedEdge(more, l, r);
    ConnectedTrans(more, i, l, r);
    ConnectedTrans(more, i, r, j);
  }

  lemma NextEdge(t: Text, v: seq<Req>, l: nat, r: nat)
    requires l < r < |v|
    ensures Compare(t, v[l], v[r]) == Merged ==> EdgesBefore(t, v, l, r + 1) == EdgesBefore(t, v, l, r) + {(l, r)}
    ensures Compare(t, v[l], v[r]) != Merged ==> EdgesBefore(t, v, l, r + 1) == EdgesBefore(t, v, l, r)
  {
    hide Compare;
  }

  lemma SameCoresShape(v: seq<Req>, w: seq<Req>)
    requires SameCores(v, w)
    ensures |v| == |w|
  {
  }

  /** Decides one pair and records any review note on the requirements themselves. */
  method ReviewPair(t: Text, reqs: seq<Requirement>, l: nat, r: nat) returns (outcome: PairOutcome, ids: seq<int>)
    requires NoRepeats(reqs) && l < r < |reqs|
    modifies reqs[l], reqs[r]
    ensures outcome == Compare(t, old(reqs[l].View()), old(reqs[r].View()))
    ensures Flags(Views(reqs), ids) == FlagPair(t, old(Views(reqs)), l, r)
  {
    hide Compare;
    outcome := Compare(t, reqs[l].View(), reqs[r].View());
    ids := [];
    match outcome {
      case DispositionConflict =>
        reqs[r].Flag(DISPOSITION_NOTE);
        reqs[l].Flag(DISPOSITION_NOTE);
        ids := [reqs[r].id];
      case ActorReview =>
        reqs[r].Flag(ACTOR_NOTE);
        ids := [reqs[r].id];
      case CrossSourceReview =>
        reqs[r].Flag(CROSS_SOURCE_NOTE);
        ids := [reqs[r].id];
      case Merged =>
      case Apart =>
    }
    assert Views(reqs) == FlagPair(t, old(Views(reqs)), l, r).views;
  }

  /** Compares requirement `l` with every later one. */
  method ClusterRow(t: Text, reqs: seq<Requirement>, l: nat, parent: array<nat>, ghost root: seq<nat>, ghost rank: seq<nat>, ghost v: seq<Req>)
    returns (reviewIds: seq<int>, ghost root': seq<nat>, ghost rank': seq<nat>)
    requires NoRepeats(reqs) && l < |reqs| == parent.Length
    requires Forest(parent[..], root, rank) && Clusters(EdgesBefore(t, v, l, l + 1), root)
    requires SameCores(Views(reqs), v)
    modifies parent, reqs
    ensures Forest(parent[..], root', rank') && Clusters(EdgesBefore(t, v, l, |v|), root')
    ensures SameCores(Views(reqs), v)
    ensures Flags(Views(reqs), reviewIds) == FlagRow(t, old(Views(reqs)), l, l + 1)
  {
    hide Compare, FlagPair, FlagRow, FlagsGrow, Core, Forest, Clusters, EdgesBefore, SameCores, Relabelled, Flagged;
    SameCoresShape(Views(reqs), v);
    reviewIds, root', rank' := [], root, rank;
    ghost var all := FlagRow(t, Views(reqs), l, l + 1);
    for r := l + 1 to |reqs|
      invariant Forest(parent[..], root', rank') && Clusters(EdgesBefore(t, v, l, r), root')
      invariant SameCores(Views(reqs), v)
      invariant all == Flags(FlagRow(t, Views(reqs), l, r).views, reviewIds + FlagRow(t, Views(reqs), l, r).ids)
    {
      ghost var before := Views(reqs);
      ComparesAsBefore(t, before, v, l, r);
      NextEdge(t, v, l, r);
      FlagRowNext(t, before, l, r);
      var outcome, ids := ReviewPair(t, reqs, l, r);
      if outcome == Merged {
        ForestShape(parent[..], root', rank');
        UnionClusters(EdgesBefore(t, v, l, r), root', l, r);
        root', rank' := Union(parent, root', rank', l, r);
      }
      FlagPairKeeps(t, before, l, r);
      SameCoresTrans(FlagPair(t, before, l, r).views, before, v);
      reviewIds := reviewIds + ids;
    }
    FlagRowNext(t, Views(reqs), l, |reqs|);
  }

  lemma FlagRowNext(t: Text, v: seq<Req>, l: nat, r: nat)
    requires l < r <= |v|
    ensures FlagRow(t, v, l, r) ==
      if r == |v| then Flags(v, [])
      else
        var first := FlagPair(t, v, l, r);
        Flags(FlagRow(t, first.views, l, r + 1).views, first.ids + FlagRow(t, first.views, l, r + 1).ids)
  {
    hide FlagPair;
  }

  /** Clusters all requirements that a chain of duplicate pairs connects. */
  method CanonicalComponents(t: Text, reqs: seq<Requirement>) returns (components: seq<seq<nat>>, reviewIds: seq<int>)
    requires NoRepeats(reqs)
    modifies reqs
    ensures components == ComponentsOf(MergeEdges(t, old(Views(reqs))), |reqs|)
    ensures Flags(Views(reqs), reviewIds) == FlagFrom(t, old(Views(reqs)), 0)
  {
    hide Compare, FlagRow, Core, SameCores, Clusters, Forest, EdgesBefore, MergeEdges;
    var n := |reqs|;
    ghost var v := Views(reqs);
    var parent := new nat[n](i => i);
    ghost var root: seq<nat> := seq(n, i => i);
    ghost var rank: seq<nat> := seq(n, i => 0);
    assert parent[..] == root;
    StartsApart(t, v, root, rank);
    reviewIds := [];
    for l := 0 to n
      invariant fresh(parent) && parent.Length == n
      invariant Forest(parent[..], root, rank)
      invariant Clusters(EdgesBefore(t, v, l, l + 1), root)
      invariant SameCores(Views(reqs), v)
      invariant FlagFrom(t, v, 0) == Flags(FlagFrom(t, Views(reqs), l).views, reviewIds + FlagFrom(t, Views(reqs), l).ids)
    {
      var ids;
      ids, root, rank := ClusterRow(t, reqs, l, parent, root, rank, v);
      NextRow(t, v, l);
      reviewIds := reviewIds + ids;
    }
    LastRow(t, v);
    components := GroupByRoot(parent, root, rank, MergeEdges(t, v));
  }

  lemma NextRow(t: Text, v: seq<Req>, l: nat)
    ensures EdgesBefore(t, v, l, |v|) == EdgesBefore(t, v, l + 1, l + 2)
  {
    hide Compare;
  }

  lemma LastRow(t: Text, v: seq<Req>)
    ensures EdgesBefore(t, v, |v|, |v| + 1) == MergeEdges(t, v)
  {
    hide Compare;
  }

  lemma StartsApart(t: Text, v: seq<Req>, root: seq<nat>, rank: seq<nat>)
    requires |root| == |v| == |rank| && forall i :: 0 <= i < |root| ==> root[i] == i
    ensures Forest(root, root, rank) && SameCores(v, v)
    ensures Clusters(EdgesBefore(t, v, 0, 1), root)
  {
    assert EdgesBefore(t, v, 0, 1) == {};
    forall i: nat, j: nat | i < |root| && j < |root| && root[i] == root[j] ensures Connected({}, i, j) {
      ConnectedRefl({}, i);
    }
  }

  /** The groups collected so far, one per root, in order of first appearance. */
  ghost predicate Grouped(edges: Edges, root: seq<nat>, k: nat, keys: seq<nat>, groups: map<nat, seq<nat>>) {
    var leaders := LeadersUpTo(edges, k);
    && k <= |root| && |keys| == |leaders|
    && (forall a :: 0 <= a < |keys| ==> leaders[a] < |root| && keys[a] == root[leaders[a]])
    && (forall a :: 0 <= a < |keys| ==> keys[a] in groups && groups[keys[a]] == MembersUpTo(edges, k, leaders[a]))
    && (forall r :: r in groups ==> r in keys)
  }

  lemma RootsAreConnectivity(edges: Edges, root: seq<nat>, i: nat, j: nat)
    requires Clusters(edges, root) && i < |root| && j < |root|
    ensures Connected(edges, i, j) <==> root[i] == root[j]
  {
    if Connected(edges, i, j) {
      ConnectedKeepsLabel(edges, root, i, j);
    }
  }

  lemma MembersStep(edges: Edges, root: seq<nat>, k: nat, i: nat)
    requires Clusters(edges, root) && i < |root| && k < |root|
    ensures MembersUpTo(edges, k + 1, i) == MembersUpTo(edges, k, i) + (if root[i] == root[k] then [k] else [])
  {
    RootsAreConnectivity(edges, root, i, k);
  }

  lemma LeadersStep(edges: Edges, k: nat)
    ensures LeadersUpTo(edges, k + 1) == LeadersUpTo(edges, k) + (if IsLeader(edges, k) then [k] else [])
  {
  }

  /** A root met before belongs to an index that some earlier index is connected to. */
  lemma OldRootIsNoLeader(edges: Edges, root: seq<nat>, k: nat, keys: seq<nat>, groups: map<nat, seq<nat>>)
    requires Clusters(edges, root) && k < |root| && Grouped(edges, root, k, keys, groups)
    requires root[k] in groups
    ensures !IsLeader(edges, k)
  {
    var leaders := LeadersUpTo(edges, k);
    LeadersExact(edges, k);
    var b :| 0 <= b < |keys| && keys[b] == root[k];
    assert leaders[b] in leaders;
    RootsAreConnectivity(edges, root, leaders[b], k);
  }

  lemma JoinsGroup(edges: Edges, root: seq<nat>, k: nat, keys: seq<nat>, groups: map<nat, seq<nat>>)
    requires Clusters(edges, root) && k < |root| && Grouped(edges, root, k, keys, groups)
    requires root[k] in groups
    ensures Grouped(edges, root, k + 1, keys, groups[root[k] := groups[root[k]] + [k]])
  {
    hide Clusters, Connected, IsLeader, MembersUpTo, LeadersUpTo;
    var leaders := LeadersUpTo(edges, k);
    OldRootIsNoLeader(edges, root, k, keys, groups);
    LeadersStep(edges, k);
    assert LeadersUpTo(edges, k + 1) == leaders;
    var groups' := groups[root[k] := groups[root[k]] + [k]];
    forall a | 0 <= a < |keys| ensures groups'[keys[a]] == MembersUpTo(edges, k + 1, leaders[a]) {
      MembersStep(edges, root, k, leaders[a]);
    }
  }

  /** A root not met before belongs to an index that no earlier index is connected to. */
  lemma NewRootIsLeader(edges: Edges, root: seq<nat>, k: nat, keys: seq<nat>, groups: map<nat, seq<nat>>)
    requires Clusters(edges, root) && k < |root| && Grouped(edges, root, k, keys, groups)
    requires root[k] !in groups
    ensures IsLeader(edges, k)
  {
    var leaders := LeadersUpTo(edges, k);
    LeadersExact(edges, k);
    forall j: nat | j < k ensures !Connected(edges, j, k) {
      var leader := LeaderExists(edges, j);
      assert leader in leaders;
      var b :| 0 <= b < |leaders| && leaders[b] == leader;
      assert keys[b] in groups;
      RootsAreConnectivity(edges, root, leader, k);
      if Connected(edges, j, k) {
        ConnectedTrans(edges, leader, j, k);
      }
    }
  }

  lemma LeaderStartsAlone(edges: Edges, k: nat)
    requires IsLeader(edges, k)
    ensures MembersUpTo(edges, k + 1, k) == [k]
  {
    ConnectedRefl(edges, k);
    MembersExact(edges, k, k);
    var before := MembersUpTo(edges, k, k);
    if before != [] {
      assert before[0] in before;
      ConnectedSym(edges, k, before[0]);
    }
  }

  lemma StartsGroup(edges: Edges, root: seq<nat>, k: nat, keys: seq<nat>, groups: map<nat, seq<nat>>)
    requires Clusters(edges, root) && k < |root| && Grouped(edges, root, k, keys, groups)
    requires root[k] !in groups
    ensures Grouped(edges, root, k + 1, keys + [root[k]], groups[root[k] := [k]])
  {
    var leaders := LeadersUpTo(edges, k);
    NewRootIsLeader(edges, root, k, keys, groups);
    LeaderStartsAlone(edges, k);
    LeadersStep(edges, k);
    hide Clusters, Connected, IsLeader, MembersUpTo, LeadersUpTo;
    var keys', groups', leaders' := keys + [root[k]], groups[root[k] := [k]], leaders + [k];
    assert LeadersUpTo(edges, k + 1) == leaders';
    forall a | 0 <= a < |keys'| ensures groups'[keys'[a]] == MembersUpTo(edges, k + 1, leaders'[a]) {
      if a < |keys| {
        assert keys[a] in groups;
        MembersStep(edges, root, k, leaders[a]);
      }
    }
  }

  lemma GroupsAreComponents(edges: Edges, root: seq<nat>, n: nat, keys: seq<nat>, groups: map<nat, seq<nat>>)
    requires Grouped(edges, root, n, keys, groups)
    ensures forall a :: 0 <= a < |keys| ==> keys[a] in groups
    ensures ComponentsOf(edges, n) == seq(|keys|, a requires 0 <= a < |keys| => groups[keys[a]])
  {
  }

  lemma NothingGrouped(edges: Edges, root: seq<nat>)
    ensures Grouped(edges, root, 0, [], map[])
  {
  }

  /** Groups the indices by root, in order of first appearance. */
  method GroupByRoot(parent: array<nat>, ghost root: seq<nat>, ghost rank: seq<nat>, ghost edges: Edges)
    returns (components: seq<seq<nat>>)
    requires Forest(parent[..], root, rank) && Clusters(edges, root)
    modifies parent
    ensures components == ComponentsOf(edges, parent.Length)
  {
    hide Forest, Clusters, Grouped;
    var keys: seq<nat> := [];
    var groups: map<nat, seq<nat>> := map[];
    NothingGrouped(edges, root);
    for k := 0 to parent.Length
      invariant Forest(parent[..], root, rank)
      invariant Grouped(edges, root, k, keys, groups)
    {
      ForestShape(parent[..], root, rank);
      var r := Find(parent, root, rank, k);
      if r in groups {
        JoinsGroup(edges, root, k, keys, groups);
        groups := groups[r := groups[r] + [k]];
      } else {
        StartsGroup(edges, root, k, keys, groups);
        keys, groups := keys + [r], groups[r := [k]];
      }
    }
    GroupsAreComponents(edges, root, parent.Length, keys, groups);
    components := seq(|keys|, a requires 0 <= a < |keys| => groups[keys[a]]);
  }
}
