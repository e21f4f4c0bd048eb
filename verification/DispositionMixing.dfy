/**
 Accepted and rejected requirements are never merged with each other directly. Whether they can
 still end up in one cluster depends on the undecided requirements between them.
 */
module DispositionMixing {
  import opened Wrappers
  import opened Requirements
  import opened Connectivity
  import opened Clustering

  predicate Decided(x: Req) {
    x.disposition == Accepted || x.disposition == Rejected
  }

  /** Some cluster holds both an accepted and a rejected requirement. */
  ghost predicate Mixes(t: Text, v: seq<Req>) {
    exists i: nat, j: nat :: i < |v| && j < |v| && v[i].disposition == Accepted && v[j].disposition == Rejected
      && Connected(MergeEdges(t, v), i, j)
  }

  /** A chain of duplicate pairs from an accepted to a rejected requirement through undecided ones only. */
  ghost predicate IsBridge(t: Text, v: seq<Req>, p: seq<nat>) {
    && IsChain(MergeEdges(t, v), p)
    && (forall k :: 0 <= k < |p| ==> p[k] < |v|)
    && |p| > 2
    && Decided(v[p[0]]) && Decided(v[p[|p| - 1]])
    && v[p[0]].disposition != v[p[|p| - 1]].disposition
    && (forall k :: 0 < k < |p| - 1 ==> !Decided(v[p[k]]))
  }

  lemma EdgeRespectsDecisions(t: Text, v: seq<Req>, i: nat, j: nat)
    requires Adjacent(MergeEdges(t, v), i, j)
    ensures i < |v| && j < |v|
    ensures Decided(v[i]) && Decided(v[j]) ==> v[i].disposition == v[j].disposition
  {
  }

  lemma {:induction false} ChainInRange(t: Text, v: seq<Req>, p: seq<nat>)
    requires IsChain(MergeEdges(t, v), p) && p[0] < |v|
    ensures forall k :: 0 <= k < |p| ==> p[k] < |v|
  {
    hide MergeEdges;
    forall k | 0 < k < |p| ensures p[k] < |v| {
      assert Adjacent(MergeEdges(t, v), p[k - 1], p[k - 1 + 1]);
      EdgeRespectsDecisions(t, v, p[k - 1], p[k]);
    }
  }

  /** A chain between opposite decisions contains a bridge. */
  lemma {:induction false} FindBridge(t: Text, v: seq<Req>, p: seq<nat>, k: nat) returns (b: seq<nat>)
    requires IsChain(MergeEdges(t, v), p) && forall m :: 0 <= m < |p| ==> p[m] < |v|
    requires 0 < k < |p|
    requires Decided(v[p[0]]) && Decided(v[p[|p| - 1]]) && v[p[0]].disposition != v[p[|p| - 1]].disposition
    requires forall m :: 0 < m < k ==> !Decided(v[p[m]])
    ensures IsBridge(t, v, b)
    decreases |p|, |p| - k
  {
    hide MergeEdges, Adjacent;
    if !Decided(v[p[k]]) {
      b := FindBridge(t, v, p, k + 1);
    } else if v[p[k]].disposition == v[p[0]].disposition {
      var q := p[k..];
      ChainSuffix(MergeEdges(t, v), p, k);
      b := FindBridge(t, v, q, 1);
    } else {
      b := p[..k + 1];
      assert Adjacent(MergeEdges(t, v), p[0], p[0 + 1]);
      EdgeRespectsDecisions(t, v, p[0], p[1]);
      forall m | 0 <= m < |b| - 1 ensures Adjacent(MergeEdges(t, v), b[m], b[m + 1]) {
        assert Adjacent(MergeEdges(t, v), p[m], p[m + 1]);
      }
    }
  }

  lemma ChainSuffix(edges: Edges, p: seq<nat>, k: nat)
    requires IsChain(edges, p) && k < |p|
    ensures IsChain(edges, p[k..])
  {
    var q := p[k..];
    forall m | 0 <= m < |q| - 1 ensures Adjacent(edges, q[m], q[m + 1]) {
      assert Adjacent(edges, p[k + m], p[k + m + 1]);
    }
  }

  /** A cluster mixes accepted and rejected requirements exactly when an undecided bridge joins them. */
  lemma MixesIffBridged(t: Text, v: seq<Req>)
    ensures Mixes(t, v) <==> exists p :: IsBridge(t, v, p)
  {
    hide MergeEdges, Adjacent;
    if Mixes(t, v) {
      var i: nat, j: nat :| i < |v| && j < |v| && v[i].disposition == Accepted && v[j].disposition == Rejected
        && Connected(MergeEdges(t, v), i, j);
      var p :| ChainFromTo(MergeEdges(t, v), p, i, j);
      ChainInRange(t, v, p);
      var b := FindBridge(t, v, p, 1);
    }
    if p :| IsBridge(t, v, p) {
      var i, j := p[0], p[|p| - 1];
      assert ChainFromTo(MergeEdges(t, v), p, i, j);
      ConnectedSym(MergeEdges(t, v), i, j);
    }
  }

  /** When every requirement is accepted or rejected, no cluster mixes the two. */
  lemma DecidedNeverMix(t: Text, v: seq<Req>)
    requires forall i :: 0 <= i < |v| ==> Decided(v[i])
    ensures !Mixes(t, v)
  {
    hide MergeEdges, Adjacent;
    MixesIffBridged(t, v);
    forall p: seq<nat> ensures !IsBridge(t, v, p) {
      assert |p| > 2 && p[1] < |v| ==> Decided(v[p[1]]);
    }
  }

  // ---------- the bridge is possible ----------

  /** Texts compared verbatim, with no near or contained duplicates. */
  function Verbatim(): Text {
    Text(s => s, s => {}, s => {}, s => s, s => false, s => false)
  }

  function Sample(id: int, d: Disposition): Req {
    Req(id, "export the report", None, None, d, [], 1.0, [], "Medium", None, false, None, Unclassified)
  }

  /** One deferred copy between an accepted and a rejected copy of the same text joins all three. */
  lemma DeferredCopyMixes()
    ensures Mixes(Verbatim(), [Sample(1, Accepted), Sample(2, Deferred), Sample(3, Rejected)])
    ensures !Mixes(Verbatim(), [Sample(1, Accepted), Sample(3, Rejected)])
  {
    var t, v := Verbatim(), [Sample(1, Accepted), Sample(2, Deferred), Sample(3, Rejected)];
    var edges := MergeEdges(t, v);
    assert Compare(t, v[0], v[1]) == Merged && Compare(t, v[1], v[2]) == Merged;
    assert (0, 1) in edges && (1, 2) in edges;
    ConnectedEdge(edges, 0, 1);
    ConnectedEdge(edges, 1, 2);
    ConnectedTrans(edges, 0, 1, 2);
    assert v[0].disposition == Accepted && v[2].disposition == Rejected;
    DecidedNeverMix(t, [Sample(1, Accepted), Sample(3, Rejected)]);
  }
}
