/**
 Chains of merge edges between requirement indices, and the components they form.
 This is the meaning of clustering, stated without any union-find.
 */
module Connectivity {
  type Edges = set<(nat, nat)>

  ghost predicate Adjacent(edges: Edges, i: nat, j: nat) {
    (i, j) in edges || (j, i) in edges
  }

  ghost predicate IsChain(edges: Edges, p: seq<nat>) {
    |p| > 0 && forall k :: 0 <= k < |p| - 1 ==> Adjacent(edges, p[k], p[k + 1])
  }

  ghost predicate ChainFromTo(edges: Edges, p: seq<nat>, i: nat, j: nat) {
    IsChain(edges, p) && p[0] == i && p[|p| - 1] == j
  }

  /** Some chain of edges, walked in either direction, leads from `i` to `j`. */
  ghost predicate Connected(edges: Edges, i: nat, j: nat) {
    exists p :: ChainFromTo(edges, p, i, j)
  }

  lemma ConnectedRefl(edges: Edges, i: nat)
    ensures Connected(edges, i, i)
  {
    assert ChainFromTo(edges, [i], i, i);
  }

  lemma ConnectedEdge(edges: Edges, i: nat, j: nat)
    requires Adjacent(edges, i, j)
    ensures Connected(edges, i, j)
  {
    assert ChainFromTo(edges, [i, j], i, j);
  }

  lemma ConnectedSym(edges: Edges, i: nat, j: nat)
    requires Connected(edges, i, j)
    ensures Connected(edges, j, i)
  {
    var p :| ChainFromTo(edges, p, i, j);
    var q := seq(|p|, k requires 0 <= k < |p| => p[|p| - 1 - k]);
    forall k | 0 <= k < |q| - 1 ensures Adjacent(edges, q[k], q[k + 1]) {
      assert Adjacent(edges, p[|p| - 2 - k], p[|p| - 2 - k + 1]);
    }
    assert ChainFromTo(edges, q, j, i);
  }

  lemma ConnectedTrans(edges: Edges, i: nat, j: nat, k: nat)
    requires Connected(edges, i, j) && Connected(edges, j, k)
    ensures Connected(edges, i, k)
  {
    var p :| ChainFromTo(edges, p, i, j);
    var q :| ChainFromTo(edges, q, j, k);
    var r := p + q[1..];
    forall m | 0 <= m < |r| - 1 ensures Adjacent(edges, r[m], r[m + 1]) {
      if m < |p| - 1 {
        assert Adjacent(edges, p[m], p[m + 1]);
      } else {
        assert Adjacent(edges, q[m - |p| + 1], q[m - |p| + 2]);
      }
    }
    assert ChainFromTo(edges, r, i, k);
  }

  lemma ConnectedMono(edges: Edges, more: Edges, i: nat, j: nat)
    requires edges <= more && Connected(edges, i, j)
    ensures Connected(more, i, j)
  {
    var p :| ChainFromTo(edges, p, i, j);
    forall k | 0 <= k < |p| - 1 ensures Adjacent(more, p[k], p[k + 1]) {
      assert Adjacent(edges, p[k], p[k + 1]);
    }
    assert ChainFromTo(more, p, i, j);
  }

  /** A label that every edge preserves is constant along chains, which stay among the labelled. */
  lemma {:induction false} ChainKeepsLabel(edges: Edges, tag: seq<nat>, p: seq<nat>)
    requires forall i, j :: (i, j) in edges ==> i < |tag| && j < |tag| && tag[i] == tag[j]
    requires IsChain(edges, p) && p[0] < |tag|
    ensures p[|p| - 1] < |tag| && tag[p[0]] == tag[p[|p| - 1]]
  {
    if |p| > 1 {
      assert Adjacent(edges, p[0], p[0 + 1]);
      var q := p[1..];
      forall k | 0 <= k < |q| - 1 ensures Adjacent(edges, q[k], q[k + 1]) {
        assert Adjacent(edges, p[k + 1], p[k + 1 + 1]);
      }
      ChainKeepsLabel(edges, tag, q);
    }
  }

  lemma ConnectedKeepsLabel(edges: Edges, tag: seq<nat>, i: nat, j: nat)
    requires forall i, j :: (i, j) in edges ==> i < |tag| && j < |tag| && tag[i] == tag[j]
    requires i < |tag| && Connected(edges, i, j)
    ensures j < |tag| && tag[i] == tag[j]
  {
    var p :| ChainFromTo(edges, p, i, j);
    ChainKeepsLabel(edges, tag, p);
  }

  /** With no edges, every index is alone. */
  lemma NoEdgesAlone(edges: Edges, i: nat, j: nat)
    requires edges == {} && Connected(edges, i, j)
    ensures i == j
  {
    var p :| ChainFromTo(edges, p, i, j);
    assert |p| > 1 ==> Adjacent(edges, p[0], p[0 + 1]);
  }

  /** The indices below `n` that are connected to `i`, ascending. */
  ghost function MembersUpTo(edges: Edges, n: nat, i: nat): (r: seq<nat>) {
    if n == 0 then []
    else MembersUpTo(edges, n - 1, i) + (if Connected(edges, i, n - 1) then [n - 1] else [])
  }

  /** `i` is the least index of its component. */
  ghost predicate IsLeader(edges: Edges, i: nat) {
    forall j: nat :: j < i ==> !Connected(edges, j, i)
  }

  ghost function LeadersUpTo(edges: Edges, n: nat): seq<nat> {
    if n == 0 then []
    else LeadersUpTo(edges, n - 1) + (if IsLeader(edges, n - 1) then [n - 1] else [])
  }

  ghost function MembersOfAll(edges: Edges, n: nat, leaders: seq<nat>): (r: seq<seq<nat>>)
    ensures |r| == |leaders|
    ensures forall a :: 0 <= a < |r| ==> r[a] == MembersUpTo(edges, n, leaders[a])
  {
    seq(|leaders|, a requires 0 <= a < |leaders| => MembersUpTo(edges, n, leaders[a]))
  }

  /** The components of indices `0..n`: ordered by least member, each ascending. */
  ghost function ComponentsOf(edges: Edges, n: nat): seq<seq<nat>> {
    MembersOfAll(edges, n, LeadersUpTo(edges, n))
  }

  ghost predicate Ascending(s: seq<nat>) {
    forall a, b :: 0 <= a < b < |s| ==> s[a] < s[b]
  }

  lemma {:induction false} MembersExact(edges: Edges, n: nat, i: nat)
    ensures Ascending(MembersUpTo(edges, n, i))
    ensures forall j: nat :: j in MembersUpTo(edges, n, i) <==> j < n && Connected(edges, i, j)
  {
    if n > 0 {
      MembersExact(edges, n - 1, i);
      var m := MembersUpTo(edges, n - 1, i);
      forall a | 0 <= a < |m| ensures m[a] < n - 1 {
        assert m[a] in m;
      }
    }
  }

  lemma {:induction false} LeadersExact(edges: Edges, n: nat)
    ensures Ascending(LeadersUpTo(edges, n))
    ensures forall j: nat :: j in LeadersUpTo(edges, n) <==> j < n && IsLeader(edges, j)
  {
    if n > 0 {
      LeadersExact(edges, n - 1);
      var m := LeadersUpTo(edges, n - 1);
      forall a | 0 <= a < |m| ensures m[a] < n - 1 {
        assert m[a] in m;
      }
    }
  }

  /** Every index has a leader in its component. */
  lemma {:induction false} LeaderExists(edges: Edges, i: nat) returns (leader: nat)
    ensures leader <= i && IsLeader(edges, leader) && Connected(edges, leader, i)
  {
    if IsLeader(edges, i) {
      ConnectedRefl(edges, i);
      return i;
    }
    var j: nat :| j < i && Connected(edges, j, i);
    leader := LeaderExists(edges, j);
    ConnectedTrans(edges, leader, j, i);
  }

  /** Two leaders of one component are the same index. */
  lemma LeaderUnique(edges: Edges, i: nat, j: nat)
    requires IsLeader(edges, i) && IsLeader(edges, j) && Connected(edges, i, j)
    ensures i == j
  {
    ConnectedSym(edges, i, j);
  }

  ghost predicate Listed(cs: seq<seq<nat>>, i: nat) {
    exists a :: 0 <= a < |cs| && i in cs[a]
  }

  ghost predicate IsPartition(cs: seq<seq<nat>>, n: nat) {
    && (forall a :: 0 <= a < |cs| ==> cs[a] != [] && Ascending(cs[a]))
    && (forall a, i :: 0 <= a < |cs| && i in cs[a] ==> i < n)
    && (forall i: nat :: i < n ==> Listed(cs, i))
    && (forall a, b, i :: 0 <= a < |cs| && 0 <= b < |cs| && i in cs[a] && i in cs[b] ==> a == b)
  }

  /** The components partition the indices. */
  lemma ComponentsPartition(edges: Edges, n: nat)
    ensures IsPartition(ComponentsOf(edges, n), n)
  {
    var leaders := LeadersUpTo(edges, n);
    var cs := ComponentsOf(edges, n);
    LeadersExact(edges, n);
    forall a | 0 <= a < |cs| ensures cs[a] != [] && Ascending(cs[a]) && forall i :: i in cs[a] ==> i < n {
      MembersExact(edges, n, leaders[a]);
      ConnectedRefl(edges, leaders[a]);
      assert leaders[a] in leaders;
      assert leaders[a] in cs[a];
    }
    forall i: nat | i < n ensures Listed(cs, i) {
      var leader := LeaderExists(edges, i);
      assert leader in leaders;
      var a :| 0 <= a < |leaders| && leaders[a] == leader;
      MembersExact(edges, n, leader);
      assert i in cs[a];
    }
    forall a, b, i | 0 <= a < |cs| && 0 <= b < |cs| && i in cs[a] && i in cs[b] ensures a == b {
      SharedMemberMeansConnected(edges, n, a, b, i);
      assert leaders[a] in leaders && leaders[b] in leaders;
      LeaderUnique(edges, leaders[a], leaders[b]);
    }
  }

  lemma SharedMemberMeansConnected(edges: Edges, n: nat, a: nat, b: nat, i: nat)
    requires a < |ComponentsOf(edges, n)| && b < |ComponentsOf(edges, n)|
    requires i in ComponentsOf(edges, n)[a] && i in ComponentsOf(edges, n)[b]
    ensures Connected(edges, LeadersUpTo(edges, n)[a], LeadersUpTo(edges, n)[b])
  {
    var leaders := LeadersUpTo(edges, n);
    MembersExact(edges, n, leaders[a]);
    MembersExact(edges, n, leaders[b]);
    ConnectedSym(edges, leaders[b], i);
    ConnectedTrans(edges, leaders[a], i, leaders[b]);
  }

  /** Two indices share a component exactly when a chain of edges connects them. */
  lemma SameComponentIffConnected(edges: Edges, n: nat, i: nat, j: nat)
    requires i < n && j < n
    ensures (exists a :: 0 <= a < |ComponentsOf(edges, n)| && i in ComponentsOf(edges, n)[a] && j in ComponentsOf(edges, n)[a])
        <==> Connected(edges, i, j)
  {
    var leaders := LeadersUpTo(edges, n);
    var cs := ComponentsOf(edges, n);
    ComponentsPartition(edges, n);
    forall a | 0 <= a < |cs| && i in cs[a] && j in cs[a] ensures Connected(edges, i, j) {
      MembersExact(edges, n, leaders[a]);
      ConnectedSym(edges, leaders[a], i);
      ConnectedTrans(edges, i, leaders[a], j);
    }
    if Connected(edges, i, j) {
      assert Listed(cs, i);
      var a :| 0 <= a < |cs| && i in cs[a];
      MembersExact(edges, n, leaders[a]);
      ConnectedTrans(edges, leaders[a], i, j);
      assert j in cs[a];
    }
  }
}
