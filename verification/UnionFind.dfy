/**
 The parent list of the clustering pass, updated in place with path halving.
 `root` (the representative each index resolves to) and `rank` (which grows along
 every parent link) are ghost witnesses that the links form a forest. The links are
 not ordered by index: a root may be larger than the indices below it.
 */
module UnionFind {

  ghost predicate Forest(parent: seq<nat>, root: seq<nat>, rank: seq<nat>) {
    && |root| == |parent| == |rank|
    && (forall i :: 0 <= i < |parent| ==> parent[i] < |parent| && root[i] < |parent|)
    && (forall i :: 0 <= i < |parent| ==> root[parent[i]] == root[i])
    && (forall i :: 0 <= i < |parent| ==> parent[root[i]] == root[i])
    && (forall i :: 0 <= i < |parent| ==> (parent[i] == i <==> root[i] == i))
    && (forall i :: 0 <= i < |parent| && parent[i] != i ==> rank[i] < rank[parent[i]])
    && (forall i :: 0 <= i < |parent| && root[i] != i ==> rank[i] < rank[root[i]])
  }

  /** Joining two trees: everything under `gone` now resolves to `kept`. */
  ghost function Relabelled(root: seq<nat>, gone: nat, kept: nat): (r: seq<nat>)
    ensures |r| == |root|
    ensures forall k :: 0 <= k < |r| ==> r[k] == if root[k] == gone then kept else root[k]
  {
    seq(|root|, k requires 0 <= k < |root| => if root[k] == gone then kept else root[k])
  }

  /** Ranks of the kept tree are lifted above the rank of the root hung below it. */
  ghost function Lifted(root: seq<nat>, rank: seq<nat>, kept: nat, lift: nat): (r: seq<nat>)
    requires |root| == |rank|
    ensures |r| == |rank|
    ensures forall k :: 0 <= k < |r| ==> r[k] == if root[k] == kept then rank[k] + lift else rank[k]
  {
    seq(|root|, k requires 0 <= k < |root| => if root[k] == kept then rank[k] + lift else rank[k])
  }

  /** What a forest says of one index. */
  ghost predicate Node(parent: seq<nat>, root: seq<nat>, rank: seq<nat>, i: nat) {
    && |root| == |parent| == |rank| && i < |parent| && parent[i] < |parent| && root[i] < |parent|
    && root[parent[i]] == root[i] && parent[root[i]] == root[i]
    && (parent[i] == i <==> root[i] == i)
    && (parent[i] != i ==> rank[i] < rank[parent[i]])
    && (root[i] != i ==> rank[i] < rank[root[i]])
  }

  lemma ForestNode(parent: seq<nat>, root: seq<nat>, rank: seq<nat>, i: nat)
    requires Forest(parent, root, rank) && i < |parent|
    ensures Node(parent, root, rank, i)
  {
  }

  lemma NodesForest(parent: seq<nat>, root: seq<nat>, rank: seq<nat>)
    requires |root| == |parent| == |rank| && forall i :: 0 <= i < |parent| ==> Node(parent, root, rank, i)
    ensures Forest(parent, root, rank)
  {
    forall i | 0 <= i < |parent|
      ensures parent[i] < |parent| && root[i] < |parent|
      ensures root[parent[i]] == root[i] && parent[root[i]] == root[i] && (parent[i] == i <==> root[i] == i)
      ensures parent[i] != i ==> rank[i] < rank[parent[i]]
      ensures root[i] != i ==> rank[i] < rank[root[i]]
    {
      assert Node(parent, root, rank, i);
    }
  }

  lemma HalvingKeepsNode(parent: seq<nat>, root: seq<nat>, rank: seq<nat>, i: nat, k: nat)
    requires Node(parent, root, rank, i) && parent[i] != i
    requires Node(parent, root, rank, parent[i]) && Node(parent, root, rank, parent[parent[i]]) && Node(parent, root, rank, k)
    ensures Node(parent[i := parent[parent[i]]], root, rank, k)
  {
  }

  /** Pointing an index at its grandparent keeps the forest and every root. */
  lemma HalvingKeepsForest(parent: seq<nat>, root: seq<nat>, rank: seq<nat>, i: nat)
    requires Forest(parent, root, rank) && i < |parent| && parent[i] != i
    ensures Forest(parent[i := parent[parent[i]]], root, rank)
  {
    hide Node;
    var parent' := parent[i := parent[parent[i]]];
    forall k | 0 <= k < |parent| ensures Node(parent', root, rank, k) {
      ForestNode(parent, root, rank, k);
      ForestNode(parent, root, rank, i);
      ForestNode(parent, root, rank, parent[i]);
      ForestNode(parent, root, rank, parent[parent[i]]);
      HalvingKeepsNode(parent, root, rank, i, k);
    }
    hide Forest;
    NodesForest(parent', root, rank);
  }

  lemma LinkKeepsNode(parent: seq<nat>, root: seq<nat>, rank: seq<nat>, kept: nat, gone: nat, i: nat)
    requires Node(parent, root, rank, i) && Node(parent, root, rank, parent[i])
    requires Node(parent, root, rank, kept) && Node(parent, root, rank, gone)
    requires kept != gone && root[kept] == kept && root[gone] == gone
    ensures Node(parent[gone := kept], Relabelled(root, gone, kept), Lifted(root, rank, kept, rank[gone] + 1), i)
  {
  }

  /** Hanging one root below another keeps the forest. */
  lemma LinkKeepsForest(parent: seq<nat>, root: seq<nat>, rank: seq<nat>, kept: nat, gone: nat)
    requires Forest(parent, root, rank)
    requires kept < |parent| && gone < |parent| && kept != gone
    requires root[kept] == kept && root[gone] == gone
    ensures Forest(parent[gone := kept], Relabelled(root, gone, kept), Lifted(root, rank, kept, rank[gone] + 1))
  {
    hide Node, Relabelled, Lifted;
    var parent', root', rank' := parent[gone := kept], Relabelled(root, gone, kept), Lifted(root, rank, kept, rank[gone] + 1);
    forall i | 0 <= i < |parent| ensures Node(parent', root', rank', i) {
      ForestNode(parent, root, rank, i);
      ForestNode(parent, root, rank, parent[i]);
      ForestNode(parent, root, rank, kept);
      ForestNode(parent, root, rank, gone);
      LinkKeepsNode(parent, root, rank, kept, gone, i);
    }
    hide Forest;
    NodesForest(parent', root', rank');
  }

  /** The root of `index`. Terminates because ranks grow along links; compresses the path as it goes. */
  method Find(parent: array<nat>, ghost root: seq<nat>, ghost rank: seq<nat>, start: nat) returns (index: nat)
    requires Forest(parent[..], root, rank) && start < parent.Length
    modifies parent
    ensures Forest(parent[..], root, rank)
    ensures index == root[start] && index < parent.Length && root[index] == index
  {
    index := start;
    while parent[index] != index
      invariant Forest(parent[..], root, rank)
      invariant index < parent.Length && root[index] == root[start]
      decreases rank[root[start]] - rank[index]
    {
      ghost var before := parent[..];
      HalvingKeepsForest(before, root, rank, index);
      assert rank[index] < rank[before[index]] && rank[before[index]] <= rank[before[before[index]]];
      parent[index] := parent[parent[index]];
      assert parent[..] == before[index := before[before[index]]];
      index := parent[index];
    }
  }

  lemma ForestShape(parent: seq<nat>, root: seq<nat>, rank: seq<nat>)
    requires Forest(parent, root, rank)
    ensures |root| == |parent| == |rank|
    ensures forall i :: 0 <= i < |parent| ==> root[i] < |parent|
  {
  }

  /** Joins the trees of `left` and `right`; the left root represents both. */
  method Union(parent: array<nat>, ghost root: seq<nat>, ghost rank: seq<nat>, left: nat, right: nat)
    returns (ghost root': seq<nat>, ghost rank': seq<nat>)
    requires Forest(parent[..], root, rank) && left < parent.Length && right < parent.Length
    modifies parent
    ensures Forest(parent[..], root', rank')
    ensures root' == Relabelled(root, root[right], root[left])
  {
    hide Forest;
    ForestShape(parent[..], root, rank);
    var leftRoot := Find(parent, root, rank, left);
    var rightRoot := Find(parent, root, rank, right);
    root', rank' := Relabelled(root, rightRoot, leftRoot), rank;
    if leftRoot != rightRoot {
      LinkKeepsForest(parent[..], root, rank, leftRoot, rightRoot);
      rank' := Lifted(root, rank, leftRoot, rank[rightRoot] + 1);
      ghost var before := parent[..];
      parent[rightRoot] := leftRoot;
      assert parent[..] == before[rightRoot := leftRoot];
    } else {
      assert root' == root;
    }
  }
}
