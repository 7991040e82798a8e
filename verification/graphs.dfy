/** The graph the search runs on.  The Java `Graph`, `Edge` and
    `EdgeList` classes are not part of this model: a graph is the sequence of
    its adjacency lists, `adj[u]` listing the end vertices of `u`'s outgoing
    edges in the graph's fixed iteration order. */
module Graphs {

  /** A directed edge `from -> to`. */
  datatype Edge = Edge(from: nat, to: nat)

  /** Every edge ends at a vertex of the graph. */
  predicate ValidGraph(adj: seq<seq<nat>>)
  {
    forall u, j :: 0 <= u < |adj| && 0 <= j < |adj[u]| ==> adj[u][j] < |adj|
  }

  /** `p` is a non-empty walk along edges of the graph. */
  ghost predicate IsPath(adj: seq<seq<nat>>, p: seq<nat>)
  {
    |p| >= 1 &&
    (forall i :: 0 <= i < |p| ==> p[i] < |adj|) &&
    forall i :: 0 < i < |p| ==> p[i] in adj[p[i - 1]]
  }

  /** `v` can be reached from `s` by a directed path. */
  ghost predicate Reachable(adj: seq<seq<nat>>, s: nat, v: nat)
  {
    exists p :: IsPath(adj, p) && p[0] == s && p[|p| - 1] == v
  }

  /** The vertices `0 .. n-1`. */
  function VertexSet(n: nat): (vs: set<nat>)
    ensures forall v: nat :: v in vs <==> v < n
  {
    if n == 0 then {} else VertexSet(n - 1) + {n - 1}
  }

  lemma {:induction false} VertexSetSize(n: nat)
    ensures |VertexSet(n)| == n
  {
    if n > 0 {
      var smaller := VertexSet(n - 1);
      VertexSetSize(n - 1);
      assert n - 1 !in smaller;
      assert VertexSet(n) == smaller + {n - 1};
      assert |smaller + {n - 1}| == |smaller| + 1;
    }
  }
}
