/** The specification of the classification half of `doDFS` in
    DepthFirstSearch.java: which edges the pass visits, in which order, and
    into which of the four lists each one goes. */
module EdgeClassification {
  import opened Wrappers
  import opened Graphs
  import opened VertexRecords
  import opened DfsTree

  datatype EdgeKind = TreeEdge | BackEdge | ForwardEdge | CrossEdge

  /** The back-edge test: the walk up from `u`'s parent meets `v`, or the
      edge is a self-loop. */
  ghost predicate BackTest(D: seq<VertexData>, u: nat, v: nat)
    requires ParentsOrdered(D) && u < |D| && v < |D|
  {
    OnChain(D, D[u].parentIndex, v) || u == v
  }

  /** The forward-edge test: the walk up from `v` (inclusive) meets `u`, and
      the edge is not a self-loop. */
  ghost predicate ForwardTest(D: seq<VertexData>, u: nat, v: nat)
    requires ParentsOrdered(D) && u < |D| && v < |D|
  {
    OnChain(D, v, u) && u != v
  }

  /** The list an edge `u -> v` is appended to: tree if `v`'s parent is `u`,
      otherwise back, forward or cross by the two tests. */
  ghost function KindOf(D: seq<VertexData>, e: Edge): EdgeKind
    requires ParentsOrdered(D) && e.from < |D| && e.to < |D|
  {
    if D[e.to].parentIndex == e.from then TreeEdge
    else if BackTest(D, e.from, e.to) then BackEdge
    else if ForwardTest(D, e.from, e.to) then ForwardEdge
    else CrossEdge
  }

  /** Apart from self-loops, the forward test asks whether `u` is a proper
      ancestor of `v`. */
  lemma ForwardTestMeaning(D: seq<VertexData>)
    requires ParentsOrdered(D)
    ensures forall u: nat, v: nat :: u < |D| && v < |D| && u != v ==>
      (ForwardTest(D, u, v) <==> ProperAncestor(D, u, v))
  {
  }

  /** Since parent pointers never cycle, no edge passes both the back test
      and the forward test: `doDFS` appends each non-tree edge to at
      most one of those two lists. */
  lemma BackForwardExclusive(D: seq<VertexData>, u: nat, v: nat)
    requires ParentsOrdered(D) && u < |D| && v < |D|
    ensures !(BackTest(D, u, v) && ForwardTest(D, u, v))
  {
    if BackTest(D, u, v) && ForwardTest(D, u, v) {
      OnChainStartsEarlier(D, D[u].parentIndex, v);
      OnChainStartsEarlier(D, v, u);
    }
  }

  /** Every edge of `es` joins two of the vertices `0 .. n-1`. */
  ghost predicate EdgesWithin(n: nat, es: seq<Edge>)
  {
    forall i :: 0 <= i < |es| ==> es[i].from < n && es[i].to < n
  }

  /** The edges `u -> t` for `t` in `targets`, in order. */
  function OutEdges(u: nat, targets: seq<nat>): (r: seq<Edge>)
    ensures |r| == |targets|
    ensures forall i :: 0 <= i < |r| ==> r[i] == Edge(u, targets[i])
  {
    seq(|targets|, i requires 0 <= i < |targets| => Edge(u, targets[i]))
  }

  /** Extending the targets by one extends the edges by one. */
  lemma OutEdgesSnoc(u: nat, targets: seq<nat>, t: nat)
    ensures OutEdges(u, targets + [t]) == OutEdges(u, targets) + [Edge(u, t)]
  {
  }

  lemma OutEdgesMembership(u: nat, targets: seq<nat>)
    ensures forall e {:trigger e in OutEdges(u, targets)} :: e in OutEdges(u, targets) <==> e.from == u && e.to in targets
  {
    var r := OutEdges(u, targets);
    forall e: Edge | e.from == u && e.to in targets
      ensures e in r
    {
      var i :| 0 <= i < |targets| && targets[i] == e.to;
      assert r[i] == e;
    }
  }

  /** The edges the pass visits when it runs over vertices `lo .. hi-1`:
      the out-edges of each non-WHITE one, vertex by vertex, each in edge
      order. */
  ghost function EdgesOf(adj: seq<seq<nat>>, D: seq<VertexData>, lo: nat, hi: nat): seq<Edge>
    requires |D| == |adj| && hi <= |adj|
    decreases hi
  {
    if hi <= lo then []
    else
      var u := hi - 1;
      EdgesOf(adj, D, lo, u) + (if D[u].color != White then OutEdges(u, adj[u]) else [])
  }

  /** An edge is visited by a pass over `lo .. hi-1` exactly when it leaves
      a non-WHITE vertex in that range. */
  lemma EdgesOfMembership(adj: seq<seq<nat>>, D: seq<VertexData>, lo: nat, hi: nat)
    requires |D| == |adj| && hi <= |adj| && ValidGraph(adj)
    ensures forall e {:trigger e in EdgesOf(adj, D, lo, hi)} :: e in EdgesOf(adj, D, lo, hi) <==>
      lo <= e.from < hi && D[e.from].color != White && e.to in adj[e.from]
  {
    forall e: Edge
      ensures e in EdgesOf(adj, D, lo, hi) <==>
        lo <= e.from < hi && D[e.from].color != White && e.to in adj[e.from]
    {
      EdgeVisited(adj, D, lo, hi, e);
    }
  }

  /** The same, for one edge. */
  lemma {:induction false} EdgeVisited(adj: seq<seq<nat>>, D: seq<VertexData>, lo: nat, hi: nat, e: Edge)
    requires |D| == |adj| && hi <= |adj| && ValidGraph(adj)
    ensures e in EdgesOf(adj, D, lo, hi) <==>
      lo <= e.from < hi && D[e.from].color != White && e.to in adj[e.from]
    decreases hi
  {
    if hi > lo {
      var u := hi - 1;
      EdgeVisited(adj, D, lo, u, e);
      var before := EdgesOf(adj, D, lo, u);
      if D[u].color != White {
        var tail := OutEdges(u, adj[u]);
        OutEdgesMembership(u, adj[u]);
        calc {
          e in EdgesOf(adj, D, lo, hi);
          e in before + tail;
          e in before || e in tail;
        }
      } else {
        calc {
          e in EdgesOf(adj, D, lo, hi);
          { assert EdgesOf(adj, D, lo, hi) == before + [] == before; }
          e in before;
        }
      }
    }
  }

  /** Every visited edge joins two vertices of the graph. */
  lemma EdgesOfWithin(adj: seq<seq<nat>>, D: seq<VertexData>, lo: nat, hi: nat)
    requires |D| == |adj| && hi <= |adj| && ValidGraph(adj)
    ensures EdgesWithin(|adj|, EdgesOf(adj, D, lo, hi))
  {
    EdgesOfMembership(adj, D, lo, hi);
  }

  /** The edges of `es` that go to the list of kind `k`, in order. */
  ghost function Select(D: seq<VertexData>, es: seq<Edge>, k: EdgeKind): (r: seq<Edge>)
    requires ParentsOrdered(D)
    ensures |r| <= |es|
    decreases |es|
  {
    if es == [] then []
    else
      var last := es[|es| - 1];
      Select(D, es[..|es| - 1], k) +
      (if last.from < |D| && last.to < |D| && KindOf(D, last) == k then [last] else [])
  }

  /** An edge is in the list of kind `k` exactly when it was visited and
      has kind `k`. */
  lemma {:induction false} SelectMembership(D: seq<VertexData>, es: seq<Edge>, k: EdgeKind)
    requires ParentsOrdered(D)
    ensures forall e :: e in Select(D, es, k) <==>
      e in es && e.from < |D| && e.to < |D| && KindOf(D, e) == k
    decreases |es|
  {
    if es != [] {
      var init, last := es[..|es| - 1], es[|es| - 1];
      SelectMembership(D, init, k);
      assert es == init + [last];
    }
  }

  /** Appending one edge to the visited edges appends it to its own list. */
  lemma SelectSnoc(D: seq<VertexData>, es: seq<Edge>, e: Edge, k: EdgeKind)
    requires ParentsOrdered(D) && e.from < |D| && e.to < |D|
    ensures Select(D, es + [e], k) == Select(D, es, k) + (if KindOf(D, e) == k then [e] else [])
  {
    assert (es + [e])[..|es|] == es;
  }

  /** Visiting `a` and then `b` fills each list with `a`'s edges of its
      kind followed by `b`'s. */
  lemma {:induction false} SelectAppend(D: seq<VertexData>, a: seq<Edge>, b: seq<Edge>, k: EdgeKind)
    requires ParentsOrdered(D)
    ensures Select(D, a + b, k) == Select(D, a, k) + Select(D, b, k)
    decreases |b|
  {
    if b != [] {
      var init, last := b[..|b| - 1], b[|b| - 1];
      SelectAppend(D, a, init, k);
      assert (a + b)[..|a + b| - 1] == a + init;
      assert (a + b)[|a + b| - 1] == last;
    } else {
      assert a + b == a;
    }
  }

  /** The four lists hold, each in order, the edges of `es` of their kind. */
  ghost predicate ListsFor(D: seq<VertexData>, es: seq<Edge>,
                           tree: seq<Edge>, back: seq<Edge>, fwd: seq<Edge>, cross: seq<Edge>)
    requires ParentsOrdered(D)
  {
    tree == Select(D, es, TreeEdge) && back == Select(D, es, BackEdge) &&
    fwd == Select(D, es, ForwardEdge) && cross == Select(D, es, CrossEdge)
  }

  /** Visiting one more edge appends it to the list of its kind and leaves
      the other three alone. */
  lemma ListsForSnoc(D: seq<VertexData>, es: seq<Edge>, e: Edge,
                     tree: seq<Edge>, back: seq<Edge>, fwd: seq<Edge>, cross: seq<Edge>)
    requires ParentsOrdered(D) && e.from < |D| && e.to < |D|
    requires ListsFor(D, es, tree, back, fwd, cross)
    ensures var k := KindOf(D, e);
      ListsFor(D, es + [e], tree + (if k == TreeEdge then [e] else []),
               back + (if k == BackEdge then [e] else []),
               fwd + (if k == ForwardEdge then [e] else []),
               cross + (if k == CrossEdge then [e] else []))
  {
    SelectSnoc(D, es, e, TreeEdge);
    SelectSnoc(D, es, e, BackEdge);
    SelectSnoc(D, es, e, ForwardEdge);
    SelectSnoc(D, es, e, CrossEdge);
  }

  /** Visiting `a` and then `b` gives the lists of `a` followed by those of
      `b`. */
  lemma ListsForAppend(D: seq<VertexData>, a: seq<Edge>, b: seq<Edge>,
                       t: seq<Edge>, bk: seq<Edge>, f: seq<Edge>, c: seq<Edge>,
                       t': seq<Edge>, bk': seq<Edge>, f': seq<Edge>, c': seq<Edge>)
    requires ParentsOrdered(D)
    requires ListsFor(D, a, t, bk, f, c) && ListsFor(D, b, t', bk', f', c')
    ensures ListsFor(D, a + b, t + t', bk + bk', f + f', c + c')
  {
    SelectAppend(D, a, b, TreeEdge);
    SelectAppend(D, a, b, BackEdge);
    SelectAppend(D, a, b, ForwardEdge);
    SelectAppend(D, a, b, CrossEdge);
  }

  /** The four lists together hold every visited edge exactly as often as
      it was visited. */
  lemma {:induction false} SelectPartition(D: seq<VertexData>, es: seq<Edge>)
    requires ParentsOrdered(D) && EdgesWithin(|D|, es)
    ensures multiset(Select(D, es, TreeEdge)) + multiset(Select(D, es, BackEdge)) +
            multiset(Select(D, es, ForwardEdge)) + multiset(Select(D, es, CrossEdge)) == multiset(es)
    decreases |es|
  {
    if es != [] {
      var init, last := es[..|es| - 1], es[|es| - 1];
      SelectPartition(D, init);
      assert es == init + [last];
      assert multiset(es) == multiset(init) + multiset{last};
      SelectSnoc(D, init, last, TreeEdge);
      SelectSnoc(D, init, last, BackEdge);
      SelectSnoc(D, init, last, ForwardEdge);
      SelectSnoc(D, init, last, CrossEdge);
      SumStep(multiset(Select(D, init, TreeEdge)), multiset(Select(D, init, BackEdge)),
              multiset(Select(D, init, ForwardEdge)), multiset(Select(D, init, CrossEdge)),
              multiset(Select(D, es, TreeEdge)), multiset(Select(D, es, BackEdge)),
              multiset(Select(D, es, ForwardEdge)), multiset(Select(D, es, CrossEdge)),
              last, KindOf(D, last));
    }
  }

  /** Adding one element to exactly the one of four multisets that `k`
      names adds it once to their sum. */
  lemma SumStep<T>(t: multiset<T>, b: multiset<T>, f: multiset<T>, c: multiset<T>,
                   t': multiset<T>, b': multiset<T>, f': multiset<T>, c': multiset<T>,
                   x: T, k: EdgeKind)
    requires t' == t + (if k == TreeEdge then multiset{x} else multiset{})
    requires b' == b + (if k == BackEdge then multiset{x} else multiset{})
    requires f' == f + (if k == ForwardEdge then multiset{x} else multiset{})
    requires c' == c + (if k == CrossEdge then multiset{x} else multiset{})
    ensures t' + b' + f' + c' == t + b + f + c + multiset{x}
  {
  }

  /** No vertex is still on the stack: every reached vertex is BLACK. */
  ghost predicate NoGray(D: seq<VertexData>)
  {
    forall v :: 0 <= v < |D| ==> D[v].color != Gray
  }

  /** With no GRAY vertex left, the list of kind `k` holds exactly the
      edges of kind `k` out of a BLACK vertex at or after `first`. */
  lemma ListMembership(adj: seq<seq<nat>>, D: seq<VertexData>, first: nat, k: EdgeKind)
    requires |D| == |adj| && ValidGraph(adj) && ParentsOrdered(D) && NoGray(D)
    ensures forall e :: e in Select(D, EdgesOf(adj, D, first, |adj|), k) <==>
      first <= e.from < |D| && D[e.from].color == Black &&
      e.to in adj[e.from] && e.to < |D| && KindOf(D, e) == k
  {
    var es := EdgesOf(adj, D, first, |adj|);
    EdgesOfMembership(adj, D, first, |adj|);
    SelectMembership(D, es, k);
  }

  /** The tree list of a pass from `first` holds exactly the edges from a
      BLACK vertex at or after `first` to one of its children. */
  lemma TreeListMeaning(adj: seq<seq<nat>>, D: seq<VertexData>, first: nat)
    requires |D| == |adj| && ValidGraph(adj) && ParentsOrdered(D) && NoGray(D)
    ensures forall e :: e in Select(D, EdgesOf(adj, D, first, |adj|), TreeEdge) <==>
      first <= e.from < |D| && D[e.from].color == Black &&
      e.to in adj[e.from] && e.to < |D| && D[e.to].parentIndex == e.from
  {
    var es := EdgesOf(adj, D, first, |adj|);
    ListMembership(adj, D, first, TreeEdge);
  }

  /** The back list holds exactly the non-tree edges from a BLACK vertex at
      or after `first` to an ancestor of it or to itself. */
  lemma BackListMeaning(adj: seq<seq<nat>>, D: seq<VertexData>, first: nat)
    requires |D| == |adj| && ValidGraph(adj) && ParentsOrdered(D) && NoGray(D)
    ensures forall e :: e in Select(D, EdgesOf(adj, D, first, |adj|), BackEdge) <==>
      first <= e.from < |D| && D[e.from].color == Black &&
      e.to in adj[e.from] && e.to < |D| && D[e.to].parentIndex != e.from &&
      (e.to == e.from || ProperAncestor(D, e.to, e.from))
  {
    var es := EdgesOf(adj, D, first, |adj|);
    ListMembership(adj, D, first, BackEdge);
  }

  /** The forward list holds exactly the non-tree edges from a BLACK vertex
      at or after `first` to a proper descendant of it. */
  lemma ForwardListMeaning(adj: seq<seq<nat>>, D: seq<VertexData>, first: nat)
    requires |D| == |adj| && ValidGraph(adj) && ParentsOrdered(D) && NoGray(D)
    ensures forall e :: e in Select(D, EdgesOf(adj, D, first, |adj|), ForwardEdge) <==>
      first <= e.from < |D| && D[e.from].color == Black &&
      e.to in adj[e.from] && e.to < |D| && D[e.to].parentIndex != e.from &&
      ProperAncestor(D, e.from, e.to)
  {
    var es := EdgesOf(adj, D, first, |adj|);
    ListMembership(adj, D, first, ForwardEdge);
    ForwardTestMeaning(D);
    forall e | e in Select(D, es, ForwardEdge)
      ensures e.to != e.from
    {
      assert ForwardTest(D, e.from, e.to);
    }
    forall e: Edge | first <= e.from < |D| && D[e.from].color == Black &&
               e.to in adj[e.from] && e.to < |D| && D[e.to].parentIndex != e.from &&
               ProperAncestor(D, e.from, e.to)
      ensures e.to != e.from && !BackTest(D, e.from, e.to)
    {
      ProperAncestorIrreflexive(D, e.from);
      if e.to != e.from {
        ProperAncestorAsymmetric(D, e.from, e.to);
      }
    }
  }

  /** The cross list holds exactly the edges from a BLACK vertex at or after
      `first` to a different vertex that is neither its ancestor nor its
      descendant. */
  lemma CrossListMeaning(adj: seq<seq<nat>>, D: seq<VertexData>, first: nat)
    requires |D| == |adj| && ValidGraph(adj) && ParentsOrdered(D) && NoGray(D)
    ensures forall e :: e in Select(D, EdgesOf(adj, D, first, |adj|), CrossEdge) <==>
      first <= e.from < |D| && D[e.from].color == Black &&
      e.to in adj[e.from] && e.to < |D| && D[e.to].parentIndex != e.from &&
      e.to != e.from && !ProperAncestor(D, e.to, e.from) && !ProperAncestor(D, e.from, e.to)
  {
    var es := EdgesOf(adj, D, first, |adj|);
    ListMembership(adj, D, first, CrossEdge);
    ForwardTestMeaning(D);
  }

  /** What each kind means for an edge out of a vertex the search reached:
      tree edges go to a child; back edges to an ancestor or to the vertex
      itself; forward edges to a proper descendant that is not a child;
      cross edges to a vertex that is neither ancestor nor descendant.  The
      time stamps nest accordingly. */
  lemma KindMeaning(adj: seq<seq<nat>>, source: nat, D: seq<VertexData>, e: Edge)
    requires DfsResult(adj, source, D)
    requires e.from < |D| && D[e.from].color != White && e.to in adj[e.from]
    ensures e.to < |D| && D[e.to].color == Black
    ensures KindOf(D, e) == TreeEdge <==> D[e.to].parentIndex == e.from
    ensures KindOf(D, e) == TreeEdge ==>
      D[e.from].startTime < D[e.to].startTime < D[e.to].endTime < D[e.from].endTime
    ensures KindOf(D, e) == BackEdge <==>
      D[e.to].parentIndex != e.from && (e.to == e.from || ProperAncestor(D, e.to, e.from))
    ensures KindOf(D, e) == BackEdge ==>
      D[e.to].startTime <= D[e.from].startTime < D[e.from].endTime <= D[e.to].endTime
    ensures KindOf(D, e) == ForwardEdge <==>
      D[e.to].parentIndex != e.from && ProperAncestor(D, e.from, e.to)
    ensures KindOf(D, e) == ForwardEdge ==>
      D[e.from].startTime < D[e.to].startTime < D[e.to].endTime < D[e.from].endTime
    ensures KindOf(D, e) == CrossEdge <==>
      e.to != e.from && !ProperAncestor(D, e.to, e.from) && !ProperAncestor(D, e.from, e.to)
    ensures KindOf(D, e) == CrossEdge ==>
      D[e.to].startTime < D[e.to].endTime < D[e.from].startTime < D[e.from].endTime
  {
    var u, v := e.from, e.to;
    var j :| 0 <= j < |adj[u]| && adj[u][j] == v;
    assert D[u].color == Black;
    BackForwardExclusive(D, u, v);
    if D[v].parentIndex == u {
      assert ProperAncestor(D, u, v);
      AncestorNesting(adj, source, D, u, v);
      ProperAncestorAsymmetric(D, u, v);
    }
    if u != v && ProperAncestor(D, v, u) {
      AncestorNesting(adj, source, D, v, u);
    }
    if u != v {
      assert OnChain(D, v, u) <==> ProperAncestor(D, u, v);
      if ProperAncestor(D, u, v) {
        AncestorNesting(adj, source, D, u, v);
      }
    } else {
      ProperAncestorIrreflexive(D, u);
    }
    if KindOf(D, e) == CrossEdge {
      Parenthesis(adj, source, D, u, v);
      assert D[v].startTime < D[u].endTime;
    }
  }

  /** Ancestry is one-way. */
  lemma ProperAncestorAsymmetric(D: seq<VertexData>, a: nat, v: nat)
    requires ParentsOrdered(D) && a < |D| && v < |D|
    requires ProperAncestor(D, a, v)
    ensures !ProperAncestor(D, v, a)
  {
    OnChainStartsEarlier(D, D[v].parentIndex, a);
    if ProperAncestor(D, v, a) {
      OnChainStartsEarlier(D, D[a].parentIndex, v);
    }
  }

  /** Every out-edge of every vertex reached from the source is visited by
      a pass over all vertices and lands in exactly one of the four lists. */
  lemma AllVerticesClassifyEveryReachedEdge(adj: seq<seq<nat>>, source: nat, D: seq<VertexData>, u: nat, w: nat)
    requires DfsResult(adj, source, D) && u < |D| && Reachable(adj, source, u) && w in adj[u]
    ensures w < |D| && Edge(u, w) in EdgesOf(adj, D, 0, |D|)
    ensures forall k :: Edge(u, w) in Select(D, EdgesOf(adj, D, 0, |D|), k) <==> k == KindOf(D, Edge(u, w))
  {
    ReachedIffReachable(adj, source, D, u);
    var es := EdgesOf(adj, D, 0, |D|);
    EdgesOfMembership(adj, D, 0, |D|);
    assert Edge(u, w) in es;
    forall k | true
      ensures Edge(u, w) in Select(D, es, k) <==> k == KindOf(D, Edge(u, w))
    {
      SelectMembership(D, es, k);
    }
  }

  /** The pass as written starts at the source vertex, not at 0.  On the
      graph `0 -> 1, 1 -> 0` searched from 1, vertex 0 is reached, yet its
      edge `0 -> 1` is visited by no pass that starts at 1, so it is in
      none of the four lists. */
  lemma SourceFirstPassMissesEdge(D: seq<VertexData>)
    requires DfsResult([[1], [0]], 1, D)
    ensures D[0].color == Black && Reachable([[1], [0]], 1, 0)
    ensures var es := EdgesOf([[1], [0]], D, 1, 2);
      Edge(0, 1) !in es &&
      forall k :: Edge(0, 1) !in Select(D, es, k)
  {
    var adj := [[1], [0]];
    assert adj[1][0] == 0;
    ReachedIffReachable(adj, 1, D, 0);
    var es := EdgesOf(adj, D, 1, 2);
    EdgesOfMembership(adj, D, 1, 2);
    forall k
      ensures Edge(0, 1) !in Select(D, es, k)
    {
      SelectMembership(D, es, k);
    }
  }

  /** The graph `0 -> 1, 0 -> 2, 1 -> 2` searched from 0: 2 is discovered
      from 1 before the scan of 0's list reaches it, so `1 -> 2` is a tree
      edge and `0 -> 2` a forward edge. */
  lemma ShortcutScenario(D: seq<VertexData>)
    requires DfsResult([[1, 2], [2], []], 0, D)
    ensures D[1].parentIndex == 0 && D[2].parentIndex == 1
    ensures KindOf(D, Edge(0, 1)) == TreeEdge && KindOf(D, Edge(1, 2)) == TreeEdge
    ensures KindOf(D, Edge(0, 2)) == ForwardEdge
  {
    var adj := [[1, 2], [2], []];
    assert adj[0][0] == 1 && adj[0][1] == 2 && adj[1][0] == 2;
    assert D[1].color == Black && D[2].color == Black;
    ShortcutInEdges(D[1].parentIndex, D[2].parentIndex);
    assert D[2].startTime < D[1].endTime;
    if D[2].parentIndex == 0 {
      assert adj[0][..1] == [1];
      ListedBeforeChild(adj, 0, D, 0, 0, 2);
    }
    assert OnChain(D, 0, 0) && OnChain(D, 1, 0);
  }

  /** Who lists whom in the graph `0 -> 1, 0 -> 2, 1 -> 2`. */
  lemma ShortcutInEdges(p1: int, p2: int)
    requires 0 <= p1 < 3 && 1 in [[1, 2], [2], []][p1]
    requires 0 <= p2 < 3 && 2 in [[1, 2], [2], []][p2]
    ensures p1 == 0 && (p2 == 0 || p2 == 1)
  {
  }

  /** The diamond `0 -> 1, 0 -> 2, 1 -> 3, 2 -> 3` searched from 0: 1 comes
      first in 0's list, so 3 is discovered from 1, the edges out of 0 and
      `1 -> 3` are tree edges and `2 -> 3` is a cross edge. */
  lemma DiamondScenario(D: seq<VertexData>)
    requires DfsResult([[1, 2], [3], [3], []], 0, D)
    ensures D[1].parentIndex == 0 && D[2].parentIndex == 0 && D[3].parentIndex == 1
    ensures KindOf(D, Edge(0, 1)) == TreeEdge && KindOf(D, Edge(0, 2)) == TreeEdge
    ensures KindOf(D, Edge(1, 3)) == TreeEdge && KindOf(D, Edge(2, 3)) == CrossEdge
  {
    DiamondParents(D);
    assert !OnChain(D, -1, 2) && !OnChain(D, -1, 3);
    assert !OnChain(D, 0, 2) && !OnChain(D, 0, 3);
    assert !OnChain(D, 1, 2);
  }

  lemma DiamondParents(D: seq<VertexData>)
    requires DfsResult([[1, 2], [3], [3], []], 0, D)
    ensures D[1].parentIndex == 0 && D[2].parentIndex == 0 && D[3].parentIndex == 1
  {
    var adj := [[1, 2], [3], [3], []];
    DiamondReached(D);
    assert adj[0][0] == 1 && adj[1][0] == 3;
    ListedBeforeChildFirst(adj, 0, D, 0, 0, 2, 3);
  }

  lemma DiamondReached(D: seq<VertexData>)
    requires DfsResult([[1, 2], [3], [3], []], 0, D)
    ensures D[1].color == Black && D[2].color == Black && D[3].color == Black
    ensures D[1].parentIndex == 0 && D[2].parentIndex == 0
    ensures D[3].parentIndex == 1 || D[3].parentIndex == 2
  {
    var adj := [[1, 2], [3], [3], []];
    assert adj[0][0] == 1 && adj[0][1] == 2 && adj[1][0] == 3;
    ListedByParent(adj, 0, D, 1);
    ListedByParent(adj, 0, D, 2);
    ListedByParent(adj, 0, D, 3);
    DiamondInEdges(D[1].parentIndex, D[2].parentIndex, D[3].parentIndex);
  }

  /** Who lists whom in the diamond. */
  lemma DiamondInEdges(p1: int, p2: int, p3: int)
    requires 0 <= p1 < 4 && 1 in [[1, 2], [3], [3], []][p1]
    requires 0 <= p2 < 4 && 2 in [[1, 2], [3], [3], []][p2]
    requires 0 <= p3 < 4 && 3 in [[1, 2], [3], [3], []][p3]
    ensures p1 == 0 && p2 == 0 && (p3 == 1 || p3 == 2)
  {
  }
}
