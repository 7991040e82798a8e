/** The class `DepthFirstSearch` of DepthFirstSearch.java: one record per
    vertex, the four edge lists, the search itself and the queries over its
    result. */
module Search {
  import opened Wrappers
  import opened Graphs
  import opened VertexRecords
  import opened StackImplementation
  import opened TraversalInvariant
  import opened DfsTree
  import opened EdgeClassification
  import opened Strings

  class DepthFirstSearch {
    const adj: seq<seq<nat>>
    const sourceIndex: nat
    const vertexData: array<VertexData>
    var treeEdges: seq<Edge>
    var backEdges: seq<Edge>
    var fwdEdges: seq<Edge>
    var crossEdges: seq<Edge>

    /** Whether `doDFS` has run, and the vertex its classification pass
        started from. */
    ghost var searched: bool
    ghost var classifiedFrom: nat

    /** Before the search every record is the initial one and the lists are
        empty; after it the records are those of a complete search and each
        list holds, in visiting order, the edges of its kind among those the
        classification pass visited. */
    ghost predicate Valid()
      reads this, vertexData
    {
      vertexData.Length == |adj| &&
      TreeConsistent(adj, sourceIndex, vertexData[..]) &&
      (!searched ==>
         (forall v :: 0 <= v < vertexData.Length ==> vertexData[v] == InitialVertexData()) &&
         treeEdges == [] && backEdges == [] && fwdEdges == [] && crossEdges == []) &&
      (searched ==>
         DfsResult(adj, sourceIndex, vertexData[..]) && ListsHold(classifiedFrom))
    }

    /** Each list is the selection of its kind from the edges a pass
        starting at vertex `first` visits. */
    ghost predicate ListsHold(first: nat)
      reads this, vertexData
      requires vertexData.Length == |adj| && ValidGraph(adj) && ParentsOrdered(vertexData[..])
    {
      var D := vertexData[..];
      ListsFor(D, EdgesOf(adj, D, first, |adj|), treeEdges, backEdges, fwdEdges, crossEdges)
    }

    /** `DepthFirstSearch(theGraph, sourceIndex)`: empty lists and one
        initial record per vertex. */
    constructor (graph: seq<seq<nat>>, source: nat)
      requires ValidGraph(graph)
      ensures adj == graph && sourceIndex == source && fresh(vertexData)
      ensures Valid() && !searched
      ensures forall v :: 0 <= v < vertexData.Length ==> vertexData[v] == InitialVertexData()
      ensures treeEdges == [] && backEdges == [] && fwdEdges == [] && crossEdges == []
    {
      adj := graph;
      sourceIndex := source;
      treeEdges := [];
      backEdges := [];
      fwdEdges := [];
      crossEdges := [];
      var data := new VertexData[|graph|];
      for i := 0 to |graph|
        invariant forall k :: 0 <= k < i ==> data[k] == InitialVertexData()
      {
        data[i] := InitialVertexData();
      }
      vertexData := data;
      searched := false;
      classifiedFrom := 0;
    }

    /** `DepthFirstSearch(theGraph)`: the source defaults to vertex 0. */
    static method WithDefaultSource(graph: seq<seq<nat>>) returns (dfs: DepthFirstSearch)
      requires ValidGraph(graph)
      ensures fresh(dfs) && fresh(dfs.vertexData)
      ensures dfs.adj == graph && dfs.sourceIndex == 0
      ensures dfs.Valid() && !dfs.searched
    {
      dfs := new DepthFirstSearch(graph, 0);
    }

    /** `doDFS` as written: the traversal, then the classification pass,
        which starts at the source vertex. */
    method DoDFS()
      requires Valid() && !searched && sourceIndex < |adj|
      modifies this, vertexData
      ensures Valid() && searched && classifiedFrom == sourceIndex
      ensures DfsResult(adj, sourceIndex, vertexData[..])
      ensures ListsHold(sourceIndex)
    {
      Traverse();
      ghost var D := vertexData[..];
      var tree, back, fwd, cross := ClassifyEdges(D, sourceIndex);
      StoreLists(tree, back, fwd, cross, sourceIndex);
      assert vertexData[..] == D;
    }

    /** `doDFS` with the classification pass over all vertices, as its
        comment intends: every out-edge of every reached vertex is
        classified. */
    method DoDFSAllVertices()
      requires Valid() && !searched && sourceIndex < |adj|
      modifies this, vertexData
      ensures Valid() && searched && classifiedFrom == 0
      ensures DfsResult(adj, sourceIndex, vertexData[..])
      ensures ListsHold(0)
    {
      Traverse();
      ghost var D := vertexData[..];
      var tree, back, fwd, cross := ClassifyEdges(D, 0);
      StoreLists(tree, back, fwd, cross, 0);
      assert vertexData[..] == D;
    }

    /** Records the four lists the classification pass produced, and that
        the search has run with its pass starting at `first`. */
    method StoreLists(tree: seq<Edge>, back: seq<Edge>, fwd: seq<Edge>, cross: seq<Edge>,
                      ghost first: nat)
      modifies this
      ensures treeEdges == tree && backEdges == back && fwdEdges == fwd && crossEdges == cross
      ensures searched && classifiedFrom == first
    {
      treeEdges, backEdges, fwdEdges, crossEdges := tree, back, fwd, cross;
      searched := true;
      classifiedFrom := first;
    }

    /** The traversal half of `doDFS`: from initial records to the records
        of a complete search from the source.  The ghost `D` and `stk`
        mirror the record array and the stack contents. */
    method Traverse()
      requires vertexData.Length == |adj| && ValidGraph(adj) && sourceIndex < |adj|
      requires forall v :: 0 <= v < vertexData.Length ==> vertexData[v] == InitialVertexData()
      modifies vertexData
      ensures DfsResult(adj, sourceIndex, vertexData[..])
    {
      var stack := new ArrayStack<nat>(|adj|);
      var time := 0;
      ghost var D := vertexData[..];
      InitialState(adj, sourceIndex, D);
      stack.Push(sourceIndex);
      vertexData[sourceIndex] :=
        vertexData[sourceIndex].(color := Gray, distance := Some(0), startTime := time);
      D := Started(D, sourceIndex);
      ghost var stk := [sourceIndex];
      assert vertexData[..] == D;

      while !stack.IsEmpty()
        invariant fresh(stack) && fresh(stack.stackItems)
        invariant stack.Valid() && stack.Capacity() == |adj|
        invariant vertexData[..] == D && stack.Contents == stk
        invariant TraversalInv(adj, sourceIndex, D, stk, time)
        decreases |WhiteSet(D)|, |stk|
      {
        D, stk, time := ProcessTop(D, stk, stack, time);
      }
      FinalState(adj, sourceIndex, D, time);
    }

    /** One turn of `doDFS`'s outer `while` loop: the vertices reached
        depth first from the top of the stack are discovered, then the
        vertex left on top, which has no WHITE neighbour, is popped and
        finished.  The traversal invariant is kept, and either a vertex
        stops being WHITE or the stack shrinks. */
    method ProcessTop(ghost D: seq<VertexData>, ghost stk: seq<nat>, stack: ArrayStack<nat>, time: int)
      returns (ghost D': seq<VertexData>, ghost stk': seq<nat>, time': int)
      requires stack.Valid() && stack.Capacity() == |adj|
      requires vertexData[..] == D && stack.Contents == stk
      requires TraversalInv(adj, sourceIndex, D, stk, time) && |stk| > 0
      modifies stack, stack.stackItems, vertexData
      ensures stack.Valid() && stack.Capacity() == |adj|
      ensures vertexData[..] == D' && stack.Contents == stk'
      ensures TraversalInv(adj, sourceIndex, D', stk', time')
      ensures |WhiteSet(D')| < |WhiteSet(D)| || (|WhiteSet(D')| == |WhiteSet(D)| && |stk'| < |stk|)
    {
      var cur;
      D', stk', cur, time' := Descend(D, stk, stack, time);
      FinishStep(adj, sourceIndex, D', stk', time', cur);
      FinishVertex(D', stk', stack, time');
      D', stk' := Finished(D', sourceIndex, stk', time'), stk'[..|stk'| - 1];
      time' := time' + 1;
    }

    /** The inner scan of `doDFS`'s outer loop: the neighbours of the vertex on top
        of the stack are scanned in order; a WHITE one is discovered and the
        scan restarts from it.  On exit the vertex `cur` on top has no WHITE
        neighbour.  The traversal invariant is kept, and either a vertex
        stopped being WHITE or the stack is as it was. */
    method Descend(ghost D: seq<VertexData>, ghost stk: seq<nat>, stack: ArrayStack<nat>, time: int)
      returns (ghost D': seq<VertexData>, ghost stk': seq<nat>, cur: nat, time': int)
      requires stack.Valid() && stack.Capacity() == |adj|
      requires vertexData[..] == D && stack.Contents == stk
      requires TraversalInv(adj, sourceIndex, D, stk, time) && |stk| > 0
      modifies stack, stack.stackItems, vertexData
      ensures stack.Valid() && stack.Capacity() == |adj|
      ensures vertexData[..] == D' && stack.Contents == stk'
      ensures TraversalInv(adj, sourceIndex, D', stk', time')
      ensures TopIs(stk', cur)
      ensures ScannedPrefix(adj, D', cur, |adj[cur]|)
      ensures |WhiteSet(D')| < |WhiteSet(D)| || (|WhiteSet(D')| == |WhiteSet(D)| && stk' == stk)
    {
      D', stk', time' := D, stk, time;
      cur := stack.Peek();
      var i: nat := 0;
      while i < |adj[cur]|
        invariant stack.Valid() && stack.Capacity() == |adj|
        invariant vertexData[..] == D' && stack.Contents == stk'
        invariant TraversalInv(adj, sourceIndex, D', stk', time')
        invariant TopIs(stk', cur) && i <= |adj[cur]|
        invariant ScannedPrefix(adj, D', cur, i)
        invariant |WhiteSet(D')| < |WhiteSet(D)| || (|WhiteSet(D')| == |WhiteSet(D)| && stk' == stk)
        decreases |WhiteSet(D')|, |adj[cur]| - i
      {
        D', stk', cur, i, time' := ExamineNeighbour(D', stk', stack, cur, i, time');
      }
      assert i == |adj[cur]|;
    }

    /** One turn of the inner scan: the next neighbour `w` of
        `cur` is examined; a WHITE one is discovered and the scan restarts
        from `w`, any other is passed over.  The traversal invariant is
        kept, and either a vertex stops being WHITE or only the scan moves
        on. */
    method ExamineNeighbour(ghost D: seq<VertexData>, ghost stk: seq<nat>, stack: ArrayStack<nat>,
                            cur: nat, i: nat, time: int)
      returns (ghost D': seq<VertexData>, ghost stk': seq<nat>, cur': nat, i': nat, time': int)
      requires stack.Valid() && stack.Capacity() == |adj|
      requires vertexData[..] == D && stack.Contents == stk
      requires TraversalInv(adj, sourceIndex, D, stk, time)
      requires TopIs(stk, cur) && i < |adj[cur]|
      requires ScannedPrefix(adj, D, cur, i)
      modifies stack, stack.stackItems, vertexData
      ensures stack.Valid() && stack.Capacity() == |adj|
      ensures vertexData[..] == D' && stack.Contents == stk'
      ensures TraversalInv(adj, sourceIndex, D', stk', time')
      ensures TopIs(stk', cur') && i' <= |adj[cur']|
      ensures ScannedPrefix(adj, D', cur', i')
      ensures |WhiteSet(D')| < |WhiteSet(D)| ||
              (D' == D && stk' == stk && cur' == cur && i' == i + 1)
      ensures D[adj[cur][i]].color == White ==>
        D' == Discovered(D, cur, adj[cur][i], time) && stk' == stk + [adj[cur][i]] &&
        cur' == adj[cur][i] && i' == 0 && time' == time + 1
      ensures D[adj[cur][i]].color != White ==>
        D' == D && stk' == stk && cur' == cur && i' == i + 1 && time' == time
    {
      var w := adj[cur][i];
      if vertexData[w].color == White {
        DiscoverVertex(D, stk, stack, cur, i, w, time);
        D', stk' := Discovered(D, cur, w, time), stk + [w];
        cur', i', time' := w, 0, time + 1;
      } else {
        ScanPast(adj, D, cur, i);
        D', stk' := D, stk;
        cur', i', time' := cur, i + 1, time;
      }
    }

    /** The discovery branch of the inner scan: `w`, a WHITE neighbour of the
        vertex `cur` on top of the stack, is pushed, turns GRAY, is one
        further from the source than `cur` and is discovered at the next
        tick.  The traversal invariant is kept and one vertex fewer is
        WHITE. */
    method DiscoverVertex(ghost D: seq<VertexData>, ghost stk: seq<nat>,
                          stack: ArrayStack<nat>, cur: nat, ghost i: nat, w: nat, time: int)
      requires stack.Valid() && stack.Capacity() == |adj|
      requires vertexData[..] == D && stack.Contents == stk
      requires TraversalInv(adj, sourceIndex, D, stk, time)
      requires TopIs(stk, cur)
      requires i < |adj[cur]| && adj[cur][i] == w
      requires ScannedPrefix(adj, D, cur, i)
      requires w < |D| && D[w].color == White
      modifies stack, stack.stackItems, vertexData
      ensures stack.Valid() && stack.Capacity() == |adj|
      ensures stack.Contents == stk + [w]
      ensures vertexData[..] == Discovered(D, cur, w, time)
      ensures TraversalInv(adj, sourceIndex, Discovered(D, cur, w, time), stk + [w], time + 1)
      ensures |WhiteSet(Discovered(D, cur, w, time))| < |WhiteSet(D)|
    {
      DiscoverStep(adj, sourceIndex, D, stk, time, cur, i, w);
      stack.Push(w);
      vertexData[w] := vertexData[w].(color := Gray,
                                      distance := Some(vertexData[cur].distance.value + 1),
                                      startTime := time + 1);
      assert vertexData[..] == Discovered(D, cur, w, time);
    }

    /** The pop at the end of the outer loop: the top vertex is popped, takes
        the vertex beneath it as its parent unless it is the source, turns
        BLACK and is finished at the next tick. */
    method FinishVertex(ghost D: seq<VertexData>, ghost stk: seq<nat>,
                        stack: ArrayStack<nat>, time: int)
      requires vertexData[..] == D && stack.Valid() && stack.Contents == stk
      requires |stk| > 0 && stk[|stk| - 1] < |D|
      requires stk[|stk| - 1] != sourceIndex ==> |stk| >= 2
      modifies stack, vertexData
      ensures stack.Valid() && stack.Capacity() == old(stack.Capacity())
      ensures stack.Contents == stk[..|stk| - 1]
      ensures vertexData[..] == Finished(D, sourceIndex, stk, time)
    {
      var v := stack.Pop();
      var parent := vertexData[v].parentIndex;
      if v != sourceIndex {
        parent := stack.Peek();
      }
      vertexData[v] := vertexData[v].(parentIndex := parent, color := Black, endTime := time + 1);
      assert vertexData[..] == Finished(D, sourceIndex, stk, time);
    }

    /** The classification half of `doDFS`, starting at vertex `first`:
        every out-edge of every non-WHITE vertex from `first` on, in order,
        goes to the list of its kind.  The lists are returned rather than
        appended to the fields one by one. */
    method ClassifyEdges(ghost D: seq<VertexData>, first: nat)
      returns (tree: seq<Edge>, back: seq<Edge>, fwd: seq<Edge>, cross: seq<Edge>)
      requires vertexData[..] == D && |D| == |adj| && ValidGraph(adj) && ParentsOrdered(D)
      requires first <= |adj|
      ensures ListsFor(D, EdgesOf(adj, D, first, |adj|), tree, back, fwd, cross)
    {
      tree, back, fwd, cross := [], [], [], [];
      ghost var done: seq<Edge> := [];
      var u := first;
      while u < |adj|
        invariant first <= u <= |adj|
        invariant done == EdgesOf(adj, D, first, u)
        invariant ListsFor(D, done, tree, back, fwd, cross)
      {
        if vertexData[u].color != White {
          var t, b, f, c := ClassifyOutEdges(D, u);
          ListsForAppend(D, done, OutEdges(u, adj[u]), tree, back, fwd, cross, t, b, f, c);
          tree, back, fwd, cross := tree + t, back + b, fwd + f, cross + c;
          done := done + OutEdges(u, adj[u]);
        }
        u := u + 1;
      }
    }

    /** One round of the classification pass: the out-edges of vertex `u`,
        in edge order, each put in the list of its kind. */
    method ClassifyOutEdges(ghost D: seq<VertexData>, u: nat)
      returns (tree: seq<Edge>, back: seq<Edge>, fwd: seq<Edge>, cross: seq<Edge>)
      requires vertexData[..] == D && |D| == |adj| && ValidGraph(adj) && ParentsOrdered(D)
      requires u < |adj|
      ensures ListsFor(D, OutEdges(u, adj[u]), tree, back, fwd, cross)
    {
      tree, back, fwd, cross := [], [], [], [];
      ghost var done: seq<Edge> := [];
      var j := 0;
      while j < |adj[u]|
        invariant 0 <= j <= |adj[u]|
        invariant done == OutEdges(u, adj[u][..j])
        invariant ListsFor(D, done, tree, back, fwd, cross)
      {
        var w := adj[u][j];
        var e := Edge(u, w);
        assert adj[u][..j + 1] == adj[u][..j] + [w];
        OutEdgesSnoc(u, adj[u][..j], w);
        var k := ClassifyEdge(D, u, w);
        ListsForSnoc(D, done, e, tree, back, fwd, cross);
        if k == TreeEdge {
          tree := tree + [e];
        } else if k == BackEdge {
          back := back + [e];
        } else if k == ForwardEdge {
          fwd := fwd + [e];
        } else {
          cross := cross + [e];
        }
        done := done + [e];
        j := j + 1;
      }
      assert adj[u][..|adj[u]|] == adj[u];
    }

    /** The body of the classification pass for one edge `u -> w`: a tree
        edge if `w`'s parent is `u`; otherwise the two ancestor walks decide
        back, forward or, failing both, cross. */
    method ClassifyEdge(ghost D: seq<VertexData>, u: nat, w: nat) returns (kind: EdgeKind)
      requires vertexData[..] == D && ParentsOrdered(D)
      requires u < |D| && w < |D|
      ensures kind == KindOf(D, Edge(u, w))
    {
      var ifEdgeClassified := false;
      kind := CrossEdge;
      if vertexData[w].parentIndex == u {
        kind := TreeEdge;
        ifEdgeClassified := true;
      } else {
        BackForwardExclusive(D, u, w);
        var parent := WalkToAncestor(vertexData[u].parentIndex, w);
        if w == parent || u == w {
          kind := BackEdge;
          ifEdgeClassified := true;
        }
        parent := WalkToAncestor(w, u);
        if u == parent && u != w {
          kind := ForwardEdge;
          ifEdgeClassified := true;
        }
        if !ifEdgeClassified {
          kind := CrossEdge;
        }
      }
    }

    /** One ancestor walk of the classification pass: follows parent
        pointers from `start` until it meets `target` or falls off the
        root; the result is `target` exactly when `target` is on the chain. */
    method WalkToAncestor(start: int, target: nat) returns (parent: int)
      requires ParentsOrdered(vertexData[..])
      requires start == NoParent || 0 <= start < vertexData.Length
      ensures parent == target <==> OnChain(vertexData[..], start, target)
      ensures parent == target || parent == NoParent
    {
      ghost var D := vertexData[..];
      parent := start;
      while target != parent && parent != NoParent
        invariant parent == NoParent || 0 <= parent < vertexData.Length
        invariant OnChain(D, start, target) <==> OnChain(D, parent, target)
        decreases if parent == NoParent then 0 else D[parent].startTime + 1
      {
        parent := vertexData[parent].parentIndex;
      }
    }

    /** `getPathFromSource`: the tree path to the vertex, or a message when
        its distance is infinite. */
    function GetPathFromSource(vertexIndex: nat): (r: string)
      reads this, vertexData
      requires Valid() && vertexIndex < vertexData.Length
      ensures vertexData[vertexIndex].distance == None ==>
        r == "No path from source vertex to vertex " + NatToString(vertexIndex) + "."
      ensures var D := vertexData[..]; D[vertexIndex].distance.Some? ==>
        exists path :: IsPath(adj, path) && r == "(" + Spaced(path) + ")" &&
          path[0] == sourceIndex && path[|path| - 1] == vertexIndex &&
          |path| == D[vertexIndex].distance.value + 1 &&
          forall i :: 0 < i < |path| ==> D[path[i]].parentIndex == path[i - 1]
    {
      if vertexData[vertexIndex].distance == None then
        "No path from source vertex to vertex " + NatToString(vertexIndex) + "."
      else
        var D := vertexData[..];
        var path := TreePath(D, vertexIndex);
        TreePathFromSource(adj, sourceIndex, D, vertexIndex);
        var r := "(" + GetPathFromSourceHelper(vertexIndex) + ")";
        assert IsPath(adj, path) && r == "(" + Spaced(path) + ")" &&
          path[0] == sourceIndex && path[|path| - 1] == vertexIndex &&
          |path| == D[vertexIndex].distance.value + 1 &&
          forall i :: 0 < i < |path| ==> D[path[i]].parentIndex == path[i - 1];
        r
    }

    /** `getPathFromSourceHelper`: the parent chain of the vertex, root
        first, separated by blanks. */
    function GetPathFromSourceHelper(vertexIndex: nat): (r: string)
      reads this, vertexData
      requires Valid() && vertexIndex < vertexData.Length
      ensures r == Spaced(TreePath(vertexData[..], vertexIndex))
      decreases vertexData[vertexIndex].startTime
    {
      var p := vertexData[vertexIndex].parentIndex;
      if p == NoParent then NatToString(vertexIndex)
      else GetPathFromSourceHelper(p) + " " + NatToString(vertexIndex)
    }

    /** `dfsTreeToString`: the rendering of the tree below the source. */
    method DfsTreeToString() returns (s: string)
      requires Valid() && sourceIndex < |adj|
      ensures s == Render(SubtreeTokens(adj, vertexData[..], sourceIndex))
    {
      s := DfsTreeToStringHelper(sourceIndex, vertexData[sourceIndex].startTime,
                                 vertexData[sourceIndex].endTime);
    }

    /** `dfsTreeToStringHelper`: the opening token with the given stamps,
        the rendering of each tree child in edge order, and a closing
        token. */
    method DfsTreeToStringHelper(vertexIndex: nat, startTime: int, endTime: int) returns (s: string)
      requires vertexData.Length == |adj| && Renderable(adj, vertexData[..]) && vertexIndex < |adj|
      ensures s == Render([Open(vertexIndex, startTime, endTime)] +
                          ChildrenTokens(adj, vertexData[..], vertexIndex, 0) + [Close])
      decreases 2 * vertexData.Length - vertexData[vertexIndex].startTime, 1
    {
      ghost var D := vertexData[..];
      s := TokenString(Open(vertexIndex, startTime, endTime));
      ghost var opening := s;
      var j := 0;
      while j < |adj[vertexIndex]|
        invariant j <= |adj[vertexIndex]| && vertexData[..] == D
        invariant s == TextSoFar(adj, D, vertexIndex, opening, j)
      {
        s := AppendChild(s, vertexIndex, j);
        j := j + 1;
      }
      TextSoFarAll(adj, D, vertexIndex, opening);
      s := s + TokenString(Close);
      RenderWrapped(Open(vertexIndex, startTime, endTime), ChildrenTokens(adj, D, vertexIndex, 0));
    }

    /** One turn of the loop of `dfsTreeToStringHelper`: `s` followed by
        the text of the subtree of `adj[v][j]` when its parent is `v`. */
    method AppendChild(s: string, v: nat, j: nat) returns (s': string)
      requires vertexData.Length == |adj| && Renderable(adj, vertexData[..])
      requires v < |adj| && j < |adj[v]|
      ensures s' == s + Render(ChildTokens(adj, vertexData[..], v, j))
      decreases 2 * vertexData.Length - vertexData[v].startTime, 0
    {
      var u := adj[v][j];
      if vertexData[u].parentIndex == v {
        var piece := DfsTreeToStringHelper(u, vertexData[u].startTime, vertexData[u].endTime);
        s' := s + piece;
      } else {
        s' := s;
        assert s + "" == s;
      }
    }

    /** `getTreeEdgeIterator`: the edges to a child in the tree. */
    function GetTreeEdges(): (r: seq<Edge>)
      reads this, vertexData
      requires Valid()
      ensures !searched ==> r == []
      ensures searched ==> var D := vertexData[..]; forall e :: e in r <==>
        classifiedFrom <= e.from < |D| && D[e.from].color == Black &&
        e.to in adj[e.from] && e.to < |D| && D[e.to].parentIndex == e.from
    {
      TreeListMeaning(adj, vertexData[..], classifiedFrom);
      treeEdges
    }

    /** `getBackEdgeIterator`: the non-tree edges to an ancestor or to the
        vertex itself. */
    function GetBackEdges(): (r: seq<Edge>)
      reads this, vertexData
      requires Valid()
      ensures !searched ==> r == []
      ensures searched ==> var D := vertexData[..]; forall e :: e in r <==>
        classifiedFrom <= e.from < |D| && D[e.from].color == Black &&
        e.to in adj[e.from] && e.to < |D| && D[e.to].parentIndex != e.from &&
        (e.to == e.from || ProperAncestor(D, e.to, e.from))
    {
      BackListMeaning(adj, vertexData[..], classifiedFrom);
      backEdges
    }

    /** `getForwardEdgeIterator`: the non-tree edges to a proper
        descendant. */
    function GetForwardEdges(): (r: seq<Edge>)
      reads this, vertexData
      requires Valid()
      ensures !searched ==> r == []
      ensures searched ==> var D := vertexData[..]; forall e :: e in r <==>
        classifiedFrom <= e.from < |D| && D[e.from].color == Black &&
        e.to in adj[e.from] && e.to < |D| && D[e.to].parentIndex != e.from &&
        ProperAncestor(D, e.from, e.to)
    {
      ForwardListMeaning(adj, vertexData[..], classifiedFrom);
      fwdEdges
    }

    /** `getCrossEdgeIterator`: the edges between vertices neither of which
        is an ancestor of the other. */
    function GetCrossEdges(): (r: seq<Edge>)
      reads this, vertexData
      requires Valid()
      ensures !searched ==> r == []
      ensures searched ==> var D := vertexData[..]; forall e :: e in r <==>
        classifiedFrom <= e.from < |D| && D[e.from].color == Black &&
        e.to in adj[e.from] && e.to < |D| && D[e.to].parentIndex != e.from &&
        e.to != e.from && !ProperAncestor(D, e.to, e.from) && !ProperAncestor(D, e.from, e.to)
    {
      CrossListMeaning(adj, vertexData[..], classifiedFrom);
      crossEdges
    }
  }
}
