/** Queries over the finished records of DepthFirstSearch.java: the path
    from the source along parent pointers (`getPathFromSourceHelper`), the
    parenthesised rendering of the search tree (`dfsTreeToStringHelper`),
    and what the records say about reachability and time-stamp nesting. */
module DfsTree {
  import opened Wrappers
  import opened Graphs
  import opened VertexRecords
  import opened Strings

  /** The parent chain of `v`, root first: the vertices that
      `getPathFromSourceHelper` prints. */
  function TreePath(D: seq<VertexData>, v: nat): (path: seq<nat>)
    requires ParentsOrdered(D) && v < |D|
    ensures |path| >= 1 && path[|path| - 1] == v
    ensures forall i :: 0 <= i < |path| ==> path[i] < |D|
    ensures D[path[0]].parentIndex == NoParent
    ensures forall i :: 0 < i < |path| ==> D[path[i]].parentIndex == path[i - 1]
    decreases D[v].startTime
  {
    if D[v].parentIndex == NoParent then [v]
    else TreePath(D, D[v].parentIndex) + [v]
  }

  /** A vertex with a finite distance `d` has a tree path of `d + 1`
      vertices that starts at the source and follows edges of the graph. */
  lemma {:induction false} TreePathFromSource(adj: seq<seq<nat>>, source: nat, D: seq<VertexData>, v: nat)
    requires TreeConsistent(adj, source, D) && v < |D| && D[v].distance.Some?
    ensures var path := TreePath(D, v);
      path[0] == source && |path| == D[v].distance.value + 1 && IsPath(adj, path)
    decreases D[v].startTime
  {
    var p := D[v].parentIndex;
    if p != NoParent {
      TreePathFromSource(adj, source, D, p);
    }
  }

  /** From a BLACK vertex every edge leads to a BLACK vertex, so a path that
      starts BLACK stays BLACK. */
  lemma {:induction false} PathStaysBlack(adj: seq<seq<nat>>, D: seq<VertexData>, p: seq<nat>)
    requires |D| == |adj| && ValidGraph(adj) && IsPath(adj, p) && D[p[0]].color == Black
    requires forall v, j :: 0 <= v < |D| && D[v].color == Black && 0 <= j < |adj[v]| ==>
      D[adj[v][j]].color == Black
    ensures D[p[|p| - 1]].color == Black
    decreases |p|
  {
    if |p| > 1 {
      var q := p[..|p| - 1];
      assert IsPath(adj, q);
      PathStaysBlack(adj, D, q);
      var u, w := p[|p| - 2], p[|p| - 1];
      var j :| 0 <= j < |adj[u]| && adj[u][j] == w;
    }
  }

  /** After the search the BLACK vertices are exactly those reachable from
      the source, and they are exactly those with a finite distance. */
  lemma ReachedIffReachable(adj: seq<seq<nat>>, source: nat, D: seq<VertexData>, v: nat)
    requires DfsResult(adj, source, D) && v < |D|
    ensures D[v].color == Black <==> Reachable(adj, source, v)
    ensures D[v].distance.Some? <==> Reachable(adj, source, v)
  {
    if D[v].color == Black {
      assert D[v].distance.Some?;
      TreePathFromSource(adj, source, D, v);
      var path := TreePath(D, v);
      assert IsPath(adj, path) && path[0] == source && path[|path| - 1] == v;
    }
    if Reachable(adj, source, v) {
      var p :| IsPath(adj, p) && p[0] == source && p[|p| - 1] == v;
      PathStaysBlack(adj, D, p);
    }
  }

  /** A proper ancestor's interval strictly encloses its descendant's. */
  lemma {:induction false} AncestorNesting(adj: seq<seq<nat>>, source: nat, D: seq<VertexData>, a: nat, v: nat)
    requires DfsResult(adj, source, D) && v < |D| && D[v].color == Black
    requires ProperAncestor(D, a, v)
    ensures a < |D| && D[a].color == Black
    ensures D[a].startTime < D[v].startTime < D[v].endTime < D[a].endTime
    decreases D[v].startTime
  {
    var p := D[v].parentIndex;
    if p != a {
      AncestorNesting(adj, source, D, a, p);
    }
  }

  /** Conversely, a vertex whose interval strictly encloses another's is a
      proper ancestor of it.  The parent of `v` is the innermost vertex
      unfinished when `v` was discovered, so any other enclosing vertex
      encloses the parent too. */
  lemma {:induction false} NestingAncestor(adj: seq<seq<nat>>, source: nat, D: seq<VertexData>, a: nat, v: nat)
    requires DfsResult(adj, source, D) && a < |D| && v < |D|
    requires D[a].color == Black && D[v].color == Black
    requires D[a].startTime < D[v].startTime && D[v].endTime < D[a].endTime
    ensures ProperAncestor(D, a, v)
    decreases D[v].startTime
  {
    assert v != source;
    var p := D[v].parentIndex;
    if p != a {
      assert D[a].startTime < D[p].startTime by {
        assert StartOf(D, a) != StartOf(D, p);
        assert FinishedBetween(D, p, v);
      }
      assert StartOf(D, a) < StartOf(D, p);
      NestingAncestor(adj, source, D, a, p);
    }
  }

  /** The parenthesis theorem: the intervals of two distinct reached
      vertices are nested exactly when one is a proper ancestor of the
      other, and disjoint otherwise. */
  lemma Parenthesis(adj: seq<seq<nat>>, source: nat, D: seq<VertexData>, u: nat, v: nat)
    requires DfsResult(adj, source, D) && u < |D| && v < |D| && u != v
    requires D[u].color == Black && D[v].color == Black
    ensures ProperAncestor(D, u, v) <==>
      D[u].startTime < D[v].startTime && D[v].endTime < D[u].endTime
    ensures ProperAncestor(D, v, u) <==>
      D[v].startTime < D[u].startTime && D[u].endTime < D[v].endTime
    ensures !ProperAncestor(D, u, v) && !ProperAncestor(D, v, u) <==>
      D[u].endTime < D[v].startTime || D[v].endTime < D[u].startTime
  {
    AncestorIffNested(adj, source, D, u, v);
    AncestorIffNested(adj, source, D, v, u);
    NestedOrDisjoint(D, u, v);
  }

  /** The adjacency list of `p` is scanned in order: an entry listed before
      the first occurrence of its child `c` was discovered no later than
      `p`, or was finished before `c` was discovered. */
  lemma ListedBeforeChild(adj: seq<seq<nat>>, source: nat, D: seq<VertexData>, p: nat, i: nat, c: nat)
    requires DfsResult(adj, source, D) && p < |D| && c < |D| && D[c].color == Black
    requires c != source && D[c].parentIndex == p
    requires i < |adj[p]| && c !in adj[p][..i] && adj[p][i] != c
    ensures D[adj[p][i]].color == Black
    ensures D[adj[p][i]].startTime <= D[p].startTime || D[adj[p][i]].endTime < D[c].startTime
  {
    assert DiscoveredFrom(adj, D, p, c);
    ScanStep(adj, D, p, i, c);
  }

  /** After a search every reached vertex other than the source hangs below
      a reached vertex whose adjacency list holds it. */
  lemma ListedByParent(adj: seq<seq<nat>>, source: nat, D: seq<VertexData>, v: nat)
    requires DfsResult(adj, source, D) && v < |D| && D[v].color == Black && v != source
    ensures 0 <= D[v].parentIndex < |D| && v in adj[D[v].parentIndex]
  {
  }

  /** If `p` lists `u` ahead of its child `c`, and `u` was discovered after
      `p`, then `u` finished before `c` was discovered, and so did the
      discovery of every vertex `u` has an edge to: none of those hangs
      below `c`. */
  lemma ListedBeforeChildFirst(adj: seq<seq<nat>>, source: nat, D: seq<VertexData>, p: nat, i: nat, c: nat, x: nat)
    requires DfsResult(adj, source, D) && p < |D| && c < |D| && D[c].color == Black
    requires c != source && D[c].parentIndex == p
    requires i < |adj[p]| && c !in adj[p][..i] && adj[p][i] != c
    requires D[p].startTime < D[adj[p][i]].startTime && x in adj[adj[p][i]]
    ensures D[adj[p][i]].color == Black && D[adj[p][i]].endTime < D[c].startTime
    ensures D[x].startTime < D[c].startTime && D[x].parentIndex != c
  {
    ListedBeforeChild(adj, source, D, p, i, c);
    EdgeHeadStartsFirst(adj, D, adj[p][i], x);
  }

  lemma EdgeHeadStartsFirst(adj: seq<seq<nat>>, D: seq<VertexData>, u: nat, x: nat)
    requires |D| == |adj| && ValidGraph(adj) && EdgesStartBeforeFinish(adj, D)
    requires u < |D| && D[u].color == Black && x in adj[u]
    ensures D[x].startTime < D[u].endTime
  {
    var j :| 0 <= j < |adj[u]| && adj[u][j] == x;
  }

  lemma ScanStep(adj: seq<seq<nat>>, D: seq<VertexData>, p: nat, i: nat, c: nat)
    requires |D| == |adj| && ValidGraph(adj) && p < |D| && c < |D| && StampsDistinct(D)
    requires DiscoveredFrom(adj, D, p, c) && D[c].color == Black
    requires i < |adj[p]| && c !in adj[p][..i] && adj[p][i] != c
    ensures D[adj[p][i]].color != White
    ensures D[adj[p][i]].startTime <= D[p].startTime ||
            (D[adj[p][i]].color == Black && D[adj[p][i]].endTime < D[c].startTime)
  {
    assert StartOf(D, adj[p][i]) != StartOf(D, c);
  }

  lemma AncestorIffNested(adj: seq<seq<nat>>, source: nat, D: seq<VertexData>, a: nat, v: nat)
    requires DfsResult(adj, source, D) && a < |D| && v < |D|
    requires D[a].color == Black && D[v].color == Black
    ensures ProperAncestor(D, a, v) <==>
      D[a].startTime < D[v].startTime && D[v].endTime < D[a].endTime
  {
    if ProperAncestor(D, a, v) {
      AncestorNesting(adj, source, D, a, v);
    }
    if D[a].startTime < D[v].startTime && D[v].endTime < D[a].endTime {
      NestingAncestor(adj, source, D, a, v);
    }
  }

  /** Two distinct finished intervals are disjoint or nested. */
  lemma NestedOrDisjoint(D: seq<VertexData>, u: nat, v: nat)
    requires IntervalsNest(D) && StampsDistinct(D) && u < |D| && v < |D| && u != v
    requires D[u].color == Black && D[v].color == Black
    requires D[u].startTime < D[u].endTime && D[v].startTime < D[v].endTime
    ensures (D[u].startTime < D[v].startTime && D[v].endTime < D[u].endTime) ||
            (D[v].startTime < D[u].startTime && D[u].endTime < D[v].endTime) ||
            D[u].endTime < D[v].startTime || D[v].endTime < D[u].startTime
  {
    assert StartOf(D, u) != StartOf(D, v);
  }

  /** One piece of the rendering: `( [v,start,end] ` or `) `. */
  datatype TreeToken = Open(vertex: nat, startTime: int, endTime: int) | Close

  /** What the recursive rendering needs of the records to terminate. */
  ghost predicate Renderable(adj: seq<seq<nat>>, D: seq<VertexData>)
  {
    |D| == |adj| && ValidGraph(adj) && ParentsOrdered(D)
  }

  /** Opening minus closing tokens. */
  function Depth(ts: seq<TreeToken>): int
  {
    if ts == [] then 0
    else Depth(ts[..|ts| - 1]) + (if ts[|ts| - 1].Open? then 1 else -1)
  }

  /** Every prefix closes no more than it opened and the whole is closed. */
  ghost predicate Balanced(ts: seq<TreeToken>)
  {
    Depth(ts) == 0 && forall i :: 0 <= i <= |ts| ==> Depth(ts[..i]) >= 0
  }

  /** Every opening token names a vertex that descends from `v` (or is `v`)
      and carries that vertex's own time stamps. */
  ghost predicate OpensBelow(D: seq<VertexData>, ts: seq<TreeToken>, v: nat)
    requires ParentsOrdered(D)
  {
    forall t :: t in ts && t.Open? ==>
      t.vertex < |D| && OnChain(D, t.vertex, v) &&
      t.startTime == D[t.vertex].startTime && t.endTime == D[t.vertex].endTime
  }

  /** `dfsTreeToStringHelper(v)`: `v`'s opening token, the rendering of each
      child `u` (a `u` with `parentIndex == v`) in `v`'s edge order, then a
      closing token.  `SubtreeShape` states what it yields. */
  function SubtreeTokens(adj: seq<seq<nat>>, D: seq<VertexData>, v: nat): seq<TreeToken>
    requires Renderable(adj, D) && v < |D|
    decreases 2 * |D| - D[v].startTime, |adj[v]| + 1
  {
    [Open(v, D[v].startTime, D[v].endTime)] + ChildrenTokens(adj, D, v, 0) + [Close]
  }

  /** The renderings of the children found at `adj[v][j..]`. */
  function ChildrenTokens(adj: seq<seq<nat>>, D: seq<VertexData>, v: nat, j: nat): seq<TreeToken>
    requires Renderable(adj, D) && v < |D| && j <= |adj[v]|
    decreases 2 * |D| - D[v].startTime, |adj[v]| - j
  {
    if j == |adj[v]| then []
    else
      var u := adj[v][j];
      (if D[u].parentIndex == v then SubtreeTokens(adj, D, u) else []) + ChildrenTokens(adj, D, v, j + 1)
  }

  /** Every opening token names a proper descendant of `v` and carries that
      vertex's own time stamps. */
  ghost predicate OpensStrictlyBelow(D: seq<VertexData>, ts: seq<TreeToken>, v: nat)
    requires ParentsOrdered(D)
  {
    forall t :: t in ts && t.Open? ==>
      t.vertex < |D| && t.vertex != v && OnChain(D, t.vertex, v) &&
      t.startTime == D[t.vertex].startTime && t.endTime == D[t.vertex].endTime
  }

  /** The printed subtree of `v` opens with `v`'s own stamps, closes once,
      is balanced, and opens only descendants of `v`, each with its own
      stamps. */
  lemma {:induction false} SubtreeShape(adj: seq<seq<nat>>, D: seq<VertexData>, v: nat)
    requires Renderable(adj, D) && v < |D|
    ensures var r := SubtreeTokens(adj, D, v);
      |r| >= 2 && r[0] == Open(v, D[v].startTime, D[v].endTime) && r[|r| - 1] == Close &&
      Balanced(r) && OpensBelow(D, r, v)
    decreases 2 * |D| - D[v].startTime, |adj[v]| + 1
  {
    var kids := ChildrenTokens(adj, D, v, 0);
    ChildrenShape(adj, D, v, 0);
    WrapBalanced(kids);
    var r := [Open(v, D[v].startTime, D[v].endTime)] + kids + [Close];
    assert r == SubtreeTokens(adj, D, v);
    forall t | t in r && t.Open?
      ensures t.vertex < |D| && OnChain(D, t.vertex, v) &&
              t.startTime == D[t.vertex].startTime && t.endTime == D[t.vertex].endTime
    {
      if t != r[0] {
        assert t in kids;
      }
    }
  }

  /** The renderings of `v`'s children from `j` on are balanced and open
      only proper descendants of `v`. */
  lemma {:induction false} ChildrenShape(adj: seq<seq<nat>>, D: seq<VertexData>, v: nat, j: nat)
    requires Renderable(adj, D) && v < |D| && j <= |adj[v]|
    ensures Balanced(ChildrenTokens(adj, D, v, j))
    ensures OpensStrictlyBelow(D, ChildrenTokens(adj, D, v, j), v)
    decreases 2 * |D| - D[v].startTime, |adj[v]| - j
  {
    if j == |adj[v]| {
      assert Depth([]) == 0;
    } else {
      var u := adj[v][j];
      var here := if D[u].parentIndex == v then SubtreeTokens(adj, D, u) else [];
      var rest := ChildrenTokens(adj, D, v, j + 1);
      assert ChildrenTokens(adj, D, v, j) == here + rest;
      if D[u].parentIndex == v {
        SubtreeShape(adj, D, u);
      } else {
        assert Depth(here) == 0;
      }
      ChildrenShape(adj, D, v, j + 1);
      ConcatBalanced(here, rest);
      ChildOpensBelow(adj, D, v, u, here);
    }
  }

  /** The openings of a child's subtree lie strictly below the parent. */
  lemma ChildOpensBelow(adj: seq<seq<nat>>, D: seq<VertexData>, v: nat, u: nat, here: seq<TreeToken>)
    requires Renderable(adj, D) && v < |D| && u < |D|
    requires here != [] ==> D[u].parentIndex == v && OpensBelow(D, here, u)
    ensures OpensStrictlyBelow(D, here, v)
  {
    forall t | t in here && t.Open?
      ensures t.vertex != v && OnChain(D, t.vertex, v)
    {
      OnChainThroughParent(D, t.vertex, u, v);
      OnChainStartsEarlier(D, t.vertex, u);
    }
  }

  /** A chain that meets `c` goes on to meet `c`'s parent. */
  lemma {:induction false} OnChainThroughParent(D: seq<VertexData>, x: nat, c: nat, p: nat)
    requires ParentsOrdered(D) && x < |D| && c < |D| && D[c].parentIndex == p
    requires OnChain(D, x, c)
    ensures OnChain(D, x, p)
    decreases D[x].startTime
  {
    if x != c {
      OnChainThroughParent(D, D[x].parentIndex, c, p);
    }
  }

  lemma {:induction false} DepthConcat(a: seq<TreeToken>, b: seq<TreeToken>)
    ensures Depth(a + b) == Depth(a) + Depth(b)
    decreases |b|
  {
    if b == [] {
      assert a + b == a;
    } else {
      var b' := b[..|b| - 1];
      assert (a + b)[..|a + b| - 1] == a + b';
      assert (a + b)[|a + b| - 1] == b[|b| - 1];
      DepthConcat(a, b');
    }
  }

  lemma ConcatBalanced(a: seq<TreeToken>, b: seq<TreeToken>)
    requires Balanced(a) && Balanced(b)
    ensures Balanced(a + b)
  {
    DepthConcat(a, b);
    forall i | 0 <= i <= |a + b|
      ensures Depth((a + b)[..i]) >= 0
    {
      if i <= |a| {
        assert (a + b)[..i] == a[..i];
      } else {
        assert (a + b)[..i] == a + b[..i - |a|];
        DepthConcat(a, b[..i - |a|]);
      }
    }
  }

  /** Wrapping a balanced sequence in one opening and one closing token
      keeps it balanced. */
  lemma WrapBalanced(m: seq<TreeToken>)
    requires Balanced(m)
    ensures forall v, s, e :: Balanced([Open(v, s, e)] + m + [Close])
  {
    forall v, s, e
      ensures Balanced([Open(v, s, e)] + m + [Close])
    {
      var o := [Open(v, s, e)];
      var r := o + m + [Close];
      DepthConcat(o, m);
      DepthConcat(o + m, [Close]);
      assert Depth(o) == 1 by { assert o[..0] == []; }
      assert Depth([Close]) == -1 by { assert [Close][..0] == []; }
      forall i | 0 <= i <= |r|
        ensures Depth(r[..i]) >= 0
      {
        if i == 0 {
          assert r[..i] == [];
        } else if i <= |m| + 1 {
          assert r[..i] == o + m[..i - 1];
          DepthConcat(o, m[..i - 1]);
        } else {
          assert r[..i] == r;
        }
      }
    }
  }

  /** The text of one token: `( [v,start,end] ` or `) `. */
  function TokenString(t: TreeToken): string
  {
    match t
    case Open(v, st, en) =>
      "( [" + NatToString(v) + "," + IntToString(st) + "," + IntToString(en) + "] "
    case Close => ") "
  }

  /** The texts of the tokens, one per token. */
  function Texts(ts: seq<TreeToken>): (r: seq<string>)
    ensures |r| == |ts|
  {
    if ts == [] then [] else Texts(ts[..|ts| - 1]) + [TokenString(ts[|ts| - 1])]
  }

  lemma {:induction false} TextsAppend(a: seq<TreeToken>, b: seq<TreeToken>)
    ensures Texts(a + b) == Texts(a) + Texts(b)
    decreases |b|
  {
    if b == [] {
      assert a + b == a;
    } else {
      var b' := b[..|b| - 1];
      assert (a + b)[..|a + b| - 1] == a + b';
      assert (a + b)[|a + b| - 1] == b[|b| - 1];
      TextsAppend(a, b');
    }
  }

  /** The text of a token sequence. */
  function Render(ts: seq<TreeToken>): string
  {
    Concat(Texts(ts))
  }

  /** A single token renders as its own text. */
  lemma RenderOne(t: TreeToken)
    ensures Render([t]) == TokenString(t)
  {
    TextsOne(t);
    ConcatOne(TokenString(t));
  }

  lemma TextsOne(t: TreeToken)
    ensures Texts([t]) == [TokenString(t)]
  {
    assert [t][..0] == [];
  }

  lemma RenderConcat(a: seq<TreeToken>, b: seq<TreeToken>)
    ensures Render(a + b) == Render(a) + Render(b)
  {
    TextsAppend(a, b);
    ConcatAppend(Texts(a), Texts(b));
  }

  /** An opening token, a body and a closing token render one after the
      other. */
  lemma RenderWrapped(o: TreeToken, body: seq<TreeToken>)
    ensures Render([o] + body + [Close]) == TokenString(o) + Render(body) + ") "
  {
    RenderConcat([o], body);
    RenderConcat([o] + body, [Close]);
    RenderOne(o);
    RenderOne(Close);
  }

  /** Regrouping a concatenation of three sequences, as a separate step so
      that the proof of `TextSoFarSplit` does not search for it. */
  lemma AppendAssoc<T>(a: seq<T>, b: seq<T>, c: seq<T>)
    ensures (a + b) + c == a + (b + c)
  {
  }

  /** The rendering contributed by `adj[v][j]`: its subtree when it is a
      child of `v`, nothing otherwise. */
  function ChildTokens(adj: seq<seq<nat>>, D: seq<VertexData>, v: nat, j: nat): (r: seq<TreeToken>)
    requires Renderable(adj, D) && v < |D| && j < |adj[v]|
    ensures r == [] <==> D[adj[v][j]].parentIndex != v
  {
    var u := adj[v][j];
    if D[u].parentIndex == v then SubtreeTokens(adj, D, u) else []
  }

  /** The children found at `adj[v][j..]`: the contribution of `adj[v][j]`,
      then the rest. */
  lemma ChildrenTokensStep(adj: seq<seq<nat>>, D: seq<VertexData>, v: nat, j: nat)
    requires Renderable(adj, D) && v < |D| && j < |adj[v]|
    ensures ChildrenTokens(adj, D, v, j) == ChildTokens(adj, D, v, j) + ChildrenTokens(adj, D, v, j + 1)
  {
  }

  /** The text the loop of `dfsTreeToStringHelper` has built after `j`
      turns: `opening`, then the rendering of each child found at
      `adj[v][..j]`. */
  ghost function TextSoFar(adj: seq<seq<nat>>, D: seq<VertexData>, v: nat, opening: string, j: nat): string
    requires Renderable(adj, D) && v < |D| && j <= |adj[v]|
  {
    if j == 0 then opening else TextSoFar(adj, D, v, opening, j - 1) + Render(ChildTokens(adj, D, v, j - 1))
  }

  /** The text after `j` turns followed by the rendering of the children
      from `j` on is the opening followed by the rendering of all of them. */
  lemma {:induction false} TextSoFarSplit(adj: seq<seq<nat>>, D: seq<VertexData>, v: nat, opening: string, j: nat)
    requires Renderable(adj, D) && v < |D| && j <= |adj[v]|
    ensures TextSoFar(adj, D, v, opening, j) + Render(ChildrenTokens(adj, D, v, j)) ==
            opening + Render(ChildrenTokens(adj, D, v, 0))
    decreases j
  {
    if j > 0 {
      var before, here, rest := TextSoFar(adj, D, v, opening, j - 1), ChildTokens(adj, D, v, j - 1),
                                ChildrenTokens(adj, D, v, j);
      TextSoFarSplit(adj, D, v, opening, j - 1);
      ChildrenTokensStep(adj, D, v, j - 1);
      RenderConcat(here, rest);
      AppendAssoc(before, Render(here), Render(rest));
    }
  }

  /** After the last neighbour the loop has the opening and every child. */
  lemma TextSoFarAll(adj: seq<seq<nat>>, D: seq<VertexData>, v: nat, opening: string)
    requires Renderable(adj, D) && v < |D|
    ensures TextSoFar(adj, D, v, opening, |adj[v]|) == opening + Render(ChildrenTokens(adj, D, v, 0))
  {
    var n := |adj[v]|;
    TextSoFarSplit(adj, D, v, opening, n);
    assert Render(ChildrenTokens(adj, D, v, n)) == "";
    assert TextSoFar(adj, D, v, opening, n) + "" == TextSoFar(adj, D, v, opening, n);
  }

  /** Following parent pointers from a vertex with a finite distance ends at
      the source. */
  lemma {:induction false} OnChainFromDistance(adj: seq<seq<nat>>, source: nat, D: seq<VertexData>, u: nat)
    requires TreeConsistent(adj, source, D) && u < |D| && D[u].distance.Some?
    ensures OnChain(D, u, source)
    decreases D[u].startTime
  {
    if D[u].parentIndex != NoParent {
      OnChainFromDistance(adj, source, D, D[u].parentIndex);
    }
  }

  /** A vertex whose parent chain meets the source is the source or has a
      finite distance. */
  lemma OnChainHasDistance(adj: seq<seq<nat>>, source: nat, D: seq<VertexData>, x: nat)
    requires TreeConsistent(adj, source, D) && x < |D| && OnChain(D, x, source)
    ensures x == source || D[x].distance.Some?
  {
  }

  /** The renderings of the children from `j` on contain those from
      `j + 1` on. */
  lemma ChildrenKeepRest(adj: seq<seq<nat>>, D: seq<VertexData>, p: nat, j: nat, t: TreeToken)
    requires Renderable(adj, D) && p < |D| && j < |adj[p]|
    requires t in ChildrenTokens(adj, D, p, j + 1)
    ensures t in ChildrenTokens(adj, D, p, j)
  {
    ChildrenTokensStep(adj, D, p, j);
  }

  /** The renderings of the children from `j` on start with that of the
      child found at `adj[p][j]`. */
  lemma ChildrenKeepHere(adj: seq<seq<nat>>, D: seq<VertexData>, p: nat, j: nat, t: TreeToken)
    requires Renderable(adj, D) && p < |D| && j < |adj[p]|
    requires D[adj[p][j]].parentIndex == p
    requires t in SubtreeTokens(adj, D, adj[p][j])
    ensures t in ChildrenTokens(adj, D, p, j)
  {
    ChildrenTokensStep(adj, D, p, j);
    assert ChildTokens(adj, D, p, j) == SubtreeTokens(adj, D, adj[p][j]);
  }

  /** The rendering of a child is part of its parent's rendering. */
  lemma ChildIncluded(adj: seq<seq<nat>>, D: seq<VertexData>, p: nat, u: nat)
    requires Renderable(adj, D) && p < |D| && u < |D|
    requires D[u].parentIndex == p && u in adj[p]
    ensures forall t :: t in SubtreeTokens(adj, D, u) ==> t in SubtreeTokens(adj, D, p)
  {
    var idx :| 0 <= idx < |adj[p]| && adj[p][idx] == u;
    forall t | t in SubtreeTokens(adj, D, u)
      ensures t in SubtreeTokens(adj, D, p)
    {
      ChildrenContain(adj, D, p, idx, t);
    }
  }

  /** A token of the rendering of the child found at `adj[p][idx]` is in
      the rendering of all of `p`'s children. */
  lemma ChildrenContain(adj: seq<seq<nat>>, D: seq<VertexData>, p: nat, idx: nat, t: TreeToken)
    requires Renderable(adj, D) && p < |D| && idx < |adj[p]|
    requires D[adj[p][idx]].parentIndex == p
    requires t in SubtreeTokens(adj, D, adj[p][idx])
    ensures t in ChildrenTokens(adj, D, p, 0)
  {
    ChildrenKeepHere(adj, D, p, idx, t);
    var j: nat := idx;
    while j > 0
      invariant j <= idx && t in ChildrenTokens(adj, D, p, j)
    {
      ChildrenKeepRest(adj, D, p, j - 1, t);
      j := j - 1;
    }
  }

  /** The rendering of a vertex contains the rendering of each of its tree
      descendants. */
  lemma {:induction false} DescendantIncluded(adj: seq<seq<nat>>, source: nat, D: seq<VertexData>, v: nat, u: nat)
    requires TreeConsistent(adj, source, D) && v < |D| && u < |D| && OnChain(D, u, v)
    ensures forall t :: t in SubtreeTokens(adj, D, u) ==> t in SubtreeTokens(adj, D, v)
    decreases D[u].startTime
  {
    if u != v {
      var p := D[u].parentIndex;
      DescendantIncluded(adj, source, D, v, p);
      ChildIncluded(adj, D, p, u);
    }
  }

  /** The rendering from the source shows exactly the source and the
      vertices at a finite distance, each with its own time stamps. */
  lemma RenderedVertices(adj: seq<seq<nat>>, source: nat, D: seq<VertexData>)
    requires TreeConsistent(adj, source, D) && source < |D|
    ensures var ts := SubtreeTokens(adj, D, source);
      (forall t :: t in ts && t.Open? ==>
         t.vertex < |D| && (t.vertex == source || D[t.vertex].distance.Some?) &&
         t.startTime == D[t.vertex].startTime && t.endTime == D[t.vertex].endTime) &&
      (forall u :: 0 <= u < |D| && D[u].distance.Some? ==>
         Open(u, D[u].startTime, D[u].endTime) in ts)
  {
    var ts := SubtreeTokens(adj, D, source);
    SubtreeShape(adj, D, source);
    forall t | t in ts && t.Open?
      ensures t.vertex == source || D[t.vertex].distance.Some?
    {
      OnChainHasDistance(adj, source, D, t.vertex);
    }
    forall u | 0 <= u < |D| && D[u].distance.Some?
      ensures Open(u, D[u].startTime, D[u].endTime) in ts
    {
      OnChainFromDistance(adj, source, D, u);
      SubtreeShape(adj, D, u);
      DescendantIncluded(adj, source, D, source, u);
    }
  }
}
