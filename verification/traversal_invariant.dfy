/** The loop invariant of the traversal half of `doDFS` in
    DepthFirstSearch.java, stated over the record array `D`, the stack
    contents `stk` (bottom first) and the time counter, together with one
    lemma per step of the loop. */
module TraversalInvariant {
  import opened Wrappers
  import opened Graphs
  import opened VertexRecords

  /** The vertices still WHITE. */
  ghost function WhiteSet(D: seq<VertexData>): (r: set<nat>)
    ensures forall v: nat :: v in r <==> v < |D| && D[v].color == White
  {
    set v: nat | v < |D| && D[v].color == White
  }

  /** The stack holds exactly the GRAY vertices, the source at the bottom;
      the vertex at depth `k` has distance `k`, no parent yet, an edge from
      the vertex beneath it (its discoverer) and a later start time. */
  ghost predicate StackShape(adj: seq<seq<nat>>, source: nat, D: seq<VertexData>, stk: seq<nat>)
    requires |D| == |adj|
  {
    (|stk| > 0 ==> stk[0] == source) &&
    (forall k {:trigger stk[k]} :: 0 <= k < |stk| ==>
       stk[k] < |D| && D[stk[k]].color == Gray &&
       D[stk[k]].distance == Some(k) && D[stk[k]].parentIndex == NoParent) &&
    (forall v {:trigger D[v].color} :: 0 <= v < |D| && D[v].color == Gray ==> v in stk) &&
    (forall k :: 0 < k < |stk| ==>
       stk[k] in adj[stk[k - 1]] && D[stk[k - 1]].startTime < D[stk[k]].startTime)
  }

  /** What the records say so far.  WHITE records are untouched; reached
      ones have a start time and a distance; BLACK ones are finished, have
      no WHITE neighbour and (unless the source) a reached parent with an
      edge to them, one less distance and an earlier start, which if
      finished finished later. */
  ghost predicate RecordsSoFar(adj: seq<seq<nat>>, source: nat, D: seq<VertexData>, time: int)
    requires |D| == |adj| && ValidGraph(adj)
  {
    source < |D| && D[source].color != White && D[source].startTime == 0 &&
    D[source].distance == Some(0) && D[source].parentIndex == NoParent &&
    (forall v {:trigger D[v].color} :: 0 <= v < |D| && D[v].color == White ==> D[v] == InitialVertexData()) &&
    (forall v {:trigger D[v].color} :: 0 <= v < |D| && D[v].color != White ==>
       0 <= D[v].startTime <= time && D[v].distance.Some?) &&
    (forall v {:trigger D[v].color} :: 0 <= v < |D| && D[v].color == Black ==>
       D[v].startTime < D[v].endTime <= time) &&
    (forall v, j :: 0 <= v < |D| && D[v].color == Black && 0 <= j < |adj[v]| ==>
       D[adj[v][j]].color != White) &&
    (forall v {:trigger D[v].parentIndex} :: 0 <= v < |D| && D[v].color == Black && v != source ==>
       ParentClause(adj, D, v))
  }

  /** Start times of reached vertices, end times of finished ones and the
      two kinds against each other are pairwise distinct. */
  ghost predicate StampsSoFar(D: seq<VertexData>)
  {
    (forall u: nat, v: nat {:trigger StartOf(D, u), StartOf(D, v)} ::
       u < |D| && v < |D| && u != v &&
       D[u].color != White && D[v].color != White ==>
         StartOf(D, u) != StartOf(D, v)) &&
    (forall u: nat, v: nat {:trigger EndOf(D, u), EndOf(D, v)} ::
       u < |D| && v < |D| && u != v &&
       D[u].color == Black && D[v].color == Black ==>
         EndOf(D, u) != EndOf(D, v)) &&
    (forall u: nat, v: nat {:trigger StartOf(D, u), EndOf(D, v)} ::
       u < |D| && v < |D| &&
       D[u].color != White && D[v].color == Black ==>
         StartOf(D, u) != EndOf(D, v))
  }

  /** The counter has ticked once per discovery and once per finish. */
  ghost predicate Counted(source: nat, D: seq<VertexData>, stk: seq<nat>, time: int)
    requires source < |D|
  {
    time == 2 * |ReachedSet(D)| - |stk| - 1 &&
    |ReachedSet(D)| + |WhiteSet(D)| == |D| &&
    |stk| + |WhiteSet(D)| <= |D| &&
    (|stk| == 0 ==> D[source].endTime == time)
  }

  /** Every vertex discovered after the top of the stack has finished. */
  ghost predicate TopInnermost(D: seq<VertexData>, stk: seq<nat>)
  {
    |stk| > 0 && stk[|stk| - 1] < |D| ==>
      forall u: nat {:trigger StartOf(D, u)} ::
        u < |D| && D[u].color != White && D[stk[|stk| - 1]].startTime < StartOf(D, u) ==>
          D[u].color == Black
  }

  /** What makes the order depth first.  Every vertex discovered after the
      top of the stack has finished; each vertex on the stack was
      discovered from the one beneath it, and each finished vertex other
      than the source from the parent it was given; edges out of finished
      vertices lead to vertices discovered before those finished; and the
      intervals nest. */
  ghost predicate DepthFirstSoFar(adj: seq<seq<nat>>, source: nat, D: seq<VertexData>, stk: seq<nat>)
    requires |D| == |adj| && ValidGraph(adj)
  {
    TopInnermost(D, stk) &&
    (forall k :: 0 < k < |stk| && stk[k - 1] < |D| && stk[k] < |D| ==>
       DiscoveredFrom(adj, D, stk[k - 1], stk[k])) &&
    (forall v {:trigger D[v].parentIndex} ::
       0 <= v < |D| && D[v].color == Black && v != source && 0 <= D[v].parentIndex < |D| ==>
         DiscoveredFrom(adj, D, D[v].parentIndex, v)) &&
    EdgesStartBeforeFinish(adj, D) &&
    IntervalsNest(D)
  }

  /** `x` is the top of the stack `s`. */
  predicate TopIs(s: seq<nat>, x: nat)
  {
    |s| > 0 && s[|s| - 1] == x
  }

  /** The first `n` neighbours of `u` have all been reached. */
  ghost predicate ScannedPrefix(adj: seq<seq<nat>>, D: seq<VertexData>, u: nat, n: nat)
    requires |D| == |adj| && ValidGraph(adj) && u < |adj| && n <= |adj[u]|
  {
    forall j :: 0 <= j < n ==> D[adj[u][j]].color != White
  }

  lemma ScanPast(adj: seq<seq<nat>>, D: seq<VertexData>, u: nat, n: nat)
    requires |D| == |adj| && ValidGraph(adj) && u < |adj| && n < |adj[u]|
    requires ScannedPrefix(adj, D, u, n) && D[adj[u][n]].color != White
    ensures ScannedPrefix(adj, D, u, n + 1)
  {
  }

  ghost predicate TraversalInv(adj: seq<seq<nat>>, source: nat, D: seq<VertexData>, stk: seq<nat>, time: int)
  {
    |D| == |adj| && ValidGraph(adj) && source < |D| &&
    StackShape(adj, source, D, stk) &&
    RecordsSoFar(adj, source, D, time) &&
    StampsSoFar(D) &&
    Counted(source, D, stk, time) &&
    DepthFirstSoFar(adj, source, D, stk)
  }

  /** The set-up before `doDFS`'s outer loop: the source pushed, GRAY, at distance 0, started at 0. */
  function Started(D: seq<VertexData>, source: nat): (r: seq<VertexData>)
    requires source < |D|
    ensures |r| == |D|
  {
    D[source := D[source].(color := Gray, distance := Some(0), startTime := 0)]
  }

  /** A discovery in the inner scan: `w` pushed, GRAY, one further than `cur`, started at
      the next tick. */
  function Discovered(D: seq<VertexData>, cur: nat, w: nat, time: int): (r: seq<VertexData>)
    requires cur < |D| && w < |D| && D[cur].distance.Some?
    ensures |r| == |D|
  {
    D[w := D[w].(color := Gray, distance := Some(D[cur].distance.value + 1), startTime := time + 1)]
  }

  /** The pop at the end of the outer loop: the top `v` popped, given the vertex beneath it as
      parent unless it is the source, BLACK, finished at the next tick. */
  function Finished(D: seq<VertexData>, source: nat, stk: seq<nat>, time: int): (r: seq<VertexData>)
    requires |stk| > 0 && stk[|stk| - 1] < |D|
    requires stk[|stk| - 1] != source ==> |stk| >= 2
    ensures |r| == |D|
  {
    var v := stk[|stk| - 1];
    var parent := if v != source then stk[|stk| - 2] as int else D[v].parentIndex;
    D[v := D[v].(parentIndex := parent, color := Black, endTime := time + 1)]
  }

  lemma InitialState(adj: seq<seq<nat>>, source: nat, D: seq<VertexData>)
    requires |D| == |adj| && ValidGraph(adj) && source < |D|
    requires forall v :: 0 <= v < |D| ==> D[v] == InitialVertexData()
    ensures TraversalInv(adj, source, Started(D, source), [source], 0)
  {
    var D' := Started(D, source);
    assert ReachedSet(D') == {source};
    assert WhiteSet(D') == VertexSet(|D|) - {source};
    VertexSetSize(|D|);
  }

  /** Discovering `w`, the first WHITE entry (at index `i`) of the
      adjacency list of the vertex on top of the stack. */
  lemma DiscoverStep(adj: seq<seq<nat>>, source: nat, D: seq<VertexData>, stk: seq<nat>, time: int,
                     cur: nat, i: nat, w: nat)
    requires TraversalInv(adj, source, D, stk, time) && |stk| > 0 && cur == stk[|stk| - 1]
    requires i < |adj[cur]| && adj[cur][i] == w
    requires forall j :: 0 <= j < i ==> D[adj[cur][j]].color != White
    requires w < |D| && D[w].color == White
    ensures D[cur].distance.Some?
    ensures TraversalInv(adj, source, Discovered(D, cur, w, time), stk + [w], time + 1)
    ensures |WhiteSet(Discovered(D, cur, w, time))| < |WhiteSet(D)|
    ensures |stk| < |D|
  {
    DiscoverShape(adj, source, D, stk, time, w);
    DiscoverRecords(adj, source, D, stk[|stk| - 1], time, w);
    DiscoverStamps(adj, source, D, stk, time, w);
    DiscoverCounted(adj, source, D, stk, time, w);
    DiscoverDepthFirst(adj, source, D, stk, time, cur, i, w);
  }

  lemma DiscoverDepthFirst(adj: seq<seq<nat>>, source: nat, D: seq<VertexData>, stk: seq<nat>, time: int,
                           cur: nat, i: nat, w: nat)
    requires |D| == |adj| && ValidGraph(adj) && source < |D| && |stk| > 0 && cur == stk[|stk| - 1]
    requires StackShape(adj, source, D, stk) && RecordsSoFar(adj, source, D, time)
    requires DepthFirstSoFar(adj, source, D, stk)
    requires i < |adj[cur]| && adj[cur][i] == w
    requires forall j :: 0 <= j < i ==> D[adj[cur][j]].color != White
    requires w < |D| && D[w].color == White
    ensures DepthFirstSoFar(adj, source, Discovered(D, cur, w, time), stk + [w])
  {
    var D' := Discovered(D, cur, w, time);
    var stk' := stk + [w];
    forall u: nat | u < |D'| && D'[u].color != White
      ensures StartOf(D', u) <= StartOf(D', w)
    {
      if u != w {
        assert D[u].color != White;
      }
    }
    forall k | 0 < k < |stk'| && stk'[k - 1] < |D'| && stk'[k] < |D'|
      ensures DiscoveredFrom(adj, D', stk'[k - 1], stk'[k])
    {
      if k < |stk| {
        assert stk'[k - 1] == stk[k - 1] && stk'[k] == stk[k];
        DiscoverKeeps(adj, source, D, time, cur, w, stk[k - 1], stk[k]);
      } else {
        DiscoverNewTop(adj, source, D, stk, time, cur, i, w);
      }
    }
    forall v | 0 <= v < |D'| && D'[v].color == Black && v != source && 0 <= D'[v].parentIndex < |D'|
      ensures DiscoveredFrom(adj, D', D'[v].parentIndex, v)
    {
      assert D[v].color == Black && D'[v] == D[v];
      assert ParentClause(adj, D, v);
      DiscoverKeeps(adj, source, D, time, cur, w, D[v].parentIndex as nat, v);
    }
    DiscoverEdgesNest(adj, source, D, time, cur, w);
  }

  /** Discovering `w` keeps what `DiscoveredFrom` says about two vertices
      already reached. */
  lemma DiscoverKeeps(adj: seq<seq<nat>>, source: nat, D: seq<VertexData>, time: int, cur: nat, w: nat,
                      p: nat, c: nat)
    requires |D| == |adj| && ValidGraph(adj) && RecordsSoFar(adj, source, D, time)
    requires cur < |D| && D[cur].distance.Some? && w < |D| && D[w].color == White
    requires p < |D| && c < |D| && D[p].color != White && D[c].color != White
    requires DiscoveredFrom(adj, D, p, c)
    ensures DiscoveredFrom(adj, Discovered(D, cur, w, time), p, c)
  {
    var D' := Discovered(D, cur, w, time);
    forall u: nat | u < |D'| && D'[u].color != White && D'[p].startTime < StartOf(D', u) < D'[c].startTime
      ensures D'[u].color == Black && D'[u].endTime < D'[c].startTime
    {
      assert u != w;
      assert StartOf(D, u) == StartOf(D', u);
    }
    forall j | 0 <= j < |adj[p]| && c !in adj[p][..j]
      ensures D'[adj[p][j]].color != White && D'[adj[p][j]].startTime <= D'[c].startTime
    {
      assert adj[p][j] != w;
    }
  }

  /** The vertex `w` just discovered from the top `cur` was discovered the
      depth-first way. */
  lemma DiscoverNewTop(adj: seq<seq<nat>>, source: nat, D: seq<VertexData>, stk: seq<nat>, time: int,
                       cur: nat, i: nat, w: nat)
    requires |D| == |adj| && ValidGraph(adj) && source < |D| && |stk| > 0 && cur == stk[|stk| - 1]
    requires StackShape(adj, source, D, stk) && RecordsSoFar(adj, source, D, time)
    requires DepthFirstSoFar(adj, source, D, stk)
    requires i < |adj[cur]| && adj[cur][i] == w
    requires forall j :: 0 <= j < i ==> D[adj[cur][j]].color != White
    requires w < |D| && D[w].color == White
    ensures DiscoveredFrom(adj, Discovered(D, cur, w, time), cur, w)
  {
    var D' := Discovered(D, cur, w, time);
    forall u: nat | u < |D'| && D'[u].color != White && D'[cur].startTime < StartOf(D', u) < D'[w].startTime
      ensures D'[u].color == Black && D'[u].endTime < D'[w].startTime
    {
      assert u != w && StartOf(D, cur) < StartOf(D, u);
    }
    forall j | i < j <= |adj[cur]|
      ensures w in adj[cur][..j]
    {
      assert adj[cur][..j][i] == w;
    }
  }

  /** Discovering `w` keeps the edge and interval facts. */
  lemma DiscoverEdgesNest(adj: seq<seq<nat>>, source: nat, D: seq<VertexData>, time: int, cur: nat, w: nat)
    requires |D| == |adj| && ValidGraph(adj) && RecordsSoFar(adj, source, D, time)
    requires EdgesStartBeforeFinish(adj, D) && IntervalsNest(D)
    requires cur < |D| && D[cur].distance.Some? && w < |D| && D[w].color == White
    ensures EdgesStartBeforeFinish(adj, Discovered(D, cur, w, time))
    ensures IntervalsNest(Discovered(D, cur, w, time))
  {
    var D' := Discovered(D, cur, w, time);
    forall u, j | 0 <= u < |D'| && D'[u].color == Black && 0 <= j < |adj[u]|
      ensures D'[adj[u][j]].startTime < D'[u].endTime
    {
      assert D[u].color == Black && D[adj[u][j]].color != White;
    }
    forall u: nat, v: nat | u < |D'| && v < |D'| && D'[u].color == Black && D'[v].color != White &&
                            StartOf(D', u) < StartOf(D', v)
      ensures D'[u].endTime < StartOf(D', v) || (D'[v].color == Black && D'[v].endTime < D'[u].endTime)
    {
      assert D[u].color == Black;
      if v != w {
        assert StartOf(D, u) < StartOf(D, v);
      }
    }
  }

  lemma DiscoverShape(adj: seq<seq<nat>>, source: nat, D: seq<VertexData>, stk: seq<nat>, time: int, w: nat)
    requires |D| == |adj| && ValidGraph(adj) && source < |D| && |stk| > 0
    requires StackShape(adj, source, D, stk) && RecordsSoFar(adj, source, D, time)
    requires w in adj[stk[|stk| - 1]] && w < |D| && D[w].color == White
    ensures StackShape(adj, source, Discovered(D, stk[|stk| - 1], w, time), stk + [w])
  {
    var cur := stk[|stk| - 1];
    var D' := Discovered(D, cur, w, time);
    var stk' := stk + [w];
    forall k | 0 <= k < |stk'|
      ensures stk'[k] < |D'| && D'[stk'[k]].color == Gray &&
              D'[stk'[k]].distance == Some(k) && D'[stk'[k]].parentIndex == NoParent
    {
      if k < |stk| {
        assert stk'[k] == stk[k] && stk[k] != w;
      }
    }
    forall v | 0 <= v < |D'| && D'[v].color == Gray
      ensures v in stk'
    {
      if v != w {
        assert D[v].color == Gray;
      }
    }
    forall k | 0 < k < |stk'|
      ensures stk'[k] in adj[stk'[k - 1]] && D'[stk'[k - 1]].startTime < D'[stk'[k]].startTime
    {
      if k < |stk| {
        assert stk'[k] == stk[k] && stk'[k - 1] == stk[k - 1];
        assert stk[k] != w && stk[k - 1] != w;
      } else {
        assert stk'[k - 1] == cur && cur != w;
      }
    }
  }

  lemma DiscoverRecords(adj: seq<seq<nat>>, source: nat, D: seq<VertexData>, cur: nat, time: int, w: nat)
    requires |D| == |adj| && ValidGraph(adj) && cur < |D| && D[cur].distance.Some?
    requires RecordsSoFar(adj, source, D, time)
    requires w < |D| && D[w].color == White
    ensures RecordsSoFar(adj, source, Discovered(D, cur, w, time), time + 1)
  {
    var D' := Discovered(D, cur, w, time);
    assert w != source;
    forall v, j | 0 <= v < |D'| && D'[v].color == Black && 0 <= j < |adj[v]|
      ensures D'[adj[v][j]].color != White
    {
      assert v != w && D[v].color == Black;
    }
    forall v | 0 <= v < |D'| && D'[v].color == Black && v != source
      ensures ParentClause(adj, D', v)
    {
      assert v != w && D[v].color == Black;
      assert ParentClause(adj, D, v);
      assert D[v].parentIndex != w;
      assert D'[v] == D[v] && D'[D[v].parentIndex] == D[D[v].parentIndex];
    }
  }

  lemma DiscoverStamps(adj: seq<seq<nat>>, source: nat, D: seq<VertexData>, stk: seq<nat>, time: int, w: nat)
    requires |D| == |adj| && ValidGraph(adj) && source < |D| && |stk| > 0
    requires StackShape(adj, source, D, stk) && RecordsSoFar(adj, source, D, time) && StampsSoFar(D)
    requires w < |D| && D[w].color == White
    ensures StampsSoFar(Discovered(D, stk[|stk| - 1], w, time))
  {
    var cur := stk[|stk| - 1];
    var D' := Discovered(D, cur, w, time);
    forall u: nat, v: nat | u < |D'| && v < |D'| && u != v && D'[u].color != White && D'[v].color != White
      ensures StartOf(D', u) != StartOf(D', v)
    {
      if u != w && v != w {
        assert D[u].color != White && D[v].color != White;
        assert StartOf(D, u) != StartOf(D, v);
      }
    }
    forall u: nat, v: nat | u < |D'| && v < |D'| && u != v && D'[u].color == Black && D'[v].color == Black
      ensures EndOf(D', u) != EndOf(D', v)
    {
      assert D[u].color == Black && D[v].color == Black;
      assert EndOf(D, u) != EndOf(D, v);
    }
    forall u: nat, v: nat | u < |D'| && v < |D'| && D'[u].color != White && D'[v].color == Black
      ensures StartOf(D', u) != EndOf(D', v)
    {
      assert v != w && D[v].color == Black;
      if u != w {
        assert StartOf(D, u) != EndOf(D, v);
      }
    }
  }

  lemma DiscoverCounted(adj: seq<seq<nat>>, source: nat, D: seq<VertexData>, stk: seq<nat>, time: int, w: nat)
    requires |D| == |adj| && ValidGraph(adj) && source < |D| && |stk| > 0
    requires Counted(source, D, stk, time)
    requires stk[|stk| - 1] < |D| && D[stk[|stk| - 1]].distance.Some?
    requires w < |D| && D[w].color == White
    ensures Counted(source, Discovered(D, stk[|stk| - 1], w, time), stk + [w], time + 1)
    ensures |WhiteSet(Discovered(D, stk[|stk| - 1], w, time))| < |WhiteSet(D)|
    ensures |stk| < |D|
  {
    var D' := Discovered(D, stk[|stk| - 1], w, time);
    assert ReachedSet(D') == ReachedSet(D) + {w};
    assert WhiteSet(D') == WhiteSet(D) - {w};
  }

  lemma FinishStep(adj: seq<seq<nat>>, source: nat, D: seq<VertexData>, stk: seq<nat>, time: int, v: nat)
    requires TraversalInv(adj, source, D, stk, time) && |stk| > 0 && v == stk[|stk| - 1]
    requires forall j :: 0 <= j < |adj[v]| ==> D[adj[v][j]].color != White
    ensures v != source ==> |stk| >= 2
    ensures v == source ==> |stk| == 1
    ensures TraversalInv(adj, source, Finished(D, source, stk, time), stk[..|stk| - 1], time + 1)
    ensures WhiteSet(Finished(D, source, stk, time)) == WhiteSet(D)
  {
    FinishStackBottom(adj, source, D, stk, v);
    FinishShape(adj, source, D, stk, time, v);
    FinishRecords(adj, source, D, stk, time, v);
    FinishStamps(adj, source, D, stk, time, v);
    FinishCounted(adj, source, D, stk, time, v);
    FinishDepthFirst(adj, source, D, stk, time, v);
  }

  /** Only the source can be the last vertex on the stack. */
  lemma FinishStackBottom(adj: seq<seq<nat>>, source: nat, D: seq<VertexData>, stk: seq<nat>, v: nat)
    requires |D| == |adj| && |stk| > 0 && v == stk[|stk| - 1]
    requires StackShape(adj, source, D, stk)
    ensures v != source ==> |stk| >= 2
    ensures v == source ==> |stk| == 1
  {
    assert D[stk[0]].distance == Some(0);
  }

  lemma FinishShape(adj: seq<seq<nat>>, source: nat, D: seq<VertexData>, stk: seq<nat>, time: int, v: nat)
    requires |D| == |adj| && ValidGraph(adj) && source < |D| && |stk| > 0 && v == stk[|stk| - 1]
    requires StackShape(adj, source, D, stk)
    requires v != source ==> |stk| >= 2
    ensures StackShape(adj, source, Finished(D, source, stk, time), stk[..|stk| - 1])
  {
    var D' := Finished(D, source, stk, time);
    var stk' := stk[..|stk| - 1];
    forall k | 0 <= k < |stk'|
      ensures stk'[k] < |D'| && D'[stk'[k]].color == Gray &&
              D'[stk'[k]].distance == Some(k) && D'[stk'[k]].parentIndex == NoParent
    {
      assert stk'[k] == stk[k] && stk[k] != v;
    }
    forall u | 0 <= u < |D'| && D'[u].color == Gray
      ensures u in stk'
    {
      assert u != v && D[u].color == Gray;
      var k :| 0 <= k < |stk| && stk[k] == u;
      assert k != |stk| - 1;
      assert stk'[k] == u;
    }
    forall k | 0 < k < |stk'|
      ensures stk'[k] in adj[stk'[k - 1]] && D'[stk'[k - 1]].startTime < D'[stk'[k]].startTime
    {
      assert stk'[k] == stk[k] && stk'[k - 1] == stk[k - 1];
      assert stk[k] != v && stk[k - 1] != v;
    }
  }

  lemma FinishRecords(adj: seq<seq<nat>>, source: nat, D: seq<VertexData>, stk: seq<nat>, time: int, v: nat)
    requires |D| == |adj| && ValidGraph(adj) && source < |D| && |stk| > 0 && v == stk[|stk| - 1]
    requires StackShape(adj, source, D, stk) && RecordsSoFar(adj, source, D, time)
    requires v != source ==> |stk| >= 2
    requires forall j :: 0 <= j < |adj[v]| ==> D[adj[v][j]].color != White
    ensures RecordsSoFar(adj, source, Finished(D, source, stk, time), time + 1)
  {
    var D' := Finished(D, source, stk, time);
    var parent := if v != source then stk[|stk| - 2] as int else D[v].parentIndex;
    var rec := D[v].(parentIndex := parent, color := Black, endTime := time + 1);
    assert D' == D[v := rec];
    assert D[v].color == Gray && 0 <= D[v].startTime <= time;
    if v != source {
      var k := |stk| - 1;
      assert stk[k] in adj[stk[k - 1]];
      assert stk[k - 1] != v;
      assert D[stk[k - 1]].distance == Some(k - 1);
      assert D[stk[k - 1]].color == Gray;
      assert D[stk[k - 1]].startTime < D[v].startTime;
      FinishedChildFacts(adj, source, D', v);
    }
    FinishOthers(adj, source, D, time, v, rec);
  }

  /** The record of the vertex just finished meets `RecordsSoFar`'s clause
      for BLACK non-source vertices. */
  lemma FinishedChildFacts(adj: seq<seq<nat>>, source: nat, D': seq<VertexData>, v: nat)
    requires |D'| == |adj| && v < |D'| && D'[v].color == Black && v != source
    requires 0 <= D'[v].parentIndex < |D'| && D'[v].parentIndex != v
    requires D'[D'[v].parentIndex].color == Gray
    requires v in adj[D'[v].parentIndex]
    requires D'[D'[v].parentIndex].distance.Some?
    requires D'[v].distance == Some(D'[D'[v].parentIndex].distance.value + 1)
    requires D'[D'[v].parentIndex].startTime < D'[v].startTime
    ensures ParentClause(adj, D', v)
  {
  }

  /** Finishing `v` (GRAY, no WHITE neighbour) with record `rec` keeps every
      clause of `RecordsSoFar` about the other vertices. */
  lemma FinishOthers(adj: seq<seq<nat>>, source: nat, D: seq<VertexData>, time: int, v: nat, rec: VertexData)
    requires |D| == |adj| && ValidGraph(adj) && source < |D| && v < |D|
    requires RecordsSoFar(adj, source, D, time) && D[v].color == Gray
    requires forall j :: 0 <= j < |adj[v]| ==> D[adj[v][j]].color != White
    requires rec.color == Black && rec.startTime == D[v].startTime && rec.distance == D[v].distance
    requires rec.endTime == time + 1
    requires v == source ==> rec.parentIndex == NoParent
    requires v != source ==>
       0 <= rec.parentIndex < |D| && rec.parentIndex != v &&
       D[rec.parentIndex].color == Gray &&
       v in adj[rec.parentIndex] &&
       D[rec.parentIndex].distance.Some? &&
       rec.distance == Some(D[rec.parentIndex].distance.value + 1) &&
       D[rec.parentIndex].startTime < rec.startTime
    ensures RecordsSoFar(adj, source, D[v := rec], time + 1)
  {
    var D' := D[v := rec];
    forall u | 0 <= u < |D'| && D'[u].color == White
      ensures D'[u] == InitialVertexData()
    {
      assert u != v;
    }
    forall u | 0 <= u < |D'| && D'[u].color != White
      ensures 0 <= D'[u].startTime <= time + 1 && D'[u].distance.Some?
    {
      if u != v { assert D[u].color != White; }
    }
    forall u | 0 <= u < |D'| && D'[u].color == Black
      ensures D'[u].startTime < D'[u].endTime <= time + 1
    {
      if u != v { assert D[u].color == Black; }
    }
    forall u, j | 0 <= u < |D'| && D'[u].color == Black && 0 <= j < |adj[u]|
      ensures D'[adj[u][j]].color != White
    {
      if u != v { assert D[u].color == Black; }
      assert D[adj[u][j]].color != White;
    }
    FinishOthersParents(adj, source, D, time, v, rec, D');
  }

  /** A parent clause of `RecordsSoFar`, for one vertex. */
  ghost predicate ParentClause(adj: seq<seq<nat>>, D: seq<VertexData>, u: nat)
    requires |D| == |adj| && u < |D|
  {
    0 <= D[u].parentIndex < |D| &&
    D[D[u].parentIndex].color != White &&
    u in adj[D[u].parentIndex] &&
    D[D[u].parentIndex].distance.Some? &&
    D[u].distance == Some(D[D[u].parentIndex].distance.value + 1) &&
    D[D[u].parentIndex].startTime < D[u].startTime &&
    (D[D[u].parentIndex].color == Black ==> D[u].endTime < D[D[u].parentIndex].endTime)
  }

  lemma FinishOthersParents(adj: seq<seq<nat>>, source: nat, D: seq<VertexData>, time: int, v: nat, rec: VertexData, D': seq<VertexData>)
    requires |D| == |adj| && v < |D| && D[v].color == Gray && D' == D[v := rec]
    requires forall u :: 0 <= u < |D| && D[u].color == Black ==> D[u].endTime <= time
    requires forall u :: 0 <= u < |D| && D[u].color == Black && u != source ==> ParentClause(adj, D, u)
    requires rec.color == Black && rec.startTime == D[v].startTime && rec.distance == D[v].distance
    requires rec.endTime == time + 1
    requires v != source ==>
       0 <= rec.parentIndex < |D| && rec.parentIndex != v &&
       D[rec.parentIndex].color == Gray &&
       v in adj[rec.parentIndex] &&
       D[rec.parentIndex].distance.Some? &&
       rec.distance == Some(D[rec.parentIndex].distance.value + 1) &&
       D[rec.parentIndex].startTime < rec.startTime
    ensures forall u :: 0 <= u < |D'| && D'[u].color == Black && u != source ==> ParentClause(adj, D', u)
  {
    forall u | 0 <= u < |D'| && D'[u].color == Black && u != source
      ensures ParentClause(adj, D', u)
    {
      if u != v {
        assert D[u].color == Black;
        assert ParentClause(adj, D, u);
        var p := D[u].parentIndex;
        assert D'[u] == D[u];
        if p == v {
          assert D'[p] == rec;
        } else {
          assert D'[p] == D[p];
        }
      }
    }
  }

  lemma FinishStamps(adj: seq<seq<nat>>, source: nat, D: seq<VertexData>, stk: seq<nat>, time: int, v: nat)
    requires |D| == |adj| && ValidGraph(adj) && source < |D| && |stk| > 0 && v == stk[|stk| - 1]
    requires StackShape(adj, source, D, stk) && RecordsSoFar(adj, source, D, time) && StampsSoFar(D)
    requires v != source ==> |stk| >= 2
    ensures StampsSoFar(Finished(D, source, stk, time))
  {
    var D' := Finished(D, source, stk, time);
    var parent := if v != source then stk[|stk| - 2] as int else D[v].parentIndex;
    var rec := D[v].(parentIndex := parent, color := Black, endTime := time + 1);
    assert D' == D[v := rec];
    assert D[v].color == Gray;
    FinishStampsWith(D, time, v, rec, adj, source);
  }

  lemma FinishStampsWith(D: seq<VertexData>, time: int, v: nat, rec: VertexData, adj: seq<seq<nat>>, source: nat)
    requires |D| == |adj| && ValidGraph(adj) && v < |D| && D[v].color == Gray
    requires RecordsSoFar(adj, source, D, time) && StampsSoFar(D)
    requires rec.color == Black && rec.startTime == D[v].startTime && rec.endTime == time + 1
    ensures StampsSoFar(D[v := rec])
  {
    var D' := D[v := rec];
    forall a: nat, b: nat | a < |D'| && b < |D'| && a != b && D'[a].color != White && D'[b].color != White
      ensures StartOf(D', a) != StartOf(D', b)
    {
      assert D[a].color != White && D[b].color != White;
      assert StartOf(D, a) != StartOf(D, b);
    }
    forall a: nat, b: nat | a < |D'| && b < |D'| && a != b && D'[a].color == Black && D'[b].color == Black
      ensures EndOf(D', a) != EndOf(D', b)
    {
      if a != v && b != v {
        assert D[a].color == Black && D[b].color == Black;
        assert EndOf(D, a) != EndOf(D, b);
      } else if a == v {
        assert D[b].color == Black;
      } else {
        assert D[a].color == Black;
      }
    }
    forall a: nat, b: nat | a < |D'| && b < |D'| && D'[a].color != White && D'[b].color == Black
      ensures StartOf(D', a) != EndOf(D', b)
    {
      assert D[a].color != White;
      if b != v {
        assert D[b].color == Black;
        assert StartOf(D, a) != EndOf(D, b);
      }
    }
  }

  lemma FinishDepthFirst(adj: seq<seq<nat>>, source: nat, D: seq<VertexData>, stk: seq<nat>, time: int, v: nat)
    requires |D| == |adj| && ValidGraph(adj) && source < |D| && |stk| > 0 && v == stk[|stk| - 1]
    requires StackShape(adj, source, D, stk) && RecordsSoFar(adj, source, D, time) && StampsSoFar(D)
    requires DepthFirstSoFar(adj, source, D, stk)
    requires v != source ==> |stk| >= 2
    requires v == source ==> |stk| == 1
    requires forall j :: 0 <= j < |adj[v]| ==> D[adj[v][j]].color != White
    ensures DepthFirstSoFar(adj, source, Finished(D, source, stk, time), stk[..|stk| - 1])
  {
    var D' := Finished(D, source, stk, time);
    var stk' := stk[..|stk| - 1];
    var parent := if v != source then stk[|stk| - 2] as int else D[v].parentIndex;
    var rec := D[v].(parentIndex := parent, color := Black, endTime := time + 1);
    assert D' == D[v := rec];
    assert D[v].color == Gray;
    FinishTop(adj, D, stk, v, rec);
    forall k | 0 < k < |stk'| && stk'[k - 1] < |D'| && stk'[k] < |D'|
      ensures DiscoveredFrom(adj, D', stk'[k - 1], stk'[k])
    {
      assert stk'[k - 1] == stk[k - 1] && stk'[k] == stk[k];
      FinishKeeps(adj, D, v, rec, stk[k - 1], stk[k]);
    }
    forall u | 0 <= u < |D'| && D'[u].color == Black && u != source && 0 <= D'[u].parentIndex < |D'|
      ensures DiscoveredFrom(adj, D', D'[u].parentIndex, u)
    {
      if u == v {
        assert DiscoveredFrom(adj, D, stk[|stk| - 2], v);
        FinishKeeps(adj, D, v, rec, stk[|stk| - 2], v);
      } else {
        assert D[u].color == Black && D'[u] == D[u];
        FinishKeeps(adj, D, v, rec, D[u].parentIndex as nat, u);
      }
    }
    FinishEdgesNest(adj, source, D, stk, time, v, rec);
  }

  /** Popping the finished top `v` leaves on top the vertex `v` was
      discovered from, after which only finished vertices were discovered. */
  lemma FinishTop(adj: seq<seq<nat>>, D: seq<VertexData>, stk: seq<nat>, v: nat, rec: VertexData)
    requires |D| == |adj| && ValidGraph(adj) && |stk| > 0 && v == stk[|stk| - 1] && v < |D|
    requires D[v].color == Gray && rec.color == Black && rec.startTime == D[v].startTime
    requires TopInnermost(D, stk) && StampsSoFar(D)
    requires |stk| >= 2 ==> stk[|stk| - 2] < |D| && DiscoveredFrom(adj, D, stk[|stk| - 2], v)
    ensures TopInnermost(D[v := rec], stk[..|stk| - 1])
  {
    var D', stk' := D[v := rec], stk[..|stk| - 1];
    if |stk'| > 0 {
      var p := stk[|stk| - 2];
      assert stk'[|stk'| - 1] == p;
      forall u: nat | u < |D'| && D'[u].color != White && D'[p].startTime < StartOf(D', u)
        ensures D'[u].color == Black
      {
        if u != v {
          assert D[u].color != White && StartOf(D, u) != StartOf(D, v);
          assert StartOf(D, p) < StartOf(D, u);
        }
      }
    }
  }

  /** Finishing the GRAY vertex `v` keeps what `DiscoveredFrom` says about
      any two vertices. */
  lemma FinishKeeps(adj: seq<seq<nat>>, D: seq<VertexData>, v: nat, rec: VertexData, p: nat, c: nat)
    requires |D| == |adj| && ValidGraph(adj) && v < |D| && D[v].color == Gray
    requires rec.color == Black && rec.startTime == D[v].startTime
    requires p < |D| && c < |D| && DiscoveredFrom(adj, D, p, c)
    ensures DiscoveredFrom(adj, D[v := rec], p, c)
  {
    var D' := D[v := rec];
    assert StartOf(D', p) == StartOf(D, p) && StartOf(D', c) == StartOf(D, c);
    forall u: nat | u < |D'| && D'[u].color != White && D'[p].startTime < StartOf(D', u) < D'[c].startTime
      ensures D'[u].color == Black && D'[u].endTime < D'[c].startTime
    {
      assert D[u].color != White && StartOf(D, u) == StartOf(D', u);
    }
    forall j | 0 <= j < |adj[p]| && c !in adj[p][..j]
      ensures D'[adj[p][j]].color != White && D'[adj[p][j]].startTime <= D'[c].startTime
    {
      assert D[adj[p][j]].color != White;
    }
  }

  /** Finishing the top `v`, all of whose neighbours have been discovered,
      keeps the edge and interval facts. */
  lemma FinishEdgesNest(adj: seq<seq<nat>>, source: nat, D: seq<VertexData>, stk: seq<nat>, time: int,
                        v: nat, rec: VertexData)
    requires |D| == |adj| && ValidGraph(adj) && source < |D| && |stk| > 0 && v == stk[|stk| - 1]
    requires StackShape(adj, source, D, stk) && RecordsSoFar(adj, source, D, time)
    requires DepthFirstSoFar(adj, source, D, stk)
    requires forall j :: 0 <= j < |adj[v]| ==> D[adj[v][j]].color != White
    requires rec.color == Black && rec.startTime == D[v].startTime && rec.endTime == time + 1
    ensures EdgesStartBeforeFinish(adj, D[v := rec]) && IntervalsNest(D[v := rec])
  {
    var D' := D[v := rec];
    assert D[v].color == Gray;
    forall u, j | 0 <= u < |D'| && D'[u].color == Black && 0 <= j < |adj[u]|
      ensures D'[adj[u][j]].startTime < D'[u].endTime
    {
      if u != v {
        assert D[u].color == Black;
      }
      assert D[adj[u][j]].color != White;
    }
    forall a: nat, b: nat | a < |D'| && b < |D'| && D'[a].color == Black && D'[b].color != White &&
                            StartOf(D', a) < StartOf(D', b)
      ensures D'[a].endTime < StartOf(D', b) || (D'[b].color == Black && D'[b].endTime < D'[a].endTime)
    {
      assert D[b].color != White && StartOf(D, a) < StartOf(D, b);
      if a == v {
        assert D[b].color == Black;
      } else {
        assert D[a].color == Black;
      }
    }
  }

  lemma FinishCounted(adj: seq<seq<nat>>, source: nat, D: seq<VertexData>, stk: seq<nat>, time: int, v: nat)
    requires |D| == |adj| && ValidGraph(adj) && source < |D| && |stk| > 0 && v == stk[|stk| - 1]
    requires StackShape(adj, source, D, stk) && Counted(source, D, stk, time)
    requires v != source ==> |stk| >= 2
    requires v == source ==> |stk| == 1
    ensures Counted(source, Finished(D, source, stk, time), stk[..|stk| - 1], time + 1)
    ensures WhiteSet(Finished(D, source, stk, time)) == WhiteSet(D)
  {
    var D' := Finished(D, source, stk, time);
    assert ReachedSet(D') == ReachedSet(D);
    assert WhiteSet(D') == WhiteSet(D);
  }

  /** When the stack is empty the records are those of a complete search. */
  lemma FinalState(adj: seq<seq<nat>>, source: nat, D: seq<VertexData>, time: int)
    requires TraversalInv(adj, source, D, [], time)
    ensures DfsResult(adj, source, D)
  {
    FinalNoGray(adj, source, D, time);
    FinalTreeConsistent(adj, source, D, time);
    FinalBlack(adj, source, D, time);
    FinalStamps(D);
  }

  lemma FinalBlack(adj: seq<seq<nat>>, source: nat, D: seq<VertexData>, time: int)
    requires TraversalInv(adj, source, D, [], time)
    requires forall v :: 0 <= v < |D| ==> D[v].color != Gray
    requires time == 2 * |ReachedSet(D)| - 1 && |ReachedSet(D)| <= |D|
    ensures forall v :: 0 <= v < |D| && D[v].color == Black ==>
       D[v].startTime < D[v].endTime < 2 * |D|
    ensures forall v, j :: 0 <= v < |D| && D[v].color == Black && 0 <= j < |adj[v]| ==>
       D[adj[v][j]].color == Black
    ensures forall v :: 0 <= v < |D| && D[v].color == Black && v != source ==>
       D[v].parentIndex != NoParent &&
       D[D[v].parentIndex].color == Black &&
       D[v].endTime < D[D[v].parentIndex].endTime &&
       DiscoveredFrom(adj, D, D[v].parentIndex, v)
  {
    forall v, j | 0 <= v < |D| && D[v].color == Black && 0 <= j < |adj[v]|
      ensures D[adj[v][j]].color == Black
    {
      assert D[adj[v][j]].color != White;
    }
    forall v | 0 <= v < |D| && D[v].color == Black && v != source
      ensures D[v].parentIndex != NoParent &&
              D[D[v].parentIndex].color == Black &&
              D[v].endTime < D[D[v].parentIndex].endTime &&
              DiscoveredFrom(adj, D, D[v].parentIndex, v)
    {
      assert ParentClause(adj, D, v);
    }
  }

  lemma FinalStamps(D: seq<VertexData>)
    requires StampsSoFar(D)
    requires forall v :: 0 <= v < |D| ==> D[v].color != Gray
    ensures StampsDistinct(D)
  {
    forall u: nat, v: nat | u < |D| && v < |D| && u != v && D[u].color != White && D[v].color != White
      ensures StartOf(D, u) != StartOf(D, v) && EndOf(D, u) != EndOf(D, v) &&
              StartOf(D, u) != EndOf(D, v)
    {
      assert StartOf(D, u) != StartOf(D, v) && StartOf(D, u) != EndOf(D, v);
      assert EndOf(D, u) != EndOf(D, v);
    }
  }


  lemma FinalNoGray(adj: seq<seq<nat>>, source: nat, D: seq<VertexData>, time: int)
    requires TraversalInv(adj, source, D, [], time)
    ensures forall v :: 0 <= v < |D| ==> D[v].color != Gray
    ensures D[source].color == Black && D[source].endTime == 2 * |ReachedSet(D)| - 1
    ensures time == 2 * |ReachedSet(D)| - 1 && |ReachedSet(D)| <= |D|
  {
  }

  lemma FinalTreeConsistent(adj: seq<seq<nat>>, source: nat, D: seq<VertexData>, time: int)
    requires TraversalInv(adj, source, D, [], time)
    requires forall v :: 0 <= v < |D| ==> D[v].color != Gray
    requires time == 2 * |ReachedSet(D)| - 1 && |ReachedSet(D)| <= |D|
    ensures TreeConsistent(adj, source, D)
  {
    forall v | 0 <= v < |D|
      ensures 0 <= D[v].startTime < 2 * |D| &&
      (D[v].parentIndex == NoParent ||
       (0 <= D[v].parentIndex < |D| && D[D[v].parentIndex].startTime < D[v].startTime))
    {
      if D[v].color == Black && v != source {
        assert ParentClause(adj, D, v);
      }
    }
    assert ParentsOrdered(D);
    forall v | 0 <= v < |D| && D[v].parentIndex != NoParent
      ensures D[D[v].parentIndex].color != White &&
       D[D[v].parentIndex].distance.Some? &&
       v in adj[D[v].parentIndex] &&
       D[v].distance == Some(D[D[v].parentIndex].distance.value + 1)
    {
      assert D[v].color == Black && v != source;
      assert ParentClause(adj, D, v);
    }
  }
}
