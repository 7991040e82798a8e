/** The per-vertex records of DepthFirstSearch.java (`Color`, `VertexData`)
    and the predicates that describe a record array before and after the
    search. */
module VertexRecords {
  import opened Wrappers
  import opened Graphs

  /** WHITE: not yet discovered; GRAY: discovered, still on the stack;
      BLACK: popped and finished. */
  datatype Color = White | Gray | Black

  /** One vertex's record.  `parentIndex == -1` means "no parent";
      `distance == None` stands for the Java `Double.POSITIVE_INFINITY`. */
  datatype VertexData = VertexData(
    color: Color,
    parentIndex: int,
    distance: Option<nat>,
    startTime: int,
    endTime: int)

  const NoParent: int := -1

  /** The record every vertex starts with. */
  function InitialVertexData(): (d: VertexData)
    ensures d.color == White && d.parentIndex == NoParent && d.distance == None
    ensures d.startTime == 0 && d.endTime == 0
  {
    VertexData(White, NoParent, None, 0, 0)
  }

  /** Start times are small non-negative numbers and every parent pointer
      leads to a vertex that started strictly earlier; so following parent
      pointers always ends at -1. */
  ghost predicate ParentsOrdered(D: seq<VertexData>)
  {
    (forall v {:trigger D[v].startTime} :: 0 <= v < |D| ==> 0 <= D[v].startTime < 2 * |D|) &&
    (forall v {:trigger D[v].parentIndex} :: 0 <= v < |D| ==>
      D[v].parentIndex == NoParent ||
      (0 <= D[v].parentIndex < |D| && D[D[v].parentIndex].startTime < D[v].startTime))
  }

  /** Following parent pointers from `x` (inclusive) meets `a`: `x == a` or
      `a` is a proper ancestor of `x`.  This is what each of the two
      ancestor walks of the classification pass decides. */
  ghost predicate OnChain(D: seq<VertexData>, x: int, a: nat)
    requires ParentsOrdered(D)
    requires x == NoParent || 0 <= x < |D|
    decreases if x == NoParent then 0 else D[x].startTime + 1
  {
    x != NoParent && (x == a || OnChain(D, D[x].parentIndex, a))
  }

  /** `a` is a proper ancestor of `v` in the tree of parent pointers. */
  ghost predicate ProperAncestor(D: seq<VertexData>, a: nat, v: nat)
    requires ParentsOrdered(D) && v < |D|
  {
    OnChain(D, D[v].parentIndex, a)
  }

  /** Whatever lies on the parent chain of `x` started no later than `x`,
      and strictly earlier unless it is `x` itself. */
  lemma {:induction false} OnChainStartsEarlier(D: seq<VertexData>, x: int, a: nat)
    requires ParentsOrdered(D)
    requires x == NoParent || 0 <= x < |D|
    requires OnChain(D, x, a)
    ensures 0 <= x < |D| && a < |D|
    ensures D[a].startTime <= D[x].startTime
    ensures a != x ==> D[a].startTime < D[x].startTime
    decreases if x == NoParent then 0 else D[x].startTime + 1
  {
    if x != a {
      OnChainStartsEarlier(D, D[x].parentIndex, a);
    }
  }

  /** No vertex is its own proper ancestor: parent pointers are acyclic. */
  lemma ProperAncestorIrreflexive(D: seq<VertexData>, v: nat)
    requires ParentsOrdered(D) && v < |D|
    ensures !ProperAncestor(D, v, v)
  {
    if ProperAncestor(D, v, v) {
      OnChainStartsEarlier(D, D[v].parentIndex, v);
    }
  }

  /** The set of vertices the search has reached (not WHITE). */
  ghost function ReachedSet(D: seq<VertexData>): (r: set<nat>)
    ensures forall v: nat :: v in r <==> v < |D| && D[v].color != White
  {
    set v: nat | v < |D| && D[v].color != White
  }

  /** What holds of the records both before and after the search: WHITE
      vertices have no parent and infinite distance, a finite distance with
      no parent is the source's 0, and a parent is a reached vertex with an
      edge to its child, whose distance is one more than the parent's. */
  ghost predicate TreeConsistent(adj: seq<seq<nat>>, source: nat, D: seq<VertexData>)
  {
    |D| == |adj| && ValidGraph(adj) && ParentsOrdered(D) &&
    (forall v :: 0 <= v < |D| && D[v].color == White ==>
       D[v].distance == None && D[v].parentIndex == NoParent) &&
    (forall v :: 0 <= v < |D| && D[v].parentIndex == NoParent && D[v].distance.Some? ==>
       v == source && D[v].distance == Some(0)) &&
    (forall v :: 0 <= v < |D| && D[v].parentIndex != NoParent ==>
       D[D[v].parentIndex].color != White &&
       D[D[v].parentIndex].distance.Some? &&
       v in adj[D[v].parentIndex] &&
       D[v].distance == Some(D[D[v].parentIndex].distance.value + 1))
  }

  /** The start and end stamps of `v`.  Facts about pairs of stamps are
      stated over these, so they are used only where a proof names a
      stamp. */
  ghost function StartOf(D: seq<VertexData>, v: nat): int
    requires v < |D|
  {
    D[v].startTime
  }

  ghost function EndOf(D: seq<VertexData>, v: nat): int
    requires v < |D|
  {
    D[v].endTime
  }

  /** Any two distinct reached vertices carry four distinct time stamps. */
  ghost predicate StampsDistinct(D: seq<VertexData>)
  {
    forall u: nat, v: nat {:trigger StartOf(D, u), StartOf(D, v)} {:trigger StartOf(D, u), EndOf(D, v)}
                          {:trigger EndOf(D, u), EndOf(D, v)} ::
      u < |D| && v < |D| && u != v && D[u].color != White && D[v].color != White ==>
        StartOf(D, u) != StartOf(D, v) &&
        EndOf(D, u) != EndOf(D, v) &&
        StartOf(D, u) != EndOf(D, v)
  }

  /** Every edge out of a finished vertex leads to a vertex that was
      discovered before that one finished. */
  ghost predicate EdgesStartBeforeFinish(adj: seq<seq<nat>>, D: seq<VertexData>)
    requires |D| == |adj| && ValidGraph(adj)
  {
    forall u, j :: 0 <= u < |D| && D[u].color == Black && 0 <= j < |adj[u]| ==>
      D[adj[u][j]].startTime < D[u].endTime
  }

  /** The interval of a finished vertex and that of any vertex discovered
      after it are disjoint, or the later one's lies inside the earlier
      one's. */
  ghost predicate IntervalsNest(D: seq<VertexData>)
  {
    forall u: nat, v: nat {:trigger StartOf(D, u), StartOf(D, v)} ::
      u < |D| && v < |D| && D[u].color == Black && D[v].color != White &&
      StartOf(D, u) < StartOf(D, v) ==>
        D[u].endTime < StartOf(D, v) ||
        (D[v].color == Black && D[v].endTime < D[u].endTime)
  }

  /** Every vertex discovered after `p` and before `c` was finished before
      `c` was discovered: `p` was the innermost unfinished vertex then. */
  ghost predicate FinishedBetween(D: seq<VertexData>, p: nat, c: nat)
    requires p < |D| && c < |D|
  {
    forall u: nat {:trigger StartOf(D, u)} ::
      u < |D| && D[u].color != White && D[p].startTime < StartOf(D, u) < D[c].startTime ==>
        D[u].color == Black && D[u].endTime < D[c].startTime
  }

  /** Every entry of `p`'s adjacency list up to the first occurrence of `c`
      was discovered no later than `c`: the list is scanned in order. */
  ghost predicate ScannedBefore(adj: seq<seq<nat>>, D: seq<VertexData>, p: nat, c: nat)
    requires |D| == |adj| && ValidGraph(adj) && p < |D| && c < |D|
  {
    forall i :: 0 <= i < |adj[p]| && c !in adj[p][..i] ==>
      D[adj[p][i]].color != White && D[adj[p][i]].startTime <= D[c].startTime
  }

  /** `c` was discovered from `p` the way a depth-first search does it: while
      `p` was the innermost unfinished vertex, as the first WHITE entry of
      `p`'s adjacency list. */
  ghost predicate DiscoveredFrom(adj: seq<seq<nat>>, D: seq<VertexData>, p: nat, c: nat)
    requires |D| == |adj| && ValidGraph(adj) && p < |D| && c < |D|
  {
    FinishedBetween(D, p, c) && ScannedBefore(adj, D, p, c)
  }

  /** The records after a complete search from `source`. */
  ghost predicate DfsResult(adj: seq<seq<nat>>, source: nat, D: seq<VertexData>)
  {
    TreeConsistent(adj, source, D) && source < |D| &&
    D[source].color == Black && D[source].parentIndex == NoParent &&
    D[source].distance == Some(0) && D[source].startTime == 0 &&
    D[source].endTime == 2 * |ReachedSet(D)| - 1 &&
    (forall v :: 0 <= v < |D| ==> D[v].color != Gray) &&
    (forall v :: 0 <= v < |D| && D[v].color == White ==> D[v] == InitialVertexData()) &&
    (forall v :: 0 <= v < |D| && D[v].color == Black ==>
       D[v].startTime < D[v].endTime < 2 * |D|) &&
    (forall v, j :: 0 <= v < |D| && D[v].color == Black && 0 <= j < |adj[v]| ==>
       D[adj[v][j]].color == Black) &&
    (forall v :: 0 <= v < |D| && D[v].color == Black && v != source ==>
       D[v].parentIndex != NoParent &&
       D[D[v].parentIndex].color == Black &&
       D[v].endTime < D[D[v].parentIndex].endTime &&
       DiscoveredFrom(adj, D, D[v].parentIndex, v)) &&
    StampsDistinct(D) &&
    EdgesStartBeforeFinish(adj, D) &&
    IntervalsNest(D)
  }
}
