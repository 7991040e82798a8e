# Depth-first search with edge classification, in Dafny

This project models the core of a small Java program. The program runs an
iterative depth-first search (DFS) over a directed graph from a source vertex.

During the search it records, for every vertex:
- a colour (WHITE, GRAY or BLACK);
- a parent in the DFS tree;
- a distance from the source along tree edges;
- a discovery time stamp and a finishing time stamp.

After the search it makes a classification pass. That pass sorts the
out-edges of the reached vertices into tree, back, forward and cross edges.
The program can also print two things:
- the tree path from the source to a vertex;
- the whole DFS tree in a parenthesised format.

The search keeps its pending vertices on a fixed-capacity array stack,
`ArrayStack`.

Modules, one per concern:

- `Graphs` (graphs.dfy): a graph is a sequence of adjacency lists.
  `adj[u]` lists the end vertices of `u`'s out-edges in the graph's iteration
  order. The module also defines paths and reachability.
- `VertexRecords` (vertex_records.dfy): `Color`, the `VertexData` record,
  parent chains and ancestry, and `DfsResult`. `DfsResult` is the predicate
  the records satisfy after the search. Besides colours, parents, distances
  and distinct stamps, it says that the search was depth first:
  - each vertex was discovered from its parent while the parent was the
    innermost unfinished vertex, as the first WHITE entry of the parent's
    adjacency list;
  - every edge out of a finished vertex leads to a vertex discovered before
    that one finished;
  - two finished intervals are disjoint or nested.
- `StackImplementation` (stack.dfy): `ArrayStack` as a class over an
  `array`, plus a value model of the Java `push` as written.
- `TraversalInvariant` (traversal_invariant.dfy): the loop invariant of the
  search. There is one step function and one step lemma per change the loop
  makes.
- `EdgeClassification` (edge_classification.dfy): which edges the
  classification pass visits, which list each one goes to, and what each
  list means.
- `DfsTree` (dfs_tree.dfy): the tree path, the token model of the printed
  tree, reachability, the parenthesis theorem (intervals nest exactly along
  ancestry and are disjoint otherwise) and the order in which adjacency
  lists are scanned.
- `Strings` (strings.dfy): decimal printing of numbers and blank-separated
  lists.
- `Search` (depth_first_search.dfy): the class `DepthFirstSearch`.
  - Its record array is an `array<VertexData>`.
  - Its four edge lists are `seq<Edge>` fields.
  - `doDFS` is imperative code with loops, proved against `DfsResult` and
    the list specification.

## Model

| member | source | states |
|---|---|---|
| StackImplementation.ArrayStack.constructor | StackImplementation.java:14-22 | A new stack has the given capacity, holds no items, has `topIndex == -1`, and every slot is null (`None`). |
| StackImplementation.ArrayStack.Push | StackImplementation.java:25-31 | Below capacity, the item goes on top: `Contents == old(Contents) + [item]`. The size grows by one and every other slot is unchanged. |
| StackImplementation.ArrayStack.Pop | StackImplementation.java:34-41 | On a non-empty stack, returns the last item pushed and removes it, keeping the rest. Together with `Push`, pushing then popping returns the item and restores the contents. |
| StackImplementation.ArrayStack.Peek | StackImplementation.java:44-47 | Returns the top item without changing the stack. |
| StackImplementation.ArrayStack.IsEmpty | StackImplementation.java:50-53 | True exactly when the stack holds no item. |
| StackImplementation.ArrayStack.Clear | StackImplementation.java:56-62 | From any state, nulls every slot and leaves an empty, valid stack with `topIndex == -1`. |
| StackImplementation.PushAsWritten | StackImplementation.java:25-31 | The Java `push` on a value state, including the reset of `topIndex` to 0 at capacity. The new item is stored at the new `topIndex`, and the size grows by one. |
| StackImplementation.PushAsWrittenBelowCapacity | StackImplementation.java:25-31 | Below capacity, the Java `push` appends the item to the stack it holds, agreeing with `ArrayStack.Push`. |
| StackImplementation.PushAsWrittenAtCapacityCorrupts | StackImplementation.java:28 | At capacity, the Java `push` overwrites the bottom item. Its size then exceeds the capacity, and the state no longer holds any item sequence. |
| VertexRecords.InitialVertexData | DepthFirstSearch.java:39-46 | A fresh record is WHITE, has parent -1 and infinite distance, and both time stamps are 0. |
| VertexRecords.OnChainStartsEarlier | DepthFirstSearch.java:192-195 | A vertex met by walking up parent pointers started no later than where the walk began, and strictly earlier unless it is that vertex. So the walks of the classification pass terminate. |
| VertexRecords.ProperAncestorIrreflexive | DepthFirstSearch.java:164-167 | The parent pointers the search sets never form a cycle: no vertex is its own proper ancestor. |
| Search.DepthFirstSearch.constructor | DepthFirstSearch.java:99-112 | Stores the graph and source, creates four empty edge lists, and gives every vertex an initial record. |
| Search.DepthFirstSearch.WithDefaultSource | DepthFirstSearch.java:114-117 | Constructs a search whose source is vertex 0. |
| Search.DepthFirstSearch.DoDFS | DepthFirstSearch.java:119-220 | `doDFS` as written. The records satisfy `DfsResult`: a depth-first tree, with nested or disjoint intervals and every edge's end discovered before its start finished. Each list holds, in visiting order, exactly the edges of its kind out of the reached vertices numbered from `sourceIndex` on. |
| Search.DepthFirstSearch.DoDFSAllVertices | DepthFirstSearch.java:173-219 | The corrected pass, starting at vertex 0, after the same traversal (`DfsResult`). Each list holds exactly the edges of its kind out of every reached vertex. |
| Search.DepthFirstSearch.Traverse | DepthFirstSearch.java:121-171 | From all-initial records, the stack loop ends with records satisfying `DfsResult` for the source: each vertex was discovered from its parent as the first WHITE entry of the parent's list while the parent was innermost, and intervals nest or are disjoint. |
| Search.DepthFirstSearch.ProcessTop | DepthFirstSearch.java:140-171 | One turn of the outer loop keeps the traversal invariant. Either a WHITE vertex is discovered or the stack shrinks, which makes the loop terminate. |
| Search.DepthFirstSearch.Descend | DepthFirstSearch.java:140-160 | The inner loop keeps the invariant. It ends with a vertex on top that has no WHITE neighbour. |
| Search.DepthFirstSearch.ExamineNeighbour | DepthFirstSearch.java:145-159 | If the neighbour at index `i` is WHITE, it and nothing else is discovered (`Discovered`), pushed and made the scanned vertex, and the scan restarts at index 0 at time + 1. Otherwise nothing changes but the index, which moves to `i + 1`. The invariant is kept. |
| Search.DepthFirstSearch.DiscoverVertex | DepthFirstSearch.java:151-157 | A WHITE neighbour of the top vertex is pushed and turns GRAY. Its distance is one more than the current vertex's, and it gets the next start time. The traversal invariant is kept, and one vertex fewer is WHITE. |
| Search.DepthFirstSearch.FinishVertex | DepthFirstSearch.java:162-170 | The top vertex is popped. Unless it is the source, it takes the vertex beneath it as parent. It turns BLACK and gets the next end time. |
| Search.DepthFirstSearch.ClassifyEdges | DepthFirstSearch.java:173-219 | The outer classification loop from a given vertex. The lists are the per-kind selections of the out-edges of non-WHITE vertices from that vertex on, in order. |
| Search.DepthFirstSearch.ClassifyOutEdges | DepthFirstSearch.java:181-216 | The lists are the per-kind selections of one vertex's out-edges, in edge order. |
| Search.DepthFirstSearch.ClassifyEdge | DepthFirstSearch.java:186-215 | The kind the code picks for one edge equals `KindOf`: tree if the end's parent is the start, otherwise back, forward or cross by the two walks. |
| Search.DepthFirstSearch.WalkToAncestor | DepthFirstSearch.java:192-195 | The parent walk stops at the target exactly when the target is on the parent chain. Otherwise it stops at -1. |
| Search.DepthFirstSearch.GetPathFromSource | DepthFirstSearch.java:223-228 | If the distance is infinite, returns the "No path" message. Otherwise returns a parenthesised path that starts at the source, follows graph edges and tree edges, ends at the vertex, and has distance + 1 vertices. |
| Search.DepthFirstSearch.GetPathFromSourceHelper | DepthFirstSearch.java:231-237 | The vertices of the parent chain, root first, separated by single blanks. |
| Search.DepthFirstSearch.DfsTreeToString | DepthFirstSearch.java:244-247 | The text of the subtree tokens of the source. |
| Search.DepthFirstSearch.DfsTreeToStringHelper | DepthFirstSearch.java:250-266 | The opening token with the given stamps, then each tree child's rendering in edge order, then `) `. |
| Search.DepthFirstSearch.AppendChild | DepthFirstSearch.java:257-261 | One loop turn appends the subtree text of the neighbour exactly when it is a tree child. |
| Search.DepthFirstSearch.GetTreeEdges | DepthFirstSearch.java:268-272 | Empty before the search. Afterwards, an edge is in the list exactly when it goes from a reached vertex the pass visits to a vertex whose parent is that vertex. |
| Search.DepthFirstSearch.GetBackEdges | DepthFirstSearch.java:274-278 | Empty before the search. Afterwards, exactly the visited non-tree edges to an ancestor or to the vertex itself. |
| Search.DepthFirstSearch.GetForwardEdges | DepthFirstSearch.java:280-284 | Empty before the search. Afterwards, exactly the visited non-tree edges to a proper descendant. |
| Search.DepthFirstSearch.GetCrossEdges | DepthFirstSearch.java:286-290 | Empty before the search. Afterwards, exactly the visited edges between two different vertices, neither an ancestor of the other. |
| TraversalInvariant.InitialState | DepthFirstSearch.java:132-136 | After the source is set up, the loop invariant holds with stack `[source]` at time 0. |
| TraversalInvariant.DiscoverStep | DepthFirstSearch.java:149-158 | Discovering a WHITE neighbour of the top vertex keeps the invariant, at time + 1 with the neighbour pushed. |
| TraversalInvariant.FinishStep | DepthFirstSearch.java:162-170 | Popping and finishing a top vertex with no WHITE neighbour keeps the invariant, at time + 1. |
| TraversalInvariant.FinalState | DepthFirstSearch.java:138-171 | When the stack is empty, the records satisfy `DfsResult`. This includes: no GRAY vertex; every edge out of a BLACK vertex leads to a BLACK vertex that started before it finished; distinct stamps; each child finishes before its parent and was discovered from it in adjacency order while it was innermost; finished intervals nest or are disjoint. |
| DfsTree.TreePath | DepthFirstSearch.java:231-237 | The chain printed by `getPathFromSourceHelper` ends at the vertex, starts at a root, and links each vertex to its parent. |
| DfsTree.TreePathFromSource | DepthFirstSearch.java:223-237 | For a vertex with finite distance `d`, the chain starts at the source, has `d + 1` vertices and is a path in the graph. |
| DfsTree.ReachedIffReachable | DepthFirstSearch.java:138-171 | After the search, a vertex is BLACK exactly when it is reachable from the source, and that holds exactly when its distance is finite. |
| DfsTree.AncestorNesting | DepthFirstSearch.java:151-170 | A proper ancestor's [start, end] interval strictly encloses each descendant's. |
| DfsTree.NestingAncestor | DepthFirstSearch.java:138-170 | Conversely, a vertex whose interval strictly encloses another's is a proper ancestor of it. |
| DfsTree.Parenthesis | DepthFirstSearch.java:138-170 | The parenthesis theorem: for two distinct reached vertices, one is a proper ancestor of the other exactly when its interval encloses the other's, and neither is exactly when the intervals are disjoint. |
| DfsTree.ListedBeforeChild | DepthFirstSearch.java:143-158 | The parent's adjacency list is scanned in order: an entry listed before a child's first occurrence was discovered no later than the parent, or finished before the child was discovered. |
| DfsTree.ListedBeforeChildFirst | DepthFirstSearch.java:143-158 | An entry listed before a child and discovered after the parent finished before the child started, and so did the discovery of every vertex it has an edge to; none of those is the child's child. |
| DfsTree.SubtreeShape | DepthFirstSearch.java:250-266 | The printed subtree of a vertex opens with that vertex's own stamps and closes once. Its brackets are balanced. Every vertex it opens descends from the vertex and carries its own stamps. |
| DfsTree.ChildIncluded | DepthFirstSearch.java:256-261 | Every token of a tree child's printed subtree appears in its parent's printed subtree. |
| DfsTree.RenderedVertices | DepthFirstSearch.java:244-266 | The printed tree from the source opens exactly the source and the vertices with a finite distance, each with its own time stamps. |
| DfsTree.TextSoFarAll | DepthFirstSearch.java:256-262 | After every neighbour has been scanned, the text built is the opening followed by the rendering of all children. |
| DfsTree.RenderWrapped | DepthFirstSearch.java:252-264 | An opening token, a body and a closing token render one after the other. |
| EdgeClassification.BackForwardExclusive | DepthFirstSearch.java:192-209 | No edge passes both the back test and the forward test, so each non-tree edge goes to at most one of those two lists. |
| EdgeClassification.ForwardTestMeaning | DepthFirstSearch.java:202-206 | Apart from self-loops, the forward test holds exactly when the edge's start is a proper ancestor of its end. |
| EdgeClassification.EdgeVisited | DepthFirstSearch.java:177-185 | An edge is visited by a pass over vertices `lo..hi-1` exactly when its start lies in that range, is not WHITE, and lists the end as a neighbour. |
| EdgeClassification.SelectPartition | DepthFirstSearch.java:186-215 | The four lists together hold each visited edge exactly as often as it was visited. |
| EdgeClassification.TreeListMeaning | DepthFirstSearch.java:186-189 | The tree list holds exactly the visited edges to a child. |
| EdgeClassification.BackListMeaning | DepthFirstSearch.java:191-199 | The back list holds exactly the visited non-tree edges to an ancestor or to the vertex itself. |
| EdgeClassification.ForwardListMeaning | DepthFirstSearch.java:201-209 | The forward list holds exactly the visited non-tree edges to a proper descendant. |
| EdgeClassification.CrossListMeaning | DepthFirstSearch.java:211-213 | The cross list holds exactly the visited edges between different vertices, neither an ancestor of the other. |
| EdgeClassification.KindMeaning | DepthFirstSearch.java:186-213 | Each kind means what it should, in terms of both ancestry (both directions) and stamps: a tree or forward edge's start encloses its end's interval, a back edge's end encloses its start's, and a cross edge's end finished before its start was discovered. |
| EdgeClassification.AllVerticesClassifyEveryReachedEdge | DepthFirstSearch.java:173-219 | A pass from vertex 0 visits every out-edge of every reachable vertex and puts it in exactly one list, the one of its kind. |
| EdgeClassification.SourceFirstPassMissesEdge | DepthFirstSearch.java:175-177 | With the graph `0 -> 1, 1 -> 0` searched from 1, vertex 0 is reached, but its edge `0 -> 1` is in none of the four lists. |
| EdgeClassification.ShortcutScenario | DepthFirstSearch.java:143-158 | Searching `0 -> 1, 0 -> 2, 1 -> 2` from 0, vertex 2 is discovered from 1, so `0 -> 1` and `1 -> 2` are tree edges and `0 -> 2` is a forward edge. |
| EdgeClassification.DiamondScenario | DepthFirstSearch.java:143-213 | Searching the diamond `0 -> 1, 0 -> 2, 1 -> 3, 2 -> 3` from 0, vertex 3 hangs below 1, so the edges out of 0 and `1 -> 3` are tree edges and `2 -> 3` is a cross edge. |
| Strings.NatToString | DepthFirstSearch.java:234-236 | `Integer.toString` of a non-negative number is a non-empty string. |
| Strings.NatToStringDigits | DepthFirstSearch.java:234-236 | The decimal text consists of digits only and has no leading zero. |
| Strings.NatToStringRoundTrip | DepthFirstSearch.java:234-236 | Reading the digits back yields the number, so distinct vertices print differently. |
| Strings.Spaced | DepthFirstSearch.java:236 | A chain of `n` vertices prints with exactly `n - 1` blanks, and with no blank at either end. |

## Left out

- The graph classes `Graph`, `Edge`, `EdgeList` and `StackInterface` are not
  part of this model.
  - A graph is a sequence of adjacency lists, and an edge is a
    `(from, to)` value.
  - The edge iterators are indices into those lists.
  - The `get…EdgeIterator` accessors return the list itself.
- Time stamps are unbounded integers. The Java `int` would wrap past
  2^31 - 1, but a search makes only `2 * |V|` ticks.
- Distance is `Option<nat>`, with `None` standing for `Double.POSITIVE_INFINITY`.
  The Java `double` arithmetic on small whole numbers is exact.
- Search.DepthFirstSearch.DoDFS: modelled only for the first call on a new
  object (`requires !searched`). A second call on the same object would start
  from non-WHITE records and append to the existing lists.
- Search.DepthFirstSearch.DoDFS: the record of a source index outside the
  graph is an array-bounds error in the Java code. The model requires a source
  inside the graph instead.
- Search.DepthFirstSearch.GetPathFromSource: requires a vertex inside the
  graph. For any other index the Java code throws
  `ArrayIndexOutOfBoundsException` (DepthFirstSearch.java:224); that error
  path is not modelled.
- Search.DepthFirstSearch.GetPathFromSourceHelper: requires a vertex inside
  the graph; the Java code throws `ArrayIndexOutOfBoundsException` at
  DepthFirstSearch.java:232 otherwise, which is not modelled.
- Search.DepthFirstSearch.DfsTreeToString: requires the source inside the
  graph; the Java code throws `ArrayIndexOutOfBoundsException` at
  DepthFirstSearch.java:245 otherwise, which is not modelled.
- Search.DepthFirstSearch.DfsTreeToStringHelper: requires a vertex inside
  the graph. For another index, DepthFirstSearch.java:254 asks the graph for
  that vertex's edges; the `Graph` class is not part of this model, and that
  error path is not modelled.
- StackImplementation.ArrayStack.constructor: the capacity is a `nat`. A
  negative capacity throws `NegativeArraySizeException` in the Java code
  (StackImplementation.java:17); that error path is not modelled.
- Search.DepthFirstSearch.ClassifyEdges: the lists are built in local
  variables and stored once at the end, instead of appended to the fields one
  edge at a time. The final lists are the same.
- StackImplementation.PushAsWritten: requires a positive capacity. A push
  onto a capacity-0 stack sets `topIndex` to 0 and then throws
  `ArrayIndexOutOfBoundsException` at StackImplementation.java:29; that error
  path is not modelled.
- StackImplementation.ArrayStack.Pop: `pop` and `peek` on an empty stack read
  index -1, which throws in the Java code. The model requires a non-empty stack
  instead, which is all the search ever uses.
- StackImplementation.ArrayStack.Pop: the check at line 38 of
  StackImplementation.java is left out. It compares `topIndex` with the
  capacity after decrementing, so it can never be true.
- StackImplementation.ArrayStack.Push: requires spare capacity. What the
  Java `push` does when the stack is full is modelled separately by
  `PushAsWritten` (see Findings). The search pushes each vertex at most once,
  so it never pushes onto a full stack (`DiscoverStep` bounds the stack
  below the number of vertices before each push).
- The unchecked generic array creation is modelled as an array of
  `Option<T>` with `None` for `null`.
- The bodies of the loops of `doDFS` and `dfsTreeToStringHelper` are split
  into helper methods. Each helper carries one loop turn's contract. The
  order of the statements and their effects is unchanged.

## Findings

| source | as written | input that shows it | evidently intended | confidence | as-written member | corrected member |
|---|---|---|---|---|---|---|
| StackImplementation.java:28 | `push` on a full stack resets `topIndex` to 0 and overwrites the bottom item, while `stackSize` grows past the capacity | a stack of capacity 1 holding one item, then `push(x)` | a full stack is never pushed to (or it refuses the push); the items stay intact | high (proved, not executed) | StackImplementation.PushAsWrittenAtCapacityCorrupts | StackImplementation.ArrayStack.Push |
| DepthFirstSearch.java:175-177 | the classification pass starts at `sourceIndex`, so reached vertices with smaller indices never have their out-edges classified | graph `0 -> 1, 1 -> 0` with source 1: the edge `0 -> 1` lands in no list | the pass iterates over all vertices, as its comment says | high (proved, not executed) | EdgeClassification.SourceFirstPassMissesEdge | Search.DepthFirstSearch.DoDFSAllVertices |
