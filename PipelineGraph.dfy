/**
 * The graph the pipeline validator builds from a submitted pipeline:
 * node records and edges as they arrive, the node-id set, the adjacency
 * lists and the in-degrees they determine, and what a directed cycle is.
 * The methods that compute these step by step (GraphBuild, Kahn,
 * CycleSearch) are proved against the functions defined here.
 */
module PipelineGraph {
  import opened Wrappers
  import opened Seqs

  /** A submitted node dict; only whether it has an "id" entry, and its text, matter. */
  datatype NodeRecord = NodeRecord(id: Option<string>)

  /** A submitted edge; its optional edge id and any extra fields are ignored. */
  datatype Edge = Edge(source: string, target: string)

  /** Which end of an edge a count is about. */
  datatype End = Source | Target

  function EndOf(e: Edge, end: End): string
  {
    match end
    case Source => e.source
    case Target => e.target
  }

  /** Node ids: the id of every node that has one, and both ends of every edge. */
  function NodeIds(nodes: seq<NodeRecord>, edges: seq<Edge>): set<string>
  {
    RecordIds(nodes) + Endpoints(edges)
  }

  /** The ids carried by the node records alone. */
  function RecordIds(nodes: seq<NodeRecord>): set<string>
  {
    set n | n in nodes && n.id.Some? :: n.id.value
  }

  /** Both ends of every edge. */
  function Endpoints(edges: seq<Edge>): set<string>
  {
    Sources(edges) + (set e | e in edges :: e.target)
  }

  /** The nodes that have an adjacency list: the sources of the edges. */
  function Sources(edges: seq<Edge>): set<string>
  {
    set e | e in edges :: e.source
  }

  /** The targets of the edges leaving `s`, in edge-list order, repeats kept. */
  function TargetsOf(edges: seq<Edge>, s: string): seq<string>
  {
    if edges == [] then []
    else
      var e := edges[|edges| - 1];
      TargetsOf(edges[..|edges| - 1], s) + (if e.source == s then [e.target] else [])
  }

  /** The number of edges whose `end` is `k`, repeats counted. */
  function Degree(edges: seq<Edge>, end: End, k: string): nat
  {
    if edges == [] then 0
    else Degree(edges[..|edges| - 1], end, k) + (if EndOf(edges[|edges| - 1], end) == k then 1 else 0)
  }

  /** The adjacency map: one list per edge source. */
  function Adjacency(edges: seq<Edge>): map<string, seq<string>>
  {
    map s | s in Sources(edges) :: TargetsOf(edges, s)
  }

  /** The degree of every key, counting the edges at their `end`. */
  function DegreeMap(keys: set<string>, edges: seq<Edge>, end: End): map<string, int>
  {
    map t | t in keys :: Degree(edges, end, t)
  }

  /** The in-degree map over a key set. */
  function InDegrees(keys: set<string>, edges: seq<Edge>): map<string, int>
  {
    DegreeMap(keys, edges, Target)
  }

  /** `adj.get(u, [])`: a node without a list has no successors. */
  function Succ(adj: map<string, seq<string>>, u: string): seq<string>
  {
    if u in adj then adj[u] else []
  }

  predicate HasEdge(adj: map<string, seq<string>>, u: string, v: string)
  {
    v in Succ(adj, u)
  }

  /** A closed walk of at least one step: first and last equal, every step an edge. */
  ghost predicate IsCycle(adj: map<string, seq<string>>, p: seq<string>)
  {
    && |p| >= 2
    && p[0] == p[|p| - 1]
    && forall k :: 0 <= k < |p| - 1 ==> HasEdge(adj, p[k], p[k + 1])
  }

  ghost predicate Acyclic(adj: map<string, seq<string>>)
  {
    forall p :: !IsCycle(adj, p)
  }

  /** Every edge between two listed nodes goes from an earlier to a later position. */
  ghost predicate EdgesForward(adj: map<string, seq<string>>, order: seq<string>)
  {
    forall i, j :: 0 <= i < |order| && 0 <= j < |order| && HasEdge(adj, order[i], order[j]) ==> i < j
  }

  /** Every node that has an edge, at either end, lies in `ids`. */
  ghost predicate Closed(adj: map<string, seq<string>>, ids: set<string>)
  {
    && (forall u :: u in adj ==> u in ids)
    && (forall u, v :: HasEdge(adj, u, v) ==> v in ids)
  }

  /** What the three results of graph building say about the edge list they came from. */
  ghost predicate Consistent(edges: seq<Edge>, adj: map<string, seq<string>>, indeg: map<string, int>)
  {
    && adj == Adjacency(edges)
    && (forall e :: e in edges ==> e.source in indeg && e.target in indeg)
    && (forall v :: v in indeg ==> indeg[v] == Degree(edges, Target, v))
  }

  // ---------------------------------------------------------------------------
  // The adjacency lists against the edge list

  /** `TargetsOf(edges, s)` holds `v` exactly as often as the edge list holds `s -> v`. */
  lemma {:induction false} TargetsOfCount(edges: seq<Edge>, s: string, v: string)
    ensures multiset(TargetsOf(edges, s))[v] == multiset(edges)[Edge(s, v)]
  {
    if edges != [] {
      var init := edges[..|edges| - 1];
      TargetsOfCount(init, s, v);
      assert edges == init + [edges[|edges| - 1]];
    }
  }

  /** The length of an adjacency list is the out-degree of its node. */
  lemma {:induction false} TargetsOfLength(edges: seq<Edge>, s: string)
    ensures |TargetsOf(edges, s)| == Degree(edges, Source, s)
  {
    if edges != [] {
      TargetsOfLength(edges[..|edges| - 1], s);
    }
  }

  lemma AdjacencyHasEdge(edges: seq<Edge>, u: string, v: string)
    ensures HasEdge(Adjacency(edges), u, v) <==> Edge(u, v) in edges
  {
    TargetsOfCount(edges, u, v);
    if Edge(u, v) in edges {
      assert u in Sources(edges);
    }
  }

  lemma AdjacencySucc(edges: seq<Edge>, u: string)
    ensures Succ(Adjacency(edges), u) == TargetsOf(edges, u)
  {
    if u !in Sources(edges) {
      NoSourceNoTargets(edges, u);
    }
  }

  lemma {:induction false} NoSourceNoTargets(edges: seq<Edge>, u: string)
    requires u !in Sources(edges)
    ensures TargetsOf(edges, u) == []
  {
    if edges != [] {
      var init := edges[..|edges| - 1];
      assert Sources(init) <= Sources(edges);
      NoSourceNoTargets(init, u);
    }
  }

  /** A graph built from an edge list is closed over any key set holding every edge end. */
  lemma AdjacencyClosed(edges: seq<Edge>, ids: set<string>)
    requires forall e :: e in edges ==> e.source in ids && e.target in ids
    ensures Closed(Adjacency(edges), ids)
  {
    forall u, v | HasEdge(Adjacency(edges), u, v)
      ensures v in ids
    {
      AdjacencyHasEdge(edges, u, v);
    }
  }

  /** A self-loop edge `u -> u` is the cycle `[u, u]`. */
  lemma SelfLoopCycle(edges: seq<Edge>, u: string)
    requires Edge(u, u) in edges
    ensures IsCycle(Adjacency(edges), [u, u])
    ensures !Acyclic(Adjacency(edges))
  {
    AdjacencyHasEdge(edges, u, u);
  }

  // ---------------------------------------------------------------------------
  // Acyclicity

  /** Positions along a walk increase in an order where every edge goes forward. */
  lemma {:induction false} ForwardAlongWalk(adj: map<string, seq<string>>, order: seq<string>, p: seq<string>, k: nat)
    requires EdgesForward(adj, order)
    requires |p| >= 1 && forall i :: 0 <= i < |p| ==> p[i] in order
    requires forall i :: 0 <= i < |p| - 1 ==> HasEdge(adj, p[i], p[i + 1])
    requires 1 <= k < |p|
    ensures FirstIndex(order, p[0]) < FirstIndex(order, p[k])
  {
    var a, b := FirstIndex(order, p[k - 1]), FirstIndex(order, p[k]);
    assert HasEdge(adj, order[a], order[b]);
    if k > 1 {
      ForwardAlongWalk(adj, order, p, k - 1);
    }
  }

  /** An order in which every edge goes forward, and that lists every edge source, rules out cycles. */
  lemma ForwardOrderAcyclic(adj: map<string, seq<string>>, order: seq<string>)
    requires EdgesForward(adj, order)
    requires forall u, v :: HasEdge(adj, u, v) ==> u in order
    ensures Acyclic(adj)
  {
    forall p | IsCycle(adj, p)
      ensures false
    {
      assert HasEdge(adj, p[0], p[1]);
      forall i | 0 <= i < |p|
        ensures p[i] in order
      {
        if i < |p| - 1 {
          assert HasEdge(adj, p[i], p[i + 1]);
        }
      }
      ForwardAlongWalk(adj, order, p, |p| - 1);
    }
  }

  /** Some edge into `x` starts inside `r`. */
  ghost predicate HasPredecessorIn(adj: map<string, seq<string>>, r: set<string>, x: string)
  {
    exists y :: y in r && HasEdge(adj, y, x)
  }

  /** A walk of `n` steps ending in `v` that stays inside `r`, when every node of `r` has a predecessor in `r`. */
  lemma {:induction false} BackWalk(adj: map<string, seq<string>>, r: set<string>, v: string, n: nat) returns (w: seq<string>)
    requires v in r
    requires forall x {:trigger HasPredecessorIn(adj, r, x)} :: x in r ==> HasPredecessorIn(adj, r, x)
    ensures |w| == n + 1 && w[n] == v
    ensures forall i :: 0 <= i < |w| ==> w[i] in r
    ensures forall i :: 0 <= i < n ==> HasEdge(adj, w[i], w[i + 1])
    decreases n
  {
    if n == 0 {
      w := [v];
    } else {
      assert HasPredecessorIn(adj, r, v);
      var y :| y in r && HasEdge(adj, y, v);
      var w0 := BackWalk(adj, r, y, n - 1);
      w := w0 + [v];
      assert forall i :: 0 <= i < n ==> w[i] == w0[i];
    }
  }

  /** A sequence longer than the set its elements come from repeats an element. */
  lemma {:induction false} Pigeonhole(w: seq<string>, r: set<string>) returns (i: nat, j: nat)
    requires forall k :: 0 <= k < |w| ==> w[k] in r
    requires |w| > |r|
    ensures i < j < |w| && w[i] == w[j]
    decreases |w|
  {
    if w[0] in w[1..] {
      i := 0;
      j := 1 + FirstIndex(w[1..], w[0]);
    } else {
      var i', j' := Pigeonhole(w[1..], r - {w[0]});
      i, j := i' + 1, j' + 1;
    }
  }

  /** A non-empty set in which every node has a predecessor inside the set lies on a cycle. */
  lemma CycleFromPredecessors(adj: map<string, seq<string>>, r: set<string>)
    requires r != {}
    requires forall x {:trigger HasPredecessorIn(adj, r, x)} :: x in r ==> HasPredecessorIn(adj, r, x)
    ensures !Acyclic(adj)
  {
    var v :| v in r;
    var w := BackWalk(adj, r, v, |r|);
    var i, j := Pigeonhole(w, r);
    var p := w[i..j + 1];
    forall k | 0 <= k < |p| - 1
      ensures HasEdge(adj, p[k], p[k + 1])
    {
      assert p[k] == w[i + k] && p[k + 1] == w[i + k + 1];
    }
    assert IsCycle(adj, p);
  }

  // ---------------------------------------------------------------------------
  // Degree sums

  /** The sum of the values of a map. */
  ghost function ValueSum(m: map<string, int>): int
  {
    if m == map[] then 0
    else
      var k :| k in m;
      m[k] + ValueSum(m - {k})
  }

  /** The sum does not depend on which key is taken out first. */
  lemma {:induction false} ValueSumRemove(m: map<string, int>, k: string)
    requires k in m
    ensures ValueSum(m) == m[k] + ValueSum(m - {k})
    decreases |m|
  {
    var x :| x in m && ValueSum(m) == m[x] + ValueSum(m - {x});
    if x != k {
      assert |m - {x}| == |m| - 1;
      ValueSumRemove(m - {x}, k);
      ValueSumRemove(m - {k}, x);
      assert m - {x} - {k} == m - {k} - {x};
    }
  }

  /** With no edges every degree is zero. */
  lemma {:induction false} NoEdgesSum(keys: set<string>, end: End)
    ensures ValueSum(DegreeMap(keys, [], end)) == 0
    decreases keys
  {
    var m := DegreeMap(keys, [], end);
    if keys == {} {
      assert m == map[];
    } else {
      var k :| k in keys;
      ValueSumRemove(m, k);
      NoEdgesSum(keys - {k}, end);
      assert m - {k} == DegreeMap(keys - {k}, [], end);
    }
  }

  /** Summed over a key set holding every `end` of every edge, the degrees count each edge once. */
  lemma {:induction false} DegreeSum(keys: set<string>, edges: seq<Edge>, end: End)
    requires forall e :: e in edges ==> EndOf(e, end) in keys
    ensures ValueSum(DegreeMap(keys, edges, end)) == |edges|
  {
    if edges == [] {
      NoEdgesSum(keys, end);
    } else {
      var init, e := edges[..|edges| - 1], edges[|edges| - 1];
      var k := EndOf(e, end);
      assert e in edges;
      assert forall x :: x in init ==> x in edges;
      DegreeSum(keys, init, end);
      var m, m' := DegreeMap(keys, init, end), DegreeMap(keys, edges, end);
      assert m' - {k} == m - {k};
      ValueSumRemove(m, k);
      ValueSumRemove(m', k);
    }
  }

  /** The lengths of the adjacency lists add up to the number of edges. */
  lemma AdjacencyLengthSum(edges: seq<Edge>)
    ensures ValueSum(map s | s in Adjacency(edges) :: |Adjacency(edges)[s]|) == |edges|
  {
    var adj := Adjacency(edges);
    forall s | s in adj
      ensures |adj[s]| == Degree(edges, Source, s)
    {
      TargetsOfLength(edges, s);
    }
    assert (map s | s in adj :: |adj[s]|) == DegreeMap(Sources(edges), edges, Source);
    DegreeSum(Sources(edges), edges, Source);
  }

  /** Over any key set holding every edge target, the in-degrees add up to the number of edges. */
  lemma InDegreeSum(keys: set<string>, edges: seq<Edge>)
    requires forall e :: e in edges ==> e.target in keys
    ensures ValueSum(InDegrees(keys, edges)) == |edges|
  {
    DegreeSum(keys, edges, Target);
  }
}
