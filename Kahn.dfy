/**
 * `is_dag_kahn`: Kahn's algorithm over the adjacency lists and a copy of
 * the in-degree map. A node is queued when its remaining in-degree reaches
 * zero; the graph is acyclic exactly when every node gets emitted.
 */
module Kahn {
  import opened Seqs
  import opened PipelineGraph

  /** The edges into `v` whose source has not been emitted yet. */
  function Pending(edges: seq<Edge>, done: set<string>, v: string): nat
  {
    if edges == [] then 0
    else
      var e := edges[|edges| - 1];
      Pending(edges[..|edges| - 1], done, v) + (if e.target == v && e.source !in done then 1 else 0)
  }

  /** Before anything is emitted, every edge into `v` is pending. */
  lemma {:induction false} PendingInitially(edges: seq<Edge>, v: string)
    ensures Pending(edges, {}, v) == Degree(edges, Target, v)
  {
    if edges != [] {
      PendingInitially(edges[..|edges| - 1], v);
    }
  }

  /** Emitting `u` settles exactly the edges out of `u`. */
  lemma {:induction false} PendingEmit(edges: seq<Edge>, done: set<string>, u: string, v: string)
    requires u !in done
    ensures Pending(edges, done, v) == Pending(edges, done + {u}, v) + multiset(TargetsOf(edges, u))[v]
  {
    if edges != [] {
      PendingEmit(edges[..|edges| - 1], done, u, v);
    }
  }

  /** No pending edge into `v`: every edge into `v` comes from an emitted node. */
  lemma {:induction false} PendingZero(edges: seq<Edge>, done: set<string>, u: string, v: string)
    requires Pending(edges, done, v) == 0
    requires Edge(u, v) in edges
    ensures u in done
  {
    var init := edges[..|edges| - 1];
    if edges[|edges| - 1] != Edge(u, v) {
      assert edges == init + [edges[|edges| - 1]];
      PendingZero(init, done, u, v);
    }
  }

  /** A pending edge into `v` has a source that has not been emitted. */
  lemma {:induction false} PendingWitness(edges: seq<Edge>, done: set<string>, v: string) returns (u: string)
    requires Pending(edges, done, v) > 0
    ensures Edge(u, v) in edges && u !in done
  {
    var init, e := edges[..|edges| - 1], edges[|edges| - 1];
    assert edges == init + [e];
    if e.target == v && e.source !in done {
      u := e.source;
    } else {
      u := PendingWitness(init, done, v);
    }
  }

  /** The working counts are the pending edges, less the decrements still owed to `rest`. */
  ghost predicate CountsMatch(edges: seq<Edge>, indeg: map<string, int>, count: map<string, int>,
                              topo: seq<string>, rest: seq<string>)
  {
    && count.Keys == indeg.Keys
    && forall v :: v in indeg ==> count[v] == Pending(edges, Elems(topo), v) + multiset(rest)[v]
  }

  /** A node has been emitted or queued exactly when its count is zero. */
  ghost predicate ZeroWhenSeen(indeg: map<string, int>, count: map<string, int>, topo: seq<string>, queue: seq<string>)
    requires count.Keys == indeg.Keys
  {
    forall v :: v in indeg ==> ((v in topo || v in queue) <==> count[v] == 0)
  }

  /** Emitted and queued nodes are distinct known nodes, and so is every successor still owed. */
  ghost predicate Shape(indeg: map<string, int>, topo: seq<string>, queue: seq<string>, rest: seq<string>)
  {
    && NoDup(topo) && NoDup(queue)
    && (forall x :: x in topo ==> x in indeg)
    && (forall x :: x in queue ==> x in indeg && x !in topo)
    && (forall x :: x in rest ==> x in indeg)
  }

  /**
   * The state of the algorithm between two steps: `count` is the working copy
   * of the in-degrees, `topo` the nodes emitted so far, `queue` the deque, and
   * `rest` the successors of the last emitted node not yet decremented.
   */
  ghost predicate KahnInv(edges: seq<Edge>, adj: map<string, seq<string>>, indeg: map<string, int>,
                          count: map<string, int>, topo: seq<string>, queue: seq<string>, rest: seq<string>)
  {
    && Consistent(edges, adj, indeg)
    && CountsMatch(edges, indeg, count, topo, rest)
    && ZeroWhenSeen(indeg, count, topo, queue)
    && Shape(indeg, topo, queue, rest)
    && EdgesForward(adj, topo)
  }

  /** The queue built from the zero in-degree nodes starts the algorithm. */
  lemma KahnStart(edges: seq<Edge>, adj: map<string, seq<string>>, indeg: map<string, int>, queue: seq<string>)
    requires Consistent(edges, adj, indeg)
    requires NoDup(queue)
    requires forall x :: x in queue <==> x in indeg && indeg[x] == 0
    ensures KahnInv(edges, adj, indeg, indeg, [], queue, [])
  {
    forall v | v in indeg
      ensures indeg[v] == Pending(edges, Elems([]), v) + multiset([])[v]
    {
      PendingInitially(edges, v);
      assert Elems<string>([]) == {};
    }
  }

  lemma EmitCounts(edges: seq<Edge>, adj: map<string, seq<string>>, indeg: map<string, int>,
                   count: map<string, int>, topo: seq<string>, u: string)
    requires adj == Adjacency(edges)
    requires CountsMatch(edges, indeg, count, topo, [])
    requires u !in topo
    ensures CountsMatch(edges, indeg, count, topo + [u], Succ(adj, u))
  {
    var done := Elems(topo);
    assert Elems(topo + [u]) == done + {u};
    AdjacencySucc(edges, u);
    forall v | v in indeg
      ensures count[v] == Pending(edges, Elems(topo + [u]), v) + multiset(Succ(adj, u))[v]
    {
      PendingEmit(edges, done, u, v);
    }
  }

  lemma EmitShape(edges: seq<Edge>, adj: map<string, seq<string>>, indeg: map<string, int>,
                  topo: seq<string>, queue: seq<string>)
    requires Consistent(edges, adj, indeg)
    requires Shape(indeg, topo, queue, [])
    requires queue != []
    ensures Shape(indeg, topo + [queue[0]], queue[1..], Succ(adj, queue[0]))
  {
    var u := queue[0];
    forall x | x in Succ(adj, u)
      ensures x in indeg
    {
      AdjacencyHasEdge(edges, u, x);
    }
    forall v | v in queue[1..]
      ensures v != u
    {
    }
    assert u !in topo;
    forall i, j | 0 <= i < j < |topo + [u]|
      ensures (topo + [u])[i] != (topo + [u])[j]
    {
      if j == |topo| {
        assert (topo + [u])[i] in topo;
      }
    }
  }

  lemma EmitZeros(indeg: map<string, int>, count: map<string, int>, topo: seq<string>, queue: seq<string>)
    requires count.Keys == indeg.Keys
    requires ZeroWhenSeen(indeg, count, topo, queue)
    requires queue != []
    ensures ZeroWhenSeen(indeg, count, topo + [queue[0]], queue[1..])
  {
    forall v | v in queue
      ensures v == queue[0] || v in queue[1..]
    {
    }
  }

  /** No edge leads from the emitted node back into an earlier one, nor to itself. */
  lemma EmitForward(edges: seq<Edge>, adj: map<string, seq<string>>, topo: seq<string>, u: string)
    requires adj == Adjacency(edges)
    requires EdgesForward(adj, topo)
    requires u !in topo
    requires forall w :: w in topo + [u] ==> Pending(edges, Elems(topo), w) == 0
    ensures EdgesForward(adj, topo + [u])
  {
    var topo' := topo + [u];
    forall i, j | 0 <= i < |topo'| && 0 <= j < |topo'| && HasEdge(adj, topo'[i], topo'[j])
      ensures i < j
    {
      if i == |topo| {
        AdjacencyHasEdge(edges, u, topo'[j]);
        PendingZero(edges, Elems(topo), u, topo'[j]);
      } else if j < |topo| {
        assert HasEdge(adj, topo[i], topo[j]);
      }
    }
  }

  /** Popping the head of the queue and emitting it. */
  lemma KahnEmit(edges: seq<Edge>, adj: map<string, seq<string>>, indeg: map<string, int>,
                 count: map<string, int>, topo: seq<string>, queue: seq<string>)
    requires KahnInv(edges, adj, indeg, count, topo, queue, [])
    requires queue != []
    ensures KahnInv(edges, adj, indeg, count, topo + [queue[0]], queue[1..], Succ(adj, queue[0]))
    ensures indeg.Keys - Elems(topo + [queue[0]]) < indeg.Keys - Elems(topo)
  {
    var u := queue[0];
    assert Elems(topo + [u]) == Elems(topo) + {u};
    assert u in indeg.Keys && u !in Elems(topo);
    EmitCounts(edges, adj, indeg, count, topo, u);
    EmitShape(edges, adj, indeg, topo, queue);
    EmitZeros(indeg, count, topo, queue);
    forall w | w in topo + [u]
      ensures Pending(edges, Elems(topo), w) == 0
    {
      assert count[w] == 0;
    }
    EmitForward(edges, adj, topo, u);
  }

  lemma DecrementCounts(edges: seq<Edge>, indeg: map<string, int>, count: map<string, int>,
                        topo: seq<string>, rest: seq<string>)
    requires CountsMatch(edges, indeg, count, topo, rest)
    requires rest != [] && rest[0] in indeg
    ensures count[rest[0]] >= 1
    ensures CountsMatch(edges, indeg, count[rest[0] := count[rest[0]] - 1], topo, rest[1..])
  {
    assert rest == [rest[0]] + rest[1..];
  }

  /** Decrementing the count of the next successor, and queueing it when it reaches zero. */
  lemma KahnDecrement(edges: seq<Edge>, adj: map<string, seq<string>>, indeg: map<string, int>,
                      count: map<string, int>, topo: seq<string>, queue: seq<string>, rest: seq<string>)
    requires KahnInv(edges, adj, indeg, count, topo, queue, rest)
    requires rest != []
    ensures var v := rest[0];
      var count' := count[v := count[v] - 1];
      KahnInv(edges, adj, indeg, count', topo, if count'[v] == 0 then queue + [v] else queue, rest[1..])
  {
    var v := rest[0];
    DecrementCounts(edges, indeg, count, topo, rest);
    var count' := count[v := count[v] - 1];
    var queue' := if count'[v] == 0 then queue + [v] else queue;
    DecrementZeros(indeg, count, topo, queue, v);
    DecrementShape(indeg, topo, queue, rest, count'[v] == 0);
  }

  lemma DecrementZeros(indeg: map<string, int>, count: map<string, int>, topo: seq<string>,
                       queue: seq<string>, v: string)
    requires count.Keys == indeg.Keys
    requires ZeroWhenSeen(indeg, count, topo, queue)
    requires v in indeg && count[v] >= 1
    ensures var count' := count[v := count[v] - 1];
      ZeroWhenSeen(indeg, count', topo, if count'[v] == 0 then queue + [v] else queue)
  {
    assert v !in topo && v !in queue;
  }

  lemma DecrementShape(indeg: map<string, int>, topo: seq<string>, queue: seq<string>,
                       rest: seq<string>, enqueue: bool)
    requires Shape(indeg, topo, queue, rest)
    requires rest != [] && rest[0] !in topo && rest[0] !in queue
    ensures Shape(indeg, topo, if enqueue then queue + [rest[0]] else queue, rest[1..])
  {
    assert forall x :: x in rest[1..] ==> x in rest;
  }

  /** A sequence without repeats drawn from a set of a different size leaves part of the set out. */
  lemma LeftoverNonEmpty(topo: seq<string>, keys: set<string>)
    requires NoDup(topo) && Elems(topo) <= keys && |topo| != |keys|
    ensures keys - Elems(topo) != {}
  {
    NoDupCard(topo);
    assert Elems(topo) != keys;
    var x :| x in keys && x !in Elems(topo);
    assert x in keys - Elems(topo);
  }

  /** Once the queue is empty, every node was emitted exactly when the graph has no cycle. */
  lemma KahnFinish(edges: seq<Edge>, adj: map<string, seq<string>>, indeg: map<string, int>,
                   count: map<string, int>, topo: seq<string>)
    requires KahnInv(edges, adj, indeg, count, topo, [], [])
    ensures |topo| == |indeg| <==> Acyclic(adj)
    ensures forall u, v :: HasEdge(adj, u, v) && v in topo ==> u in topo
  {
    var done := Elems(topo);
    NoDupCard(topo);
    assert done <= indeg.Keys;
    forall u, v | HasEdge(adj, u, v) && v in topo
      ensures u in topo
    {
      AdjacencyHasEdge(edges, u, v);
      PendingZero(edges, done, u, v);
    }
    if |topo| == |indeg| {
      SubsetSameCard(done, indeg.Keys);
      forall u, v | HasEdge(adj, u, v)
        ensures u in topo
      {
        AdjacencyHasEdge(edges, u, v);
      }
      ForwardOrderAcyclic(adj, topo);
    } else {
      var r := indeg.Keys - done;
      assert |indeg.Keys| == |indeg|;
      LeftoverNonEmpty(topo, indeg.Keys);
      forall x | x in r
        ensures HasPredecessorIn(adj, r, x)
      {
        var y := PendingWitness(edges, done, x);
        AdjacencyHasEdge(edges, y, x);
      }
      CycleFromPredecessors(adj, r);
    }
  }

  /**
   * Kahn's algorithm. `edges` is the edge list the graph was built from; it
   * only ties `adj` and `indeg` together and is not used to compute anything.
   */
  method IsDagKahn(adj: map<string, seq<string>>, indeg: map<string, int>, ghost edges: seq<Edge>)
    returns (isDag: bool, topo: seq<string>)
    requires Consistent(edges, adj, indeg)
    ensures NoDup(topo) && Elems(topo) <= indeg.Keys
    ensures EdgesForward(adj, topo)
    ensures forall u, v :: HasEdge(adj, u, v) && v in topo ==> u in topo
    ensures isDag <==> |topo| == |indeg|
    ensures isDag <==> Acyclic(adj)
  {
    var q := ZeroInDegree(indeg);
    KahnStart(edges, adj, indeg, q);

    topo := [];
    var indegCopy := indeg;
    while q != []
      invariant KahnInv(edges, adj, indeg, indegCopy, topo, q, [])
      decreases indeg.Keys - Elems(topo)
    {
      var u := q[0];
      KahnEmit(edges, adj, indeg, indegCopy, topo, q);
      q := q[1..];
      topo := topo + [u];
      var succ := Succ(adj, u);
      for j := 0 to |succ|
        invariant KahnInv(edges, adj, indeg, indegCopy, topo, q, succ[j..])
      {
        var v := succ[j];
        KahnDecrement(edges, adj, indeg, indegCopy, topo, q, succ[j..]);
        assert succ[j..][1..] == succ[j + 1..];
        indegCopy := indegCopy[v := indegCopy[v] - 1];
        if indegCopy[v] == 0 {
          q := q + [v];
        }
      }
    }
    KahnFinish(edges, adj, indeg, indegCopy, topo);
    isDag := |topo| == |indeg|;
  }

  /** `[n for n, d in indeg.items() if d == 0]`, in the map's unspecified iteration order. */
  method ZeroInDegree(indeg: map<string, int>) returns (q: seq<string>)
    ensures NoDup(q)
    ensures forall x :: x in q <==> x in indeg && indeg[x] == 0
  {
    q := [];
    var unseen := indeg.Keys;
    while unseen != {}
      invariant unseen <= indeg.Keys
      invariant NoDup(q)
      invariant forall x :: x in q ==> x in indeg && indeg[x] == 0 && x !in unseen
      invariant forall x :: x in indeg && x !in unseen && indeg[x] == 0 ==> x in q
      decreases unseen
    {
      var n :| n in unseen;
      if indeg[n] == 0 {
        q := q + [n];
      }
      unseen := unseen - {n};
    }
  }
}
