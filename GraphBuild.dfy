/**
 * `build_graph`: one pass over the node records and two over the edge list
 * fill the node-id set, the adjacency lists and the in-degree map.
 */
module GraphBuild {
  import opened Wrappers
  import opened PipelineGraph

  method BuildGraph(nodes: seq<NodeRecord>, edges: seq<Edge>)
    returns (nodeIds: set<string>, adj: map<string, seq<string>>, indeg: map<string, int>)
    ensures nodeIds == NodeIds(nodes, edges)
    ensures adj == Adjacency(edges)
    ensures indeg == InDegrees(nodeIds, edges)
    ensures indeg.Keys == nodeIds && Closed(adj, nodeIds)
    ensures ValueSum(indeg) == |edges|
    ensures ValueSum(map s | s in adj :: |adj[s]|) == |edges|
  {
    nodeIds := CollectNodeIds(nodes, edges);
    ghost var ids := nodeIds;
    assert Endpoints(edges) <= ids;
    adj := map[];
    indeg := map nid | nid in nodeIds :: 0;
    assert indeg == InDegrees(ids, edges[..0]);
    for i := 0 to |edges|
      invariant nodeIds == ids
      invariant adj == Adjacency(edges[..i])
      invariant indeg == InDegrees(ids, edges[..i])
    {
      var s, t := edges[i].source, edges[i].target;
      assert s in indeg && t in indeg by {
        EndpointsStep(edges, i);
        assert Endpoints(edges[..i + 1]) <= Endpoints(edges) by {
          assert forall e :: e in edges[..i + 1] ==> e in edges;
        }
      }
      // Both ends were collected already, so these two branches never add a key.
      if s !in indeg {
        indeg := indeg[s := 0];
        nodeIds := nodeIds + {s};
      }
      if t !in indeg {
        indeg := indeg[t := 0];
        nodeIds := nodeIds + {t};
      }
      adj := adj[s := Succ(adj, s) + [t]];
      indeg := indeg[t := (if t in indeg then indeg[t] else 0) + 1];
      AdjacencyStep(edges, i, adj);
      InDegreesStep(ids, edges, i, indeg);
    }
    assert edges[..|edges|] == edges;
    BuiltGraph(nodes, edges);
  }

  /** The three results of graph building fit together, and each counts every edge once. */
  lemma BuiltGraph(nodes: seq<NodeRecord>, edges: seq<Edge>)
    ensures var ids, adj := NodeIds(nodes, edges), Adjacency(edges);
      && InDegrees(ids, edges).Keys == ids
      && Closed(adj, ids)
      && ValueSum(InDegrees(ids, edges)) == |edges|
      && ValueSum(map s | s in adj :: |adj[s]|) == |edges|
  {
    var ids := NodeIds(nodes, edges);
    assert forall e :: e in edges ==> e.source in ids && e.target in ids;
    AdjacencyClosed(edges, ids);
    InDegreeSum(ids, edges);
    AdjacencyLengthSum(edges);
  }

  /** The first two loops of `build_graph`: ids from the node records, then both ends of every edge. */
  method CollectNodeIds(nodes: seq<NodeRecord>, edges: seq<Edge>) returns (nodeIds: set<string>)
    ensures nodeIds == NodeIds(nodes, edges)
  {
    nodeIds := {};
    for i := 0 to |nodes|
      invariant nodeIds == RecordIds(nodes[..i])
    {
      RecordIdsStep(nodes, i);
      if nodes[i].id.Some? {
        nodeIds := nodeIds + {nodes[i].id.value};
      }
    }
    assert nodes[..|nodes|] == nodes;

    for i := 0 to |edges|
      invariant nodeIds == RecordIds(nodes) + Endpoints(edges[..i])
    {
      EndpointsStep(edges, i);
      nodeIds := nodeIds + {edges[i].source};
      nodeIds := nodeIds + {edges[i].target};
    }
    assert edges[..|edges|] == edges;
  }

  lemma RecordIdsStep(nodes: seq<NodeRecord>, i: nat)
    requires i < |nodes|
    ensures RecordIds(nodes[..i + 1]) == RecordIds(nodes[..i]) + (if nodes[i].id.Some? then {nodes[i].id.value} else {})
  {
    assert nodes[..i + 1] == nodes[..i] + [nodes[i]];
  }

  lemma EndpointsStep(edges: seq<Edge>, i: nat)
    requires i < |edges|
    ensures Endpoints(edges[..i + 1]) == Endpoints(edges[..i]) + {edges[i].source, edges[i].target}
  {
    assert edges[..i + 1] == edges[..i] + [edges[i]];
  }

  /** Appending edge `i` appends its target to its source's list and leaves the other lists alone. */
  lemma AdjacencyStep(edges: seq<Edge>, i: nat, next: map<string, seq<string>>)
    requires i < |edges|
    requires var adj := Adjacency(edges[..i]);
      next == adj[edges[i].source := Succ(adj, edges[i].source) + [edges[i].target]]
    ensures next == Adjacency(edges[..i + 1])
  {
    var pre, e := edges[..i], edges[i];
    var all := edges[..i + 1];
    assert all == pre + [e];
    var lhs := Adjacency(all);
    assert lhs.Keys == next.Keys by {
      SourcesSnoc(pre, e);
    }
    forall x | x in lhs
      ensures lhs[x] == next[x]
    {
      TargetsOfSnoc(pre, e, x);
      if x == e.source {
        AdjacencySucc(pre, x);
      }
    }
  }

  lemma SourcesSnoc(pre: seq<Edge>, e: Edge)
    ensures Sources(pre + [e]) == Sources(pre) + {e.source}
  {
    assert forall x :: x in pre + [e] <==> x in pre || x == e;
  }

  lemma TargetsOfSnoc(pre: seq<Edge>, e: Edge, x: string)
    ensures TargetsOf(pre + [e], x) == TargetsOf(pre, x) + (if e.source == x then [e.target] else [])
  {
    assert (pre + [e])[..|pre|] == pre;
  }

  /** Appending edge `i` adds one to the in-degree of its target only. */
  lemma InDegreesStep(keys: set<string>, edges: seq<Edge>, i: nat, next: map<string, int>)
    requires i < |edges| && edges[i].target in keys
    requires var indeg := InDegrees(keys, edges[..i]);
      next == indeg[edges[i].target := indeg[edges[i].target] + 1]
    ensures next == InDegrees(keys, edges[..i + 1])
  {
    assert edges[..i + 1][..i] == edges[..i];
  }
}
