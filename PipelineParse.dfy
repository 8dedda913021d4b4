/**
 * The result assembly of the `/pipelines/parse` handler: counts, Kahn's
 * verdict, and a cycle found by depth-first search when there is one.
 */
module PipelineParse {
  import opened Wrappers
  import opened PipelineGraph
  import opened GraphBuild
  import opened Kahn
  import opened CycleSearch

  /** The response body; `cycleNodes` is the optional `cycle_nodes` key. */
  datatype ParseResult = ParseResult(numNodes: nat, numEdges: nat, isDag: bool, cycleNodes: Option<seq<string>>)

  /** `payload.nodes or []`: an absent list is empty. */
  function OrEmpty<T>(xs: Option<seq<T>>): seq<T>
  {
    if xs.Some? then xs.value else []
  }

  method ParsePipeline(payloadNodes: Option<seq<NodeRecord>>, payloadEdges: Option<seq<Edge>>)
    returns (r: ParseResult)
    ensures r.numNodes == |OrEmpty(payloadNodes)| && r.numEdges == |OrEmpty(payloadEdges)|
    ensures r.isDag <==> Acyclic(Adjacency(OrEmpty(payloadEdges)))
    ensures r.cycleNodes.Some? <==> !r.isDag
    ensures r.cycleNodes.Some? ==> IsCycle(Adjacency(OrEmpty(payloadEdges)), r.cycleNodes.value)
    ensures (exists u :: Edge(u, u) in OrEmpty(payloadEdges)) ==> !r.isDag
  {
    var nodes := OrEmpty(payloadNodes);
    var edges := OrEmpty(payloadEdges);
    var nodeIds, adj, indeg := BuildGraph(nodes, edges);
    var isDag, topo := IsDagKahn(adj, indeg, edges);
    if isDag {
      r := ParseResult(|nodes|, |edges|, true, None);
    } else {
      var cycle := FindCycleDfs(nodeIds, adj);
      r := ParseResult(|nodes|, |edges|, false, Some(cycle));
    }
    if u :| Edge(u, u) in edges {
      SelfLoopCycle(edges, u);
    }
  }
}
