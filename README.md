# Pipeline Builder: a verified model of the graph validator and the node ports

The Pipeline Builder is a node editor. The user drops Input, LLM, Output and
Text nodes on a canvas and wires their handles together. A submitted pipeline
goes to a small backend that reports how many nodes and edges it has and
whether the graph is a DAG. When the graph is not a DAG, the backend also
returns one cycle.

This project models two parts of that system in Dafny and proves their properties.

**The backend validator** (`backend/main.py`):
- `build_graph` is modelled by `GraphBuild.BuildGraph`. It is a method with
  the source's three loops. It is proved to compute three things:
  - the node-id set;
  - the adjacency lists, one per edge source, in edge order, with repeats kept;
  - the in-degree map.
- `is_dag_kahn` is modelled by `Kahn.IsDagKahn`, Kahn's algorithm over a
  working copy of the in-degrees. It is proved to answer "acyclic" exactly
  when the graph has no directed cycle. Its output order sends every edge
  forward.
- The nested `dfs` of `find_cycle_dfs` is modelled by
  `CycleSearch.Search.Visit`. The `nonlocal` state of the search (colours,
  parent links, the cycle) is the field set of the class `CycleSearch.Search`.
  The parent-link walk that rebuilds the cycle is proved to return a real
  closed walk of the graph.
- The result assembly of `parse_pipeline` is modelled by
  `PipelineParse.ParsePipeline`.

The graph is defined once, as functions of the edge list, in `PipelineGraph`.
The same module defines what a cycle is and what acyclic means.

**The front-end node components** (`frontend/src/nodes/*.js`):
- `TemplateVariables` models the text node's variable extractor. It is the
  global regular expression `\{\{\s*([A-Za-z_$][A-Za-z0-9_$]*)\s*\}\}`, run
  with repeated `exec` calls, with the captured names collected into an
  insertion-ordered `Set`. The model is a character-level matcher, proved
  sound and complete for that expression. It is scanned the way `exec`
  resumes at `lastIndex`, and deduplicated the way `Set` keeps the first
  occurrence.
- `NodePorts` models the rest:
  - the handle ids each node kind renders;
  - the default names `input_<n>` and `output_<n>`, where `<n>` comes from
    `id.split('-').pop()`;
  - the default type `Text`;
  - the `onChange` notification;
  - the `type` tags that connect the toolbar to the `nodeTypes` table.

A Python `set` or `dict` is iterated in an order the program does not fix. The
model picks each next element with `:|`, so the proofs hold for every
iteration order.

## Model

| member | source | states |
|---|---|---|
| PipelineGraph.TargetsOfCount | backend/main.py:69 | the adjacency list of `s` holds `v` exactly as often as the edge list holds `s -> v` |
| PipelineGraph.TargetsOfLength | backend/main.py:69 | the length of a node's adjacency list is its out-degree |
| PipelineGraph.AdjacencyHasEdge | backend/main.py:59-70 | `v` is in the adjacency list of `u` exactly when the edge `u -> v` was submitted |
| PipelineGraph.AdjacencySucc | backend/main.py:87 | `adj.get(u, [])` is the targets of the edges out of `u`, in submission order |
| PipelineGraph.NoSourceNoTargets | backend/main.py:56 | a node that is the source of no edge has no successors |
| PipelineGraph.AdjacencyClosed | backend/main.py:46-69 | when a key set holds both ends of every edge, every node with an edge lies in that set |
| PipelineGraph.SelfLoopCycle | backend/main.py:69 | a self-loop `u -> u` is the cycle `[u, u]`, so the graph is not acyclic |
| PipelineGraph.ForwardOrderAcyclic | backend/main.py:92 | an order that lists every edge source and sends every edge forward rules out every directed cycle |
| PipelineGraph.CycleFromPredecessors | backend/main.py:92 | a non-empty node set in which every node has a predecessor inside the set contains a directed cycle |
| PipelineGraph.DegreeSum | backend/main.py:57-70 | summed over a key set holding every edge end, the per-node degrees count each edge once |
| PipelineGraph.AdjacencyLengthSum | backend/main.py:69 | the lengths of the adjacency lists add up to the number of edges |
| PipelineGraph.InDegreeSum | backend/main.py:70 | the in-degrees add up to the number of edges |
| GraphBuild.BuildGraph | backend/main.py:36-72 | the node ids are the ids of the nodes that have one plus both ends of every edge; the adjacency lists and in-degrees are those of the edge list; the in-degree map has exactly the node ids as keys; every edge end is a node id; both the in-degrees and the list lengths add up to the number of edges |
| GraphBuild.BuiltGraph | backend/main.py:55-72 | the three results of graph building fit together: the in-degree keys are the node ids, the adjacency is closed over them, and both sums equal the edge count |
| GraphBuild.CollectNodeIds | backend/main.py:43-53 | the first two loops collect the ids of the nodes that carry one and both ends of every edge |
| GraphBuild.AdjacencyStep | backend/main.py:69 | appending an edge appends its target to its source's list and changes no other list |
| GraphBuild.InDegreesStep | backend/main.py:70 | appending an edge adds one to the in-degree of its target and changes no other count |
| Kahn.ZeroInDegree | backend/main.py:80 | the initial queue holds each node of in-degree zero exactly once, and nothing else |
| Kahn.PendingInitially | backend/main.py:83 | before anything is emitted, every edge into a node is still pending, so the copied in-degree counts them all |
| Kahn.PendingEmit | backend/main.py:85-88 | emitting `u` settles exactly the edges out of `u`, counted with repeats |
| Kahn.PendingZero | backend/main.py:89 | a node whose count reached zero has every predecessor already emitted |
| Kahn.KahnStart | backend/main.py:80-83 | the zero in-degree queue and the copied map satisfy the loop invariant |
| Kahn.KahnEmit | backend/main.py:85-86 | popping the head of the queue and emitting it keeps the invariant and shrinks the set of unemitted nodes |
| Kahn.EmitForward | backend/main.py:86 | a node emitted after all its predecessors keeps every edge of the emitted order pointing forward |
| Kahn.DecrementCounts | backend/main.py:88 | a count about to be decremented is at least one, and after the decrement it again counts the pending edges |
| Kahn.KahnDecrement | backend/main.py:87-90 | decrementing a successor's count, and queueing it when the count reaches zero, keeps the invariant |
| Kahn.KahnFinish | backend/main.py:92 | with the queue empty, every node was emitted exactly when the graph has no directed cycle, and the emitted set is closed under predecessors |
| Kahn.IsDagKahn | backend/main.py:75-93 | the emitted order is duplicate-free and uses known nodes, sends every edge forward, and is closed under predecessors; `is_dag` holds exactly when every node was emitted, and exactly when the graph has no directed cycle |
| CycleSearch.PathCycle | backend/main.py:115-125 | an edge from the end of a path of edges back to its `m`-th node closes the cycle that starts there |
| CycleSearch.WhitesRecolour | backend/main.py:109 | colouring a node grey or black removes it, and only it, from the unvisited nodes |
| CycleSearch.EnterColoured | backend/main.py:109 | a white node coloured grey and pushed keeps "grey exactly on the path, black exactly when finished" |
| CycleSearch.SetParentPath | backend/main.py:112 | setting the parent of a node off the path leaves the path's parent links alone |
| CycleSearch.LeaveColoured | backend/main.py:127 | a node coloured black and popped keeps "grey exactly on the path, black exactly when finished" |
| CycleSearch.LeaveClosed | backend/main.py:127 | a node whose successors are all finished can be finished, keeping the finished nodes closed under successors and ordered with every edge forward |
| CycleSearch.CycleClosed | backend/main.py:118-125 | the parent walk from the top of the path back to `v`, with `v` appended and then reversed, is the path from `v` on, closed, and it is a cycle |
| CycleSearch.Search.CyclePath | backend/main.py:116-125 | the rebuilt cycle is the grey path from `v` to `u`, closed by `v`, and it is a closed walk of the graph |
| CycleSearch.Search.VisitSuccessors | backend/main.py:110-126 | a reported cycle is a cycle of the graph; otherwise every successor of `u` is finished, the search state is still well formed, every newly finished node was white before, every node that stopped being white is reachable from `u`, and the parent links are unchanged except those of nodes that were white and no longer are (only a white `v` gets `parent[v] = u`, just before it is entered) |
| CycleSearch.Search.Visit | backend/main.py:107-128 | `dfs(u)` either reports a cycle of the graph, or leaves `u` black, finished after everything reachable from it, with the path as it was; the nodes it finishes were all white before, the white nodes `u` cannot reach stay white, no node turns white again, and the only parent links that change are those of the nodes it took out of the white set |
| CycleSearch.Search.Leave | backend/main.py:127 | `color[u] = BLACK` pops `u` off the path, puts it in front of the finished nodes, removes exactly `u` from the white nodes, changes nothing else, and keeps the search state well formed |
| CycleSearch.Search.VisitChild | backend/main.py:111-114 | `parent[v] = u; dfs(v)` for a white successor either reports a cycle of the graph, or finishes `v`, keeps the path and the state well formed, finishes only nodes that were white, loses only whites reachable from `u`, and changes only the parent links of the nodes it took out of the white set |
| CycleSearch.ChildFrames | backend/main.py:111-113 | after `parent[v] = u` and the search from the white successor `v`, the parent links of the nodes that were not white, or still are, are kept and every node that stopped being white is reachable from `u` through the edge `u -> v` |
| CycleSearch.ChainFrames | backend/main.py:110-114 | two stretches of the search one after the other finish only nodes that were white at the start, change only the parent links of nodes no longer white, and lose only whites reachable from `u` |
| CycleSearch.ChainVisit | backend/main.py:107-128 | greying `u`, searching its successors and blackening `u` finishes only white nodes, changes only the parent links of nodes no longer white, and loses only `u` and whites reachable from it |
| CycleSearch.ReachesStep | backend/main.py:110-113 | an edge `u -> v` followed by a walk from `v` to `x` is a walk from `u` to `x` |
| CycleSearch.Search.constructor | backend/main.py:101-105 | every node id starts white; no parents and no cycle yet |
| CycleSearch.FindCycleDfs | backend/main.py:96-136 | a non-empty answer is a cycle of the graph; an empty answer means the graph is acyclic whenever every node with a list is a node id |
| PipelineParse.ParsePipeline | backend/main.py:145-170 | the counts are the lengths of the submitted lists; `is_dag` holds exactly when the edges form no directed cycle; `cycle_nodes` is present exactly when `is_dag` is false and then holds a cycle of the graph; a self-loop always makes `is_dag` false |
| TemplateVariables.ClassesDisjoint | frontend/src/nodes/textNode.js:10 | identifier characters are not spaces, and braces are neither spaces nor identifier characters |
| TemplateVariables.SkipSpaces | frontend/src/nodes/textNode.js:10 | `\s*` consumes the longest run of ECMAScript white space |
| TemplateVariables.SkipIdentPart | frontend/src/nodes/textNode.js:10 | `[A-Za-z0-9_$]*` consumes the longest run of identifier characters |
| TemplateVariables.MatchAt | frontend/src/nodes/textNode.js:10 | a match found at `i` starts at `i`, spans at least the braces and the name, and captures an identifier |
| TemplateVariables.MatchAtComplete | frontend/src/nodes/textNode.js:10 | every way the expression can match at `i` is the match `MatchAt` returns, with the same captured name and end |
| TemplateVariables.MatchAtSound | frontend/src/nodes/textNode.js:10 | what `MatchAt` returns is a match of the expression: braces, spaces, the name, spaces, braces |
| TemplateVariables.NoOverlap | frontend/src/nodes/textNode.js:10-13 | no match starts strictly inside another one |
| TemplateVariables.Exec | frontend/src/nodes/textNode.js:13 | `exec` from `lastIndex` returns the leftmost match at or after it, or null when none starts there or later |
| TemplateVariables.ExecMatches | frontend/src/nodes/textNode.js:13 | one `exec` call yields the first of the remaining names, and the scan resumes at the match's end |
| TemplateVariables.MatchesMembers | frontend/src/nodes/textNode.js:12-13 | resuming after each match loses nothing: the scan collects a name exactly when some match at or after its start captures it |
| TemplateVariables.MatchesSound | frontend/src/nodes/textNode.js:12-13 | every name the scan collects was captured by a match starting at or after where the scan began |
| TemplateVariables.MatchesComplete | frontend/src/nodes/textNode.js:12-13 | the name of every match starting at or after where the scan began is collected: no match is skipped by resuming at `lastIndex` |
| TemplateVariables.MatchesIdentifiers | frontend/src/nodes/textNode.js:10-13 | every collected name is an identifier |
| TemplateVariables.Dedup | frontend/src/nodes/textNode.js:11-14 | `Array.from(new Set(...))` has no repeats and holds exactly the added names |
| TemplateVariables.DedupOrder | frontend/src/nodes/textNode.js:14 | the kept names appear in the order of their first occurrences |
| TemplateVariables.DedupAppend | frontend/src/nodes/textNode.js:13 | `found.add(x)` appends `x` only when it is not there yet |
| TemplateVariables.ExecStep | frontend/src/nodes/textNode.js:13 | a successful `exec` moves `lastIndex` strictly forward and collects the next name of the scan |
| TemplateVariables.ExtractVariables | frontend/src/nodes/textNode.js:9-15 | the effect's `exec` loop produces the distinct names of the scan, in first-appearance order |
| TemplateVariables.ExtractDistinct | frontend/src/nodes/textNode.js:14 | no variable is listed twice |
| TemplateVariables.ExtractMembers | frontend/src/nodes/textNode.js:9-15 | a name is a variable exactly when some match of the expression in the text captures it |
| TemplateVariables.ExtractOrder | frontend/src/nodes/textNode.js:14 | variables are listed in the order of their first appearance in the text |
| TemplateVariables.ExtractIdentifiers | frontend/src/nodes/textNode.js:10 | every variable starts with a letter, `_` or `$` and continues with letters, digits, `_` or `$` |
| TemplateVariables.NoMatchNoVariables | frontend/src/nodes/textNode.js:13-14 | a text in which the expression matches nowhere has no variables |
| TemplateVariables.EmptyTextNoVariables | frontend/src/nodes/textNode.js:5 | the default empty text has no variables |
| TemplateVariables.BareMatch | frontend/src/nodes/textNode.js:10 | `{{x}}` with a one-character name matches and captures `x` |
| TemplateVariables.RepeatedVariableExample | frontend/src/nodes/textNode.js:11-14 | `{{b}} {{a}} {{b}}` has the variables `b`, `a`, each once and in that order |
| TemplateVariables.SpacedVariableExample | frontend/src/nodes/textNode.js:10 | `{{ name }}` has the variable `name`: spaces around the name are allowed |
| TemplateVariables.DigitFirstExample | frontend/src/nodes/textNode.js:10 | `{{1a}}` has no variable: a name may not start with a digit |
| NodePorts.KindTagRoundTrip | frontend/src/ui.js:18-23 | every kind's tag is looked up to that kind's component, and a tag that looks up a kind is that kind's tag |
| NodePorts.ToolbarCoversKinds | frontend/src/toolbar.js:8-13 | the toolbar offers every kind, each once |
| NodePorts.InputPorts | frontend/src/nodes/inputNode.js:45-50 | an input node has exactly one handle, the source `<id>-output`, and no target |
| NodePorts.OutputPorts | frontend/src/nodes/outputNode.js:44-49 | an output node has exactly one handle, the target `<id>-input`, and no source |
| NodePorts.LlmPorts | frontend/src/nodes/llmNode.js:7-13 | an LLM node has the targets `<id>-system` and `<id>-prompt`, the source `<id>-response`, and no two of them share an id |
| NodePorts.VariableHandles | frontend/src/nodes/textNode.js:43-45 | one target handle `var-<name>` per variable, in variable order |
| NodePorts.TextPorts | frontend/src/nodes/textNode.js:43-47 | a text node has one source, `<id>-output`, whatever the text, and one target `var-<name>` for each variable, with no two alike and none for any other name |
| NodePorts.TextOutputApart | frontend/src/nodes/textNode.js:44-47 | a variable handle of a text node coincides with its output handle only for the node id `var` and the variable `output` |
| NodePorts.Split | frontend/src/nodes/inputNode.js:7 | `split('-')` yields at least one piece, and no piece contains a dash |
| NodePorts.JoinSplit | frontend/src/nodes/inputNode.js:7 | joining the pieces with dashes gives back the id |
| NodePorts.LastSegment | frontend/src/nodes/inputNode.js:7 | the segment has no dash, is a tail of the id, and is preceded by a dash whenever it is shorter than the id, so it is the whole id when the id has no dash |
| NodePorts.LastSegmentIsLastPiece | frontend/src/nodes/inputNode.js:7 | `id.split('-').pop()`, the last piece of the split, is that dash-free tail |
| NodePorts.InitialNames | frontend/src/nodes/inputNode.js:7 | a non-empty name in the node data wins; otherwise the name is `input_` (or `output_`, in outputNode.js line 7) followed by the dash-free tail of the id |
| NodePorts.DefaultNameExample | frontend/src/nodes/inputNode.js:7 | the node `customInput-3` is named `input_3` by default, and `output_3` as an output node, even when the given name is empty |
| NodePorts.InitialType | frontend/src/nodes/inputNode.js:8 | a non-empty type in the data wins; a missing or empty one gives `Text`, which both the input selector (lines 38-40) and the output selector (outputNode.js lines 37-39) offer |
| NodePorts.InitialText | frontend/src/nodes/textNode.js:5 | the initial text is the given text, or empty when none is given |
| NodePorts.InputSyncRoundTrip | frontend/src/nodes/inputNode.js:10-15 | what `InputNotification` passes to `onChange`, read back as node data on a new mount, restores the name exactly when it is non-empty and the type exactly when it is non-empty; an emptied field falls back to its default |
| NodePorts.OutputSyncRoundTrip | frontend/src/nodes/outputNode.js:10-14 | what `OutputNotification` passes to `onChange`, read back as node data on a new mount, restores the name exactly when it is non-empty and the type exactly when it is non-empty; an emptied field falls back to its default |

## Left out

- The HTTP layer is not modelled: the FastAPI application, CORS, the health endpoint, `uvicorn` and pydantic validation. `parse_pipeline`'s `except`, which turns any exception into an HTTP 500, is not modelled either.
- Node records are reduced to an optional string `id`. `str(...)` of a non-string id, and node entries that are not dicts, are not modelled.
- `IsDagKahn` takes no `node_ids` argument, because `is_dag_kahn` never reads it. A ghost edge list ties `adj` to `indeg`.
- `indeg.copy()` is implicit, because maps are values in the model. The caller's in-degrees are untouched by construction.
- CycleSearch.FindCycleDfs: the promise that an empty answer means "acyclic" is stated only when every adjacency key is a node id. `build_graph` guarantees this, and `ParsePipeline` relies on it.
- Which cycle `find_cycle_dfs` returns depends on set and dict iteration order. The model proves only that the answer is a cycle, not which one.
- PipelineParse.ParsePipeline: Python's recursion limit is not modelled. `dfs` recurses once per tree edge, so a depth-first path longer than the limit (about 1000 nodes), such as one long ring, or a long chain ending in a self-loop and searched from its head, raises `RecursionError` in `find_cycle_dfs`. `parse_pipeline` then answers HTTP 500, where the model returns `is_dag` false together with a cycle.
- JavaScript strings are sequences of UTF-16 code units. The model's `string` is a sequence of Unicode scalar values. The two agree on the characters the expression tests.
- React state, effects, re-rendering and the textarea resizing effect (`textNode.js` lines 17-24) are not modelled. The variable list and ports are taken as functions of the current text.
- Handle positions, styles and labels are not modelled. Only handle sides and ids are.
- NodePorts.Truthy: JavaScript truthiness is modelled only for strings, present and non-empty. Non-string values in the node data are not modelled.
- The graph store (id generation, node and edge changes), drag and drop, and the submit request are not part of this model. The store does not appear among the modelled files. Pruning edges whose `var-<name>` handle disappeared is the store's and canvas's concern; the text node itself only re-renders its handles.
