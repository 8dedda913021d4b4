/**
 * `find_cycle_dfs`: a three-colour depth-first search that stops at the first
 * edge into a grey node and rebuilds, from the parent links, the cycle that
 * edge closes.
 */
module CycleSearch {
  import opened Wrappers
  import opened Seqs
  import opened PipelineGraph

  datatype Color = White | Gray | Black

  /** Every node that occurs in some adjacency list. */
  function Targets(adj: map<string, seq<string>>): set<string>
  {
    set u, v | u in adj && v in adj[u] :: v
  }

  /** An edge from the last node of a tree path back into it closes a cycle. */
  lemma PathCycle(adj: map<string, seq<string>>, path: seq<string>, m: nat)
    requires m < |path|
    requires forall i :: 0 < i < |path| ==> HasEdge(adj, path[i - 1], path[i])
    requires HasEdge(adj, path[|path| - 1], path[m])
    ensures IsCycle(adj, path[m..] + [path[m]])
  {
    var p := path[m..] + [path[m]];
    forall k | 0 <= k < |p| - 1
      ensures HasEdge(adj, p[k], p[k + 1])
    {
      if k < |p| - 2 {
        assert p[k] == path[m + k] && p[k + 1] == path[m + k + 1];
      }
    }
  }

  lemma SuccInTargets(adj: map<string, seq<string>>, u: string, v: string)
    requires HasEdge(adj, u, v)
    ensures v in Targets(adj)
  {
    assert u in adj && v in adj[u];
  }

  /** `color.get(x, WHITE) == WHITE`: nodes the search has not reached yet. */
  predicate IsWhite(color: map<string, Color>, x: string)
  {
    x !in color || color[x] == White
  }

  ghost function WhitesOf(universe: set<string>, color: map<string, Color>): set<string>
  {
    set x | x in universe && IsWhite(color, x)
  }

  /** Grey exactly on the path, black exactly when finished. */
  ghost predicate Coloured(nodeIds: set<string>, color: map<string, Color>, stack: seq<string>, finished: seq<string>)
  {
    && nodeIds <= color.Keys
    && NoDup(stack) && NoDup(finished)
    && (forall x :: x in stack <==> x in color && color[x] == Gray)
    && (forall x :: x in finished <==> x in color && color[x] == Black)
  }

  /** Each grey node after the first was entered along an edge from the one before it. */
  ghost predicate TreePath(adj: map<string, seq<string>>, parent: map<string, Option<string>>, stack: seq<string>)
  {
    forall i :: 0 < i < |stack| ==> TreeLink(adj, parent, stack[i - 1], stack[i])
  }

  /** `b` was entered from `a` along an edge. */
  ghost predicate TreeLink(adj: map<string, seq<string>>, parent: map<string, Option<string>>, a: string, b: string)
  {
    b in parent && parent[b] == Some(a) && HasEdge(adj, a, b)
  }

  /** No edge leaves the finished nodes, and they are listed in topological order. */
  ghost predicate FinishedClosed(adj: map<string, seq<string>>, finished: seq<string>)
  {
    && (forall x, y :: x in finished && HasEdge(adj, x, y) ==> y in finished)
    && EdgesForward(adj, finished)
  }

  /** Giving a node a colour other than white removes it, and only it, from the white nodes. */
  lemma WhitesRecolour(universe: set<string>, color: map<string, Color>, u: string, c: Color)
    requires c != White
    ensures WhitesOf(universe, color[u := c]) == WhitesOf(universe, color) - {u}
  {
  }

  /** `color[u] = GRAY` with `u` pushed on the path. */
  lemma EnterColoured(nodeIds: set<string>, color: map<string, Color>, stack: seq<string>, finished: seq<string>, u: string)
    requires Coloured(nodeIds, color, stack, finished)
    requires IsWhite(color, u)
    ensures Coloured(nodeIds, color[u := Gray], stack + [u], finished)
  {
    assert u !in stack && u !in finished;
  }

  lemma EnterPath(adj: map<string, seq<string>>, parent: map<string, Option<string>>, stack: seq<string>, u: string)
    requires TreePath(adj, parent, stack)
    requires stack != [] ==>
      u in parent && parent[u] == Some(stack[|stack| - 1]) && HasEdge(adj, stack[|stack| - 1], u)
    ensures TreePath(adj, parent, stack + [u])
  {
  }

  lemma PopPath(adj: map<string, seq<string>>, parent: map<string, Option<string>>, stack: seq<string>, u: string)
    requires TreePath(adj, parent, stack + [u])
    ensures TreePath(adj, parent, stack)
  {
    var s := stack + [u];
    assert forall k :: 0 <= k < |stack| ==> s[k] == stack[k];
  }

  /** `parent[v] = u` for a node off the path leaves the path's links alone. */
  lemma SetParentPath(adj: map<string, seq<string>>, parent: map<string, Option<string>>, stack: seq<string>,
                      v: string, p: Option<string>)
    requires TreePath(adj, parent, stack)
    requires v !in stack
    ensures TreePath(adj, parent[v := p], stack)
  {
    forall i | 0 < i < |stack|
      ensures stack[i] != v
    {
    }
  }

  /** `color[u] = BLACK` with `u` popped off the path and put in front of the finished nodes. */
  lemma LeaveColoured(nodeIds: set<string>, color: map<string, Color>, stack: seq<string>, finished: seq<string>, u: string)
    requires Coloured(nodeIds, color, stack + [u], finished)
    ensures Coloured(nodeIds, color[u := Black], stack, [u] + finished)
  {
    var s := stack + [u];
    assert s[|stack|] == u;
    assert forall k :: 0 <= k < |stack| ==> s[k] == stack[k];
    assert u !in finished;
    assert u !in stack;
    assert forall x :: x in stack ==> x in s;
  }

  /** A node whose successors are all finished, none of them itself, can be finished in front. */
  lemma LeaveClosed(adj: map<string, seq<string>>, finished: seq<string>, u: string)
    requires FinishedClosed(adj, finished)
    requires u !in finished
    requires forall v :: HasEdge(adj, u, v) ==> v in finished
    ensures FinishedClosed(adj, [u] + finished)
  {
    var f := [u] + finished;
    forall i, j | 0 <= i < |f| && 0 <= j < |f| && HasEdge(adj, f[i], f[j])
      ensures i < j
    {
      if i > 0 && j > 0 {
        assert HasEdge(adj, finished[i - 1], finished[j - 1]);
      }
    }
  }

  /** Following one more parent link appends it to the reversed path. */
  lemma WalkStep(stack: seq<string>, j: nat, v: string, path: seq<string>)
    requires j < |stack|
    requires path == [v] + Reversed(stack[j + 1..])
    ensures path + [stack[j]] == [v] + Reversed(stack[j..])
  {
    assert stack[j..][1..] == stack[j + 1..];
  }

  /** The completed walk back from the top of the tree path, turned round, is a cycle: the path from `m` on, closed. */
  lemma CycleClosed(adj: map<string, seq<string>>, parent: map<string, Option<string>>, stack: seq<string>, m: nat,
                    path: seq<string>)
    requires TreePath(adj, parent, stack)
    requires m < |stack| && HasEdge(adj, stack[|stack| - 1], stack[m])
    requires path == [stack[m]] + Reversed(stack[m + 1..]) + [stack[m]]
    ensures Reversed(path) == stack[m..] + [stack[m]]
    ensures IsCycle(adj, Reversed(path))
  {
    ClosedReversed(stack[m], stack[m + 1..]);
    assert stack[m..] == [stack[m]] + stack[m + 1..];
    forall i | 0 < i < |stack|
      ensures HasEdge(adj, stack[i - 1], stack[i])
    {
      assert TreeLink(adj, parent, stack[i - 1], stack[i]);
    }
    PathCycle(adj, stack, m);
  }

  /** Turning the partial path `[v] + reversed(s) + [v]` round gives `[v] + s + [v]`. */
  lemma ClosedReversed(v: string, s: seq<string>)
    ensures Reversed([v] + Reversed(s) + [v]) == [v] + s + [v]
  {
    ReversedAppend([v] + Reversed(s), [v]);
    ReversedAppend([v], Reversed(s));
    ReversedTwice(s);
  }

  /** A walk of zero or more steps: consecutive nodes are joined by edges. */
  ghost predicate Walk(adj: map<string, seq<string>>, p: seq<string>)
  {
    |p| >= 1 && forall k :: 0 <= k < |p| - 1 ==> HasEdge(adj, p[k], p[k + 1])
  }

  /** `x` can be reached from `u` by following edges. */
  ghost predicate Reaches(adj: map<string, seq<string>>, u: string, x: string)
  {
    exists p :: Walk(adj, p) && p[0] == u && p[|p| - 1] == x
  }

  lemma ReachesSelf(adj: map<string, seq<string>>, u: string)
    ensures Reaches(adj, u, u)
  {
    assert Walk(adj, [u]);
  }

  /** An edge in front of a walk is a walk. */
  lemma ReachesStep(adj: map<string, seq<string>>, u: string, v: string, x: string)
    requires HasEdge(adj, u, v) && Reaches(adj, v, x)
    ensures Reaches(adj, u, x)
  {
    var p :| Walk(adj, p) && p[0] == v && p[|p| - 1] == x;
    var q := [u] + p;
    assert forall k :: 0 < k < |q| ==> q[k] == p[k - 1];
    assert Walk(adj, q);
  }

  /** Every node finished since `before` was white then. */
  ghost predicate FinishedFromWhites(before: seq<string>, after: seq<string>, whites: set<string>)
  {
    forall x :: x in after && x !in before ==> x in whites
  }

  /**
   * The parent links stay as they were, except those of nodes that were white
   * in `whites` and are no longer white in `whitesAfter`.
   */
  ghost predicate ParentsKept(before: map<string, Option<string>>, after: map<string, Option<string>>,
                              whites: set<string>, whitesAfter: set<string>)
  {
    forall x :: x in before && (x !in whites || x in whitesAfter) ==> x in after && after[x] == before[x]
  }

  /** Every node that stopped being white can be reached from `u`. */
  ghost predicate LostReachable(adj: map<string, seq<string>>, u: string, before: set<string>, after: set<string>)
  {
    forall x :: x in before && x !in after ==> Reaches(adj, u, x)
  }

  /** The search from a white successor `v` of `u`, after `parent[v] = u`, seen from `u`. */
  lemma ChildFrames(adj: map<string, seq<string>>, u: string, v: string,
                    p0: map<string, Option<string>>, p1: map<string, Option<string>>,
                    w0: set<string>, w1: set<string>)
    requires HasEdge(adj, u, v) && v in w0 && v !in w1
    requires ParentsKept(p0[v := Some(u)], p1, w0, w1) && LostReachable(adj, v, w0, w1)
    ensures ParentsKept(p0, p1, w0, w1) && LostReachable(adj, u, w0, w1)
  {
    forall x | x in w0 && x !in w1
      ensures Reaches(adj, u, x)
    {
      ReachesStep(adj, u, v, x);
    }
  }

  /** Two stretches of the search, one after the other, as one. */
  lemma ChainFrames(adj: map<string, seq<string>>, u: string,
                    f0: seq<string>, f1: seq<string>, f2: seq<string>,
                    p0: map<string, Option<string>>, p1: map<string, Option<string>>, p2: map<string, Option<string>>,
                    w0: set<string>, w1: set<string>, w2: set<string>)
    requires w2 <= w1 <= w0
    requires FinishedFromWhites(f0, f1, w0) && FinishedFromWhites(f1, f2, w1)
    requires ParentsKept(p0, p1, w0, w1) && ParentsKept(p1, p2, w1, w2)
    requires LostReachable(adj, u, w0, w1) && LostReachable(adj, u, w1, w2)
    ensures FinishedFromWhites(f0, f2, w0)
    ensures ParentsKept(p0, p2, w0, w2)
    ensures LostReachable(adj, u, w0, w2)
  {
  }

  /** `dfs(u)` as a whole: `u` turned grey, its successors searched, `u` turned black. */
  lemma ChainVisit(adj: map<string, seq<string>>, u: string,
                   f0: seq<string>, f1: seq<string>,
                   p0: map<string, Option<string>>, p1: map<string, Option<string>>,
                   w0: set<string>, w2: set<string>)
    requires u in w0
    requires FinishedFromWhites(f0, f1, w0 - {u})
    requires ParentsKept(p0, p1, w0 - {u}, w2)
    requires LostReachable(adj, u, w0 - {u}, w2)
    ensures FinishedFromWhites(f0, [u] + f1, w0)
    ensures ParentsKept(p0, p1, w0, w2 - {u})
    ensures LostReachable(adj, u, w0, w2 - {u})
  {
    ReachesSelf(adj, u);
  }

  /**
   * The state shared by `dfs` and its caller: the colour and parent maps and
   * the `nonlocal cycle`. The ghost fields record the grey nodes in the order
   * they were entered and the black nodes, the most recently finished first.
   */
  class Search {
    const adj: map<string, seq<string>>
    const nodeIds: set<string>
    var color: map<string, Color>
    var parent: map<string, Option<string>>
    var cycle: seq<string>
    ghost var stack: seq<string>
    ghost var finished: seq<string>

    /** The nodes the search can ever enter. */
    ghost function Universe(): set<string>
    {
      nodeIds + Targets(adj)
    }

    ghost function Whites(): set<string>
      reads this
    {
      WhitesOf(Universe(), color)
    }

    ghost predicate Valid()
      reads this
    {
      && Coloured(nodeIds, color, stack, finished)
      && TreePath(adj, parent, stack)
      && FinishedClosed(adj, finished)
      && cycle == []
    }

    /** `color = {n: WHITE for n in node_ids}`, `parent = {}`, `cycle = []`. */
    constructor (nodeIds: set<string>, adj: map<string, seq<string>>)
      ensures this.nodeIds == nodeIds && this.adj == adj
      ensures color == map n | n in nodeIds :: White
      ensures parent == map[] && cycle == []
      ensures stack == [] && finished == []
      ensures Valid()
    {
      this.nodeIds := nodeIds;
      this.adj := adj;
      color := map n | n in nodeIds :: White;
      parent := map[];
      cycle := [];
      stack := [];
      finished := [];
    }

    /**
     * Following the parent links from the top of the path `u` back to the grey
     * node `v` of the edge `u -> v`: the cycle is the path from `v` on, closed by `v`.
     */
    method CyclePath(u: string, v: string) returns (path: seq<string>)
      requires TreePath(adj, parent, stack) && NoDup(stack)
      requires stack != [] && u == stack[|stack| - 1]
      requires v in stack && HasEdge(adj, u, v)
      ensures path == stack[FirstIndex(stack, v)..] + [v]
      ensures IsCycle(adj, path)
    {
      ghost var m := FirstIndex(stack, v);
      ghost var j := |stack| - 1;
      path := [v];
      var cur := Some(u);
      while cur != Some(v) && cur.Some? && cur.value in parent
        invariant m <= j < |stack|
        invariant cur == Some(stack[j])
        invariant path == [v] + Reversed(stack[j + 1..])
        decreases j
      {
        assert 0 < j by {
          assert stack[j] != stack[m];
        }
        WalkStep(stack, j, v, path);
        path := path + [cur.value];
        cur := parent[cur.value];
        j := j - 1;
      }
      assert j == m by {
        if j > 0 {
          assert TreeLink(adj, parent, stack[j - 1], stack[j]);
        }
        assert stack[j] == v;
      }
      path := path + [v];
      CycleClosed(adj, parent, stack, m, path);
      path := Reversed(path);
    }

    /**
     * The nested `dfs(u)`. It returns true as soon as an edge into a grey node
     * has closed a cycle, which is then in `cycle`; otherwise `u` and every
     * node reached from it are black.
     */
    method Visit(u: string) returns (found: bool)
      requires Valid()
      requires u in Universe() && IsWhite(color, u)
      requires stack != [] ==>
        u in parent && parent[u] == Some(stack[|stack| - 1]) && HasEdge(adj, stack[|stack| - 1], u)
      modifies this
      decreases |Whites()|, 0
      ensures found ==> IsCycle(adj, cycle)
      ensures !found ==> Valid() && stack == old(stack)
      ensures !found ==> u in finished && forall x :: x in old(finished) ==> x in finished
      ensures !found ==> Whites() <= old(Whites())
      ensures !found ==> FinishedFromWhites(old(finished), finished, old(Whites()))
      ensures !found ==> LostReachable(adj, u, old(Whites()), Whites())
      ensures !found ==> ParentsKept(old(parent), parent, old(Whites()), Whites())
    {
      EnterColoured(nodeIds, color, stack, finished, u);
      EnterPath(adj, parent, stack, u);
      WhitesRecolour(Universe(), color, u, Gray);
      color := color[u := Gray];
      stack := stack + [u];
      found := VisitSuccessors(u);
      if found {
        return;
      }
      ChainVisit(adj, u, old(finished), finished, old(parent), parent, old(Whites()), Whites());
      Leave(u);
    }

    /** `color[u] = BLACK`: `u`, whose successors are all finished, leaves the path and is finished. */
    method Leave(u: string)
      requires Coloured(nodeIds, color, stack, finished) && TreePath(adj, parent, stack)
      requires FinishedClosed(adj, finished) && cycle == []
      requires stack != [] && stack[|stack| - 1] == u
      requires forall v :: HasEdge(adj, u, v) ==> v in finished
      modifies this
      ensures Valid()
      ensures stack == old(stack[..|stack| - 1]) && finished == [u] + old(finished)
      ensures color == old(color)[u := Black] && parent == old(parent) && cycle == old(cycle)
      ensures Whites() == old(Whites()) - {u}
    {
      ghost var path := stack[..|stack| - 1];
      assert stack == path + [u];
      LeaveColoured(nodeIds, color, path, finished, u);
      assert u !in finished;
      LeaveClosed(adj, finished, u);
      PopPath(adj, parent, path, u);
      WhitesRecolour(Universe(), color, u, Black);
      color := color[u := Black];
      stack := path;
      finished := [u] + finished;
    }

    /** `parent[v] = u` and `dfs(v)` for a white successor `v` of the node `u` on top of the path. */
    method VisitChild(u: string, v: string) returns (found: bool)
      requires Valid()
      requires stack != [] && stack[|stack| - 1] == u
      requires HasEdge(adj, u, v) && IsWhite(color, v)
      modifies this
      decreases |Whites()|, 1
      ensures found ==> IsCycle(adj, cycle)
      ensures !found ==> Valid() && stack == old(stack)
      ensures !found ==> v in finished && forall x :: x in old(finished) ==> x in finished
      ensures !found ==> Whites() <= old(Whites())
      ensures !found ==> FinishedFromWhites(old(finished), finished, old(Whites()))
      ensures !found ==> LostReachable(adj, u, old(Whites()), Whites())
      ensures !found ==> ParentsKept(old(parent), parent, old(Whites()), Whites())
    {
      SuccInTargets(adj, u, v);
      SetParentPath(adj, parent, stack, v, Some(u));
      parent := parent[v := Some(u)];
      found := Visit(v);
      if !found {
        ChildFrames(adj, u, v, old(parent), parent, old(Whites()), Whites());
      }
    }

    /** The `for v in adj.get(u, [])` loop of `dfs(u)`, entered with `u` grey on top of the path. */
    method VisitSuccessors(u: string) returns (found: bool)
      requires Valid()
      requires stack != [] && stack[|stack| - 1] == u
      modifies this
      decreases |Whites()|, 2
      ensures found ==> IsCycle(adj, cycle)
      ensures !found ==> Valid() && stack == old(stack)
      ensures !found ==> forall x :: x in old(finished) ==> x in finished
      ensures !found ==> forall v :: HasEdge(adj, u, v) ==> v in finished
      ensures !found ==> Whites() <= old(Whites())
      ensures !found ==> FinishedFromWhites(old(finished), finished, old(Whites()))
      ensures !found ==> LostReachable(adj, u, old(Whites()), Whites())
      ensures !found ==> ParentsKept(old(parent), parent, old(Whites()), Whites())
    {
      var succ := Succ(adj, u);
      found := false;
      for i := 0 to |succ|
        invariant Valid()
        invariant stack == old(stack)
        invariant forall x :: x in old(finished) ==> x in finished
        invariant Whites() <= old(Whites())
        invariant forall k :: 0 <= k < i ==> succ[k] in finished
        invariant FinishedFromWhites(old(finished), finished, old(Whites()))
        invariant LostReachable(adj, u, old(Whites()), Whites())
        invariant ParentsKept(old(parent), parent, old(Whites()), Whites())
      {
        var v := succ[i];
        if IsWhite(color, v) {
          ghost var f1, p1, w1 := finished, parent, Whites();
          SubsetCard(Whites(), old(Whites()));
          found := VisitChild(u, v);
          if found {
            return;
          }
          ChainFrames(adj, u, old(finished), f1, finished, old(parent), p1, parent, old(Whites()), w1, Whites());
        } else if color[v] == Gray {
          cycle := CyclePath(u, v);
          found := true;
          return;
        }
      }
      forall v | HasEdge(adj, u, v)
        ensures v in finished
      {
        var k :| 0 <= k < |succ| && succ[k] == v;
      }
    }
  }

  /**
   * One cycle of the graph as a closed path, or `[]`. An empty answer means
   * there is no cycle whenever every node with an adjacency list is one of
   * `nodeIds`, as `build_graph` guarantees.
   */
  method FindCycleDfs(nodeIds: set<string>, adj: map<string, seq<string>>) returns (cycle: seq<string>)
    ensures cycle != [] ==> IsCycle(adj, cycle)
    ensures cycle == [] && adj.Keys <= nodeIds ==> Acyclic(adj)
  {
    var search := new Search(nodeIds, adj);
    var todo := nodeIds;
    while todo != {}
      invariant search.Valid() && search.stack == []
      invariant search.nodeIds == nodeIds && search.adj == adj
      invariant todo <= nodeIds
      invariant forall n :: n in nodeIds && n !in todo ==> n in search.finished
      decreases todo
    {
      var n :| n in todo;
      if search.color[n] == White {
        assert n in search.Universe();
        search.parent := search.parent[n := None];
        var found := search.Visit(n);
        if found {
          return search.cycle;
        }
      }
      assert n in search.finished by {
        assert n in search.color && search.color[n] != White;
      }
      todo := todo - {n};
    }
    if adj.Keys <= nodeIds {
      forall u, v | HasEdge(adj, u, v)
        ensures u in search.finished
      {
      }
      ForwardOrderAcyclic(adj, search.finished);
    }
    cycle := search.cycle;
  }
}
