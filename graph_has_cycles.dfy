/**
 * The cycle detector of src/graphHasCycles.ts: a depth-first search over `dependsOn`
 * with an explicit stack, started from every key not yet visited. A visit map records
 * each node as absent (unvisited), `true` (in progress) or `false` (done).
 *
 * The JavaScript `visitMap` is one Map mutated by every search; here each search takes
 * the map as it stands and returns it updated.
 */
module GraphHasCycles {
  import opened Graph

  /** An entry of the search stack; `traversing` is set once the node's dependencies are pushed. */
  datatype StackElement = StackElement(node: string, traversing: bool)

  type VisitMap = map<string, bool>

  ghost predicate InProgress(visitMap: VisitMap, n: string) {
    n in visitMap && visitMap[n]
  }

  ghost predicate IsDone(visitMap: VisitMap, n: string) {
    n in visitMap && !visitMap[n]
  }

  /** Done nodes are keys, and every dependency of a done node is done. */
  ghost predicate DoneClosed(g: DependencyGraph, visitMap: VisitMap) {
    forall n :: IsDone(visitMap, n) ==> n in g && forall m :: m in g[n].dependsOn ==> IsDone(visitMap, m)
  }

  /** No done node lies on a cycle. */
  ghost predicate DoneAcyclic(g: DependencyGraph, visitMap: VisitMap) {
    forall n :: IsDone(visitMap, n) ==> !Reaches(g, n, n)
  }

  /** The state between two searches: nothing in progress, and the done part is a closed acyclic subgraph. */
  ghost predicate Explored(g: DependencyGraph, visitMap: VisitMap) {
    && visitMap.Keys <= g.Keys
    && (forall n :: n in visitMap ==> !visitMap[n])
    && DoneClosed(g, visitMap)
    && DoneAcyclic(g, visitMap)
  }

  ghost predicate OnStackAbove(stack: seq<StackElement>, t: nat, m: string) {
    exists i :: t < i < |stack| && stack[i].node == m
  }

  /** The nodes in progress are exactly the nodes of traversing entries, each on one entry. */
  ghost predicate TraversingIsInProgress(g: DependencyGraph, visitMap: VisitMap, stack: seq<StackElement>) {
    && (forall i :: 0 <= i < |stack| && stack[i].traversing ==> stack[i].node in g && InProgress(visitMap, stack[i].node))
    && (forall n :: InProgress(visitMap, n) ==> exists i :: 0 <= i < |stack| && stack[i].traversing && stack[i].node == n)
    && (forall i, j :: 0 <= i < j < |stack| && stack[i].traversing && stack[j].traversing ==> stack[i].node != stack[j].node)
  }

  /**
   * `parent[i]` is the traversing entry whose expansion pushed entry `i`: the nearest
   * traversing entry below `i`, and its node depends on entry `i`'s node.
   */
  ghost predicate ParentLinks(g: DependencyGraph, stack: seq<StackElement>, parent: seq<nat>) {
    && |parent| == |stack|
    && (forall i {:trigger parent[i]} :: 0 < i < |stack| ==>
          parent[i] < i && stack[parent[i]].traversing && Edge(g, stack[parent[i]].node, stack[i].node))
    && (forall i, k :: 0 < i < |stack| && parent[i] < k < i ==> !stack[k].traversing)
  }

  /** Each dependency of a traversing entry is done or still waits higher on the stack. */
  ghost predicate DependenciesPending(g: DependencyGraph, visitMap: VisitMap, stack: seq<StackElement>) {
    forall t, m :: 0 <= t < |stack| && stack[t].traversing && stack[t].node in g && m in g[stack[t].node].dependsOn ==>
      IsDone(visitMap, m) || OnStackAbove(stack, t, m)
  }

  /** The loop invariant of one search from `root`, which started on `initial`. */
  ghost predicate SearchInvariant(g: DependencyGraph, root: string, initial: VisitMap, visitMap: VisitMap,
                                  stack: seq<StackElement>, parent: seq<nat>) {
    && root in g
    && visitMap.Keys <= g.Keys
    && (|stack| > 0 ==> stack[0].node == root)
    && (|stack| == 0 ==> IsDone(visitMap, root))
    && TraversingIsInProgress(g, visitMap, stack)
    && ParentLinks(g, stack, parent)
    && DependenciesPending(g, visitMap, stack)
    && DoneClosed(g, visitMap)
    && DoneAcyclic(g, visitMap)
    && (forall n :: IsDone(initial, n) ==> IsDone(visitMap, n))
  }

  /** Entries for freshly discovered dependencies, not yet traversing. */
  function Untraversed(deps: seq<string>): seq<StackElement> {
    seq(|deps|, k requires 0 <= k < |deps| => StackElement(deps[k], false))
  }

  /** One entry per dependency, in order, none of them traversing yet. */
  lemma UntraversedEntries(deps: seq<string>)
    ensures |Untraversed(deps)| == |deps|
    ensures forall k :: 0 <= k < |deps| ==> Untraversed(deps)[k].node == deps[k] && !Untraversed(deps)[k].traversing
  {
  }

  /** Parent indices for freshly pushed entries: all of them are children of entry `top`. */
  function Children(count: nat, top: nat): seq<nat> {
    seq(count, k => top)
  }

  lemma SearchStarts(g: DependencyGraph, root: string, visitMap: VisitMap)
    requires root in g && root !in visitMap && Explored(g, visitMap)
    ensures SearchInvariant(g, root, visitMap, visitMap, [StackElement(root, false)], [0])
  {
  }

  /** Each entry is reached from every traversing entry below it, following parent links. */
  lemma {:induction false} ChainReaches(g: DependencyGraph, stack: seq<StackElement>, parent: seq<nat>, j: nat, i: nat)
    requires ParentLinks(g, stack, parent)
    requires j < i < |stack| && stack[j].traversing
    ensures Reaches(g, stack[j].node, stack[i].node)
    decreases i
  {
    var p := parent[i];
    if p == j {
      EdgeReaches(g, stack[p].node, stack[i].node);
    } else {
      assert j < p;
      ChainReaches(g, stack, parent, j, p);
      ReachesThenEdge(g, stack[j].node, stack[p].node, stack[i].node);
    }
  }

  /** Walks out of a done node stay among done nodes. */
  lemma {:induction false} DoneReachesDone(g: DependencyGraph, visitMap: VisitMap, p: seq<string>)
    requires DoneClosed(g, visitMap) && IsWalk(g, p) && IsDone(visitMap, p[0])
    ensures IsDone(visitMap, p[|p| - 1])
    decreases |p|
  {
    if |p| > 1 {
      WalkTail(g, p);
      DoneReachesDone(g, visitMap, p[1..]);
    }
  }

  /** A node all of whose dependencies are done lies on no cycle. */
  lemma DependenciesDoneMeansAcyclic(g: DependencyGraph, visitMap: VisitMap, n: string)
    requires DoneClosed(g, visitMap) && InProgress(visitMap, n) && n in g
    requires forall m :: m in g[n].dependsOn ==> IsDone(visitMap, m)
    ensures !Reaches(g, n, n)
  {
    if Reaches(g, n, n) {
      var p :| IsWalk(g, p) && |p| >= 2 && p[0] == n && p[|p| - 1] == n;
      WalkTail(g, p);
      DoneReachesDone(g, visitMap, p[1..]);
      assert false;
    }
  }

  lemma PopParents(g: DependencyGraph, stack: seq<StackElement>, parent: seq<nat>)
    requires ParentLinks(g, stack, parent) && |stack| > 0
    ensures ParentLinks(g, stack[..|stack| - 1], parent[..|stack| - 1])
  {
    var top := |stack| - 1;
    var s', p' := stack[..top], parent[..top];
    forall i | 0 < i < |s'|
      ensures p'[i] < i && s'[p'[i]].traversing && Edge(g, s'[p'[i]].node, s'[i].node)
    {
      assert p'[i] == parent[i] && s'[i] == stack[i] && s'[parent[i]] == stack[parent[i]];
    }
    forall i, k | 0 < i < |s'| && p'[i] < k < i
      ensures !s'[k].traversing
    {
      assert p'[i] == parent[i] && s'[k] == stack[k];
    }
  }

  lemma PopUntraversed(g: DependencyGraph, visitMap: VisitMap, stack: seq<StackElement>)
    requires TraversingIsInProgress(g, visitMap, stack)
    requires |stack| > 0 && !stack[|stack| - 1].traversing
    ensures TraversingIsInProgress(g, visitMap, stack[..|stack| - 1])
  {
    var top := |stack| - 1;
    var s' := stack[..top];
    forall n | InProgress(visitMap, n)
      ensures exists i :: 0 <= i < |s'| && s'[i].traversing && s'[i].node == n
    {
      var i :| 0 <= i < |stack| && stack[i].traversing && stack[i].node == n;
      assert i < top && s'[i] == stack[i];
    }
  }

  /** Popping an entry whose node is already done (src/graphHasCycles.ts:61-66). */
  lemma PopDone(g: DependencyGraph, root: string, initial: VisitMap, visitMap: VisitMap,
                stack: seq<StackElement>, parent: seq<nat>)
    requires SearchInvariant(g, root, initial, visitMap, stack, parent)
    requires |stack| > 0 && !stack[|stack| - 1].traversing && IsDone(visitMap, stack[|stack| - 1].node)
    ensures SearchInvariant(g, root, initial, visitMap, stack[..|stack| - 1], parent[..|stack| - 1])
  {
    PopParents(g, stack, parent);
    PopUntraversed(g, visitMap, stack);
    FinishPending(g, visitMap, stack);
    assert visitMap[stack[|stack| - 1].node := false] == visitMap;
  }

  /** The stack after its top entry is marked traversing and its dependencies are pushed. */
  function Expanded(stack: seq<StackElement>, deps: seq<string>): seq<StackElement>
    requires |stack| > 0
  {
    stack[|stack| - 1 := StackElement(stack[|stack| - 1].node, true)] + Untraversed(deps)
  }

  lemma ExpandedEntries(stack: seq<StackElement>, deps: seq<string>)
    requires |stack| > 0
    ensures |Expanded(stack, deps)| == |stack| + |deps|
    ensures forall i :: 0 <= i < |stack| - 1 ==> Expanded(stack, deps)[i] == stack[i]
    ensures Expanded(stack, deps)[|stack| - 1] == StackElement(stack[|stack| - 1].node, true)
    ensures forall k :: 0 <= k < |deps| ==> Expanded(stack, deps)[|stack| + k] == StackElement(deps[k], false)
  {
  }

  lemma ExpandTraversing(g: DependencyGraph, visitMap: VisitMap, stack: seq<StackElement>, deps: seq<string>)
    requires TraversingIsInProgress(g, visitMap, stack)
    requires |stack| > 0 && stack[|stack| - 1].node !in visitMap && stack[|stack| - 1].node in g
    ensures TraversingIsInProgress(g, visitMap[stack[|stack| - 1].node := true], Expanded(stack, deps))
  {
    var top := |stack| - 1;
    var n := stack[top].node;
    var vm' := visitMap[n := true];
    var s' := Expanded(stack, deps);
    ExpandedEntries(stack, deps);
    forall x | InProgress(vm', x)
      ensures exists i :: 0 <= i < |s'| && s'[i].traversing && s'[i].node == x
    {
      if x == n {
        assert s'[top].traversing && s'[top].node == x;
      } else {
        assert InProgress(visitMap, x);
        var i :| 0 <= i < |stack| && stack[i].traversing && stack[i].node == x;
        assert i < top && s'[i] == stack[i];
      }
    }
    forall i | 0 <= i < |s'| && s'[i].traversing
      ensures s'[i].node in g && InProgress(vm', s'[i].node)
    {
      if i < top {
        assert s'[i] == stack[i];
      }
    }
    forall i, j | 0 <= i < j < |s'| && s'[i].traversing && s'[j].traversing
      ensures s'[i].node != s'[j].node
    {
      assert j <= top;
      assert i < top && s'[i] == stack[i];
      if j < top {
        assert s'[j] == stack[j];
      }
    }
  }

  lemma ExpandParents(g: DependencyGraph, stack: seq<StackElement>, parent: seq<nat>, deps: seq<string>)
    requires ParentLinks(g, stack, parent)
    requires |stack| > 0 && stack[|stack| - 1].node in g
    requires forall x :: x in g[stack[|stack| - 1].node].dependsOn <==> x in deps
    ensures ParentLinks(g, Expanded(stack, deps), parent + Children(|deps|, |stack| - 1))
  {
    var top := |stack| - 1;
    var s' := Expanded(stack, deps);
    var p' := parent + Children(|deps|, top);
    ExpandedEntries(stack, deps);
    forall i | 0 < i < |s'|
      ensures p'[i] < i && s'[p'[i]].traversing && Edge(g, s'[p'[i]].node, s'[i].node)
    {
      if i > top {
        assert p'[i] == top;
        assert s'[i].node == deps[i - top - 1] && deps[i - top - 1] in deps;
      } else {
        assert p'[i] == parent[i] && s'[i].node == stack[i].node;
        assert p'[i] < top ==> s'[p'[i]] == stack[parent[i]];
      }
    }
    forall i, k | 0 < i < |s'| && p'[i] < k < i
      ensures !s'[k].traversing
    {
      if i <= top {
        assert p'[i] == parent[i] && s'[k] == stack[k];
      }
    }
  }

  lemma ExpandPending(g: DependencyGraph, visitMap: VisitMap, stack: seq<StackElement>, deps: seq<string>)
    requires DependenciesPending(g, visitMap, stack)
    requires |stack| > 0 && stack[|stack| - 1].node !in visitMap && stack[|stack| - 1].node in g
    requires forall x :: x in g[stack[|stack| - 1].node].dependsOn <==> x in deps
    ensures DependenciesPending(g, visitMap[stack[|stack| - 1].node := true], Expanded(stack, deps))
  {
    var top := |stack| - 1;
    var n := stack[top].node;
    var vm' := visitMap[n := true];
    var s' := Expanded(stack, deps);
    ExpandedEntries(stack, deps);
    forall t, m | 0 <= t < |s'| && s'[t].traversing && s'[t].node in g && m in g[s'[t].node].dependsOn
      ensures IsDone(vm', m) || OnStackAbove(s', t, m)
    {
      if t == top {
        assert m in deps;
        var k :| 0 <= k < |deps| && deps[k] == m;
        assert s'[top + 1 + k].node == m;
      } else {
        assert s'[t] == stack[t];
        if !IsDone(visitMap, m) {
          var i :| t < i < |stack| && stack[i].node == m;
          assert i < top ==> s'[i] == stack[i];
          assert s'[i].node == m;
        } else {
          assert m != n;
        }
      }
    }
  }

  /** Marking a new node in progress and pushing its dependencies (src/graphHasCycles.ts:73-87). */
  lemma Expand(g: DependencyGraph, root: string, initial: VisitMap, visitMap: VisitMap,
               stack: seq<StackElement>, parent: seq<nat>, deps: seq<string>)
    requires SearchInvariant(g, root, initial, visitMap, stack, parent)
    requires |stack| > 0 && !stack[|stack| - 1].traversing
    requires stack[|stack| - 1].node !in visitMap && stack[|stack| - 1].node in g
    requires forall x :: x in g[stack[|stack| - 1].node].dependsOn <==> x in deps
    ensures SearchInvariant(g, root, initial, visitMap[stack[|stack| - 1].node := true],
      Expanded(stack, deps), parent + Children(|deps|, |stack| - 1))
  {
    var n := stack[|stack| - 1].node;
    var vm' := visitMap[n := true];
    ExpandedEntries(stack, deps);
    ExpandTraversing(g, visitMap, stack, deps);
    ExpandParents(g, stack, parent, deps);
    ExpandPending(g, visitMap, stack, deps);
    assert forall x :: IsDone(vm', x) <==> IsDone(visitMap, x);
  }

  /** Every dependency of the traversing entry on top of the stack is done. */
  lemma TopDependenciesDone(g: DependencyGraph, root: string, initial: VisitMap, visitMap: VisitMap,
                            stack: seq<StackElement>, parent: seq<nat>)
    requires SearchInvariant(g, root, initial, visitMap, stack, parent)
    requires |stack| > 0 && stack[|stack| - 1].traversing
    ensures stack[|stack| - 1].node in g && InProgress(visitMap, stack[|stack| - 1].node)
    ensures forall m :: m in g[stack[|stack| - 1].node].dependsOn ==> IsDone(visitMap, m)
  {
    var top := |stack| - 1;
    forall m | m in g[stack[top].node].dependsOn
      ensures IsDone(visitMap, m)
    {
      assert !OnStackAbove(stack, top, m);
    }
  }

  lemma FinishTraversing(g: DependencyGraph, visitMap: VisitMap, stack: seq<StackElement>)
    requires TraversingIsInProgress(g, visitMap, stack)
    requires |stack| > 0 && stack[|stack| - 1].traversing
    ensures TraversingIsInProgress(g, visitMap[stack[|stack| - 1].node := false], stack[..|stack| - 1])
  {
    var top := |stack| - 1;
    var n := stack[top].node;
    var vm' := visitMap[n := false];
    var s' := stack[..top];
    forall x | InProgress(vm', x)
      ensures exists i :: 0 <= i < |s'| && s'[i].traversing && s'[i].node == x
    {
      assert x != n && InProgress(visitMap, x);
      var i :| 0 <= i < |stack| && stack[i].traversing && stack[i].node == x;
      assert i < top && s'[i] == stack[i];
    }
    forall i | 0 <= i < |s'| && s'[i].traversing
      ensures s'[i].node in g && InProgress(vm', s'[i].node)
    {
      assert s'[i] == stack[i] && stack[i].node != n;
    }
  }

  lemma FinishPending(g: DependencyGraph, visitMap: VisitMap, stack: seq<StackElement>)
    requires DependenciesPending(g, visitMap, stack)
    requires |stack| > 0
    ensures DependenciesPending(g, visitMap[stack[|stack| - 1].node := false], stack[..|stack| - 1])
  {
    var top := |stack| - 1;
    var n := stack[top].node;
    var vm' := visitMap[n := false];
    var s' := stack[..top];
    forall t, m | 0 <= t < |s'| && s'[t].traversing && s'[t].node in g && m in g[s'[t].node].dependsOn
      ensures IsDone(vm', m) || OnStackAbove(s', t, m)
    {
      assert stack[t] == s'[t];
      if !IsDone(vm', m) {
        assert !IsDone(visitMap, m) && OnStackAbove(stack, t, m);
        var i :| t < i < |stack| && stack[i].node == m;
        assert i < top && s'[i] == stack[i];
      }
    }
  }

  lemma FinishDone(g: DependencyGraph, visitMap: VisitMap, n: string)
    requires DoneClosed(g, visitMap) && DoneAcyclic(g, visitMap)
    requires n in g && InProgress(visitMap, n)
    requires forall m :: m in g[n].dependsOn ==> IsDone(visitMap, m)
    ensures DoneClosed(g, visitMap[n := false]) && DoneAcyclic(g, visitMap[n := false])
  {
    DependenciesDoneMeansAcyclic(g, visitMap, n);
    assert forall x :: IsDone(visitMap[n := false], x) <==> IsDone(visitMap, x) || x == n;
  }

  /** Popping a traversing entry: all its dependencies are done, so it is done (src/graphHasCycles.ts:92-93). */
  lemma Finish(g: DependencyGraph, root: string, initial: VisitMap, visitMap: VisitMap,
               stack: seq<StackElement>, parent: seq<nat>)
    requires SearchInvariant(g, root, initial, visitMap, stack, parent)
    requires |stack| > 0 && stack[|stack| - 1].traversing
    ensures stack[|stack| - 1].node in visitMap
    ensures SearchInvariant(g, root, initial, visitMap[stack[|stack| - 1].node := false],
      stack[..|stack| - 1], parent[..|stack| - 1])
  {
    var n := stack[|stack| - 1].node;
    TopDependenciesDone(g, root, initial, visitMap, stack, parent);
    PopParents(g, stack, parent);
    FinishTraversing(g, visitMap, stack);
    FinishPending(g, visitMap, stack);
    FinishDone(g, visitMap, n);
    assert forall x :: IsDone(visitMap, x) ==> IsDone(visitMap[n := false], x);
  }

  /** Meeting a node that is still in progress closes a cycle (src/graphHasCycles.ts:54-60). */
  lemma InProgressMeansCycle(g: DependencyGraph, root: string, initial: VisitMap, visitMap: VisitMap,
                             stack: seq<StackElement>, parent: seq<nat>)
    requires SearchInvariant(g, root, initial, visitMap, stack, parent)
    requires |stack| > 0 && !stack[|stack| - 1].traversing && InProgress(visitMap, stack[|stack| - 1].node)
    ensures HasCycle(g)
  {
    var top := |stack| - 1;
    var c := stack[top].node;
    var j :| 0 <= j < |stack| && stack[j].traversing && stack[j].node == c;
    assert j < top;
    ChainReaches(g, stack, parent, j, top);
    assert c in g && Reaches(g, c, c);
  }

  /** A stack entry whose node is no key names a dependency of some key. */
  lemma MissingIsDependency(g: DependencyGraph, root: string, initial: VisitMap, visitMap: VisitMap,
                            stack: seq<StackElement>, parent: seq<nat>)
    requires SearchInvariant(g, root, initial, visitMap, stack, parent)
    requires |stack| > 0 && stack[|stack| - 1].node !in g
    ensures stack[|stack| - 1].node in AllDependsOn(g)
  {
    var top := |stack| - 1;
    assert top > 0;
    assert Edge(g, stack[parent[top]].node, stack[top].node);
  }

  /** An empty stack leaves nothing in progress. */
  lemma SearchEnds(g: DependencyGraph, root: string, initial: VisitMap, visitMap: VisitMap)
    requires SearchInvariant(g, root, initial, visitMap, [], [])
    ensures Explored(g, visitMap) && IsDone(visitMap, root)
    ensures forall n :: IsDone(initial, n) ==> IsDone(visitMap, n)
  {
    forall n | n in visitMap
      ensures !visitMap[n]
    {
      assert !InProgress(visitMap, n);
    }
  }

  /**
   * hasCycleDFS: the search from `nodeId` over the graph, on the visit map left by earlier
   * searches; returns the verdict and the visit map as the search leaves it.
   */
  method HasCycleDFS(graph: DependencyGraph, visitMap: VisitMap, nodeId: string) returns (r: Result<bool>, visited: VisitMap)
    requires nodeId in graph && nodeId !in visitMap && Explored(graph, visitMap)
    ensures r == Ok(true) ==> HasCycle(graph)
    ensures r == Ok(false) ==> Explored(graph, visited) && IsDone(visited, nodeId)
    ensures r == Ok(false) ==> forall n :: IsDone(visitMap, n) ==> IsDone(visited, n)
    ensures r.Err? ==> r.error.NodeNotFound? && r.error.id !in graph && r.error.id in AllDependsOn(graph)
  {
    visited := visitMap;
    var stack := [StackElement(nodeId, false)];
    ghost var parent: seq<nat> := [0];
    SearchStarts(graph, nodeId, visitMap);
    while |stack| > 0
      invariant SearchInvariant(graph, nodeId, visitMap, visited, stack, parent)
      decreases graph.Keys - visited.Keys, |stack|
    {
      var current := stack[|stack| - 1];
      if !current.traversing {
        if current.node in visited {
          if visited[current.node] {
            // an entry for an in-progress node closes a cycle
            InProgressMeansCycle(graph, nodeId, visitMap, visited, stack, parent);
            return Ok(true), visited;
          } else {
            // a done node needs no second expansion
            PopDone(graph, nodeId, visitMap, visited, stack, parent);
            stack := stack[..|stack| - 1];
            parent := parent[..|parent| - 1];
            continue;
          }
        }
        ghost var visited0 := visited;
        ghost var stack0 := stack;
        visited := visited[current.node := true];
        stack := stack[|stack| - 1 := StackElement(current.node, true)];
        if current.node !in graph {
          MissingIsDependency(graph, nodeId, visitMap, visited0, stack0, parent);
          return Err(NodeNotFound(current.node)), visited;
        }
        var deps := SetToSequence(graph[current.node].dependsOn);
        stack := stack + Untraversed(deps);
        assert stack == Expanded(stack0, deps);
        Expand(graph, nodeId, visitMap, visited0, stack0, parent, deps);
        parent := parent + Children(|deps|, |stack0| - 1);
        assert graph.Keys - visited.Keys == (graph.Keys - visited0.Keys) - {current.node};
      } else {
        // every dependency of the traversing top entry is done, so its node is done too
        Finish(graph, nodeId, visitMap, visited, stack, parent);
        ghost var visited0 := visited;
        visited := visited[current.node := false];
        assert visited.Keys == visited0.Keys;
        stack := stack[..|stack| - 1];
        parent := parent[..|parent| - 1];
      }
    }
    SearchEnds(graph, nodeId, visitMap, visited);
    return Ok(false), visited;
  }

  /**
   * graphHasCycles: searches from every key not yet visited. For a graph whose
   * dependencies are all keys the verdict is exactly whether some node reaches itself.
   */
  method GraphHasCycles(graph: DependencyGraph) returns (r: Result<bool>)
    ensures r.Ok? ==> (r.value <==> HasCycle(graph))
    ensures r == Ok(false) ==> DependsOnClosed(graph)
    ensures r.Err? ==> r.error.NodeNotFound? && r.error.id !in graph && r.error.id in AllDependsOn(graph)
    ensures DependsOnClosed(graph) ==> r.Ok?
  {
    var visitMap: VisitMap := map[];
    var remaining := graph.Keys;
    while remaining != {}
      invariant remaining <= graph.Keys
      invariant Explored(graph, visitMap)
      invariant forall k :: k in graph && k !in remaining ==> IsDone(visitMap, k)
      decreases remaining
    {
      var nodeId :| nodeId in remaining;
      if nodeId !in visitMap {
        var found, visited := HasCycleDFS(graph, visitMap, nodeId);
        if found.Err? {
          return found;
        }
        if found.value {
          return Ok(true);
        }
        visitMap := visited;
      }
      remaining := remaining - {nodeId};
    }
    assert forall k :: k in graph ==> IsDone(visitMap, k);
    return Ok(false);
  }
}
