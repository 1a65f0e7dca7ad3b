/**
 * The cumulative-priority calculator of src/getNodeCumulativePriorities.ts: a Kahn-style
 * topological sort over copies of the `dependsOn` sets, then a pass over that order from
 * its end that gives each node its own priority plus the largest cumulative priority
 * among the nodes that depend on it.
 */
module CumulativePriorities {
  import opened Graph

  /** getNewDependsOnMap: a fresh copy of every node's `dependsOn` set, keyed like the graph. */
  function NewDependsOnMap(g: DependencyGraph): (copy: map<string, set<string>>)
    ensures copy.Keys == g.Keys
    ensures forall k :: k in copy ==> copy[k] == g[k].dependsOn
  {
    map k | k in g :: g[k].dependsOn
  }

  /** Seeds the sort accepts: distinct keys whose `dependsOn` is empty. */
  ghost predicate ZeroDependencySeeds(g: DependencyGraph, seeds: seq<string>) {
    && Distinct(seeds)
    && forall i :: 0 <= i < |seeds| ==> seeds[i] in g && g[seeds[i]].dependsOn == {}
  }

  /** Every key with an empty `dependsOn` is among the seeds. */
  ghost predicate AllZeroDependencyNodes(g: DependencyGraph, seeds: seq<string>) {
    forall k :: k in g && g[k].dependsOn == {} ==> k in seeds
  }

  /** Every id of `order` is a key, and everything it depends on comes earlier in `order`. */
  ghost predicate TopologicallyOrdered(g: DependencyGraph, order: seq<string>) {
    forall i :: 0 <= i < |order| ==> order[i] in g && g[order[i]].dependsOn <= Elems(order[..i])
  }

  /** `k` is a key all of whose dependencies are in `done`. */
  ghost predicate Ready(g: DependencyGraph, done: set<string>, k: string) {
    k in g && g[k].dependsOn <= done
  }

  /** `first` and `second` have no repeated id, alone or together. */
  ghost predicate Disjoint(first: seq<string>, second: seq<string>) {
    Distinct(first) && Distinct(second) && Elems(first) !! Elems(second)
  }

  /**
   * The copied sets: each key's copy has lost what is done, except that the copies of
   * the keys in `pending` have not yet lost `current`.
   */
  ghost predicate CopyTracks(g: DependencyGraph, dependsOnMap: map<string, set<string>>, done: set<string>,
                             pending: set<string>, current: string) {
    && dependsOnMap.Keys == g.Keys
    && (forall k :: k in g && k !in pending ==> dependsOnMap[k] == g[k].dependsOn - done)
    && (forall k :: k in pending ==> k in g && dependsOnMap[k] == g[k].dependsOn - (done - {current}))
  }

  /** Every worklist entry is ready, and none is still pending. */
  ghost predicate WorklistReady(g: DependencyGraph, done: set<string>, worklist: seq<string>, pending: set<string>) {
    forall i :: 0 <= i < |worklist| ==> Ready(g, done, worklist[i]) && worklist[i] !in pending
  }

  /** Every ready key with dependencies, other than the pending ones, is sorted or waiting. */
  ghost predicate ReadyQueued(g: DependencyGraph, sorted: seq<string>, worklist: seq<string>, pending: set<string>) {
    forall k :: k !in pending && Ready(g, Elems(sorted), k) && g[k].dependsOn != {} ==> k in sorted || k in worklist
  }

  /**
   * The state of the sort, inside the pass over the children of `current` (the last
   * sorted id) that are still `pending`; between two iterations of the outer loop no
   * child is pending.
   */
  ghost predicate SortState(g: DependencyGraph, seeds: seq<string>, dependsOnMap: map<string, set<string>>,
                            sorted: seq<string>, worklist: seq<string>, pending: set<string>, current: string) {
    && (pending != {} ==> |sorted| > 0 && current == sorted[|sorted| - 1] && current in g && pending <= g[current].dependedOnBy)
    && CopyTracks(g, dependsOnMap, Elems(sorted), pending, current)
    && Disjoint(sorted, worklist)
    && TopologicallyOrdered(g, sorted)
    && WorklistReady(g, Elems(sorted), worklist, pending)
    && Elems(seeds) <= Elems(sorted) + Elems(worklist)
    && ReadyQueued(g, sorted, worklist, pending)
  }

  ghost predicate SortInvariant(g: DependencyGraph, seeds: seq<string>, dependsOnMap: map<string, set<string>>,
                                sorted: seq<string>, worklist: seq<string>) {
    SortState(g, seeds, dependsOnMap, sorted, worklist, {}, "")
  }

  lemma ElemsSnoc(s: seq<string>, x: string)
    ensures Elems(s + [x]) == Elems(s) + {x}
  {
    assert forall y :: y in s + [x] <==> y in s || y == x;
  }

  lemma DistinctSplit(s: seq<string>, t: seq<string>)
    requires Distinct(s + t)
    ensures Distinct(s) && Distinct(t) && Elems(s) !! Elems(t)
  {
    forall i | 0 <= i < |s| ensures (s + t)[i] == s[i] { }
    forall j | 0 <= j < |t| ensures (s + t)[|s| + j] == t[j] { }
    forall i, j | 0 <= i < |s| && 0 <= j < |t|
      ensures s[i] != t[j]
    {
      assert (s + t)[i] == s[i] && (s + t)[|s| + j] == t[j];
    }
  }

  lemma DistinctJoin(s: seq<string>, t: seq<string>)
    requires Distinct(s) && Distinct(t) && Elems(s) !! Elems(t)
    ensures Distinct(s + t)
  {
    var u := s + t;
    forall i, j | 0 <= i < j < |u|
      ensures u[i] != u[j]
    {
      if j < |s| {
        assert u[i] == s[i] && u[j] == s[j];
      } else if i >= |s| {
        assert u[i] == t[i - |s|] && u[j] == t[j - |s|];
      } else {
        assert u[i] == s[i] && u[j] == t[j - |s|];
        assert u[i] in Elems(s) && u[j] in Elems(t);
      }
    }
  }

  /** The ids already sorted are ready with respect to the sorted ids. */
  lemma SortedAreReady(g: DependencyGraph, sorted: seq<string>, k: string)
    requires TopologicallyOrdered(g, sorted) && k in sorted
    ensures Ready(g, Elems(sorted), k)
  {
    var i :| 0 <= i < |sorted| && sorted[i] == k;
    assert Elems(sorted[..i]) <= Elems(sorted);
  }

  lemma OrderedSnoc(g: DependencyGraph, sorted: seq<string>, x: string)
    requires TopologicallyOrdered(g, sorted) && Ready(g, Elems(sorted), x)
    ensures TopologicallyOrdered(g, sorted + [x])
  {
    var s' := sorted + [x];
    forall i | 0 <= i < |s'|
      ensures s'[i] in g && g[s'[i]].dependsOn <= Elems(s'[..i])
    {
      if i < |sorted| {
        assert s'[..i] == sorted[..i];
      } else {
        assert s'[..i] == sorted;
      }
    }
  }

  lemma DisjointPop(sorted: seq<string>, worklist: seq<string>)
    requires Disjoint(sorted, worklist) && |worklist| > 0
    ensures worklist[|worklist| - 1] !in Elems(sorted)
    ensures Disjoint(sorted + [worklist[|worklist| - 1]], worklist[..|worklist| - 1])
    ensures Elems(sorted + [worklist[|worklist| - 1]]) + Elems(worklist[..|worklist| - 1]) == Elems(sorted) + Elems(worklist)
  {
    var top := |worklist| - 1;
    var current := worklist[top];
    assert worklist == worklist[..top] + [current];
    DistinctSplit(worklist[..top], [current]);
    assert Distinct([current]);
    assert current in Elems(worklist);
    DistinctJoin(sorted, [current]);
    ElemsSnoc(sorted, current);
    ElemsSnoc(worklist[..top], current);
  }

  lemma DisjointPush(sorted: seq<string>, worklist: seq<string>, x: string)
    requires Disjoint(sorted, worklist) && x !in Elems(sorted) && x !in Elems(worklist)
    ensures Disjoint(sorted, worklist + [x])
    ensures Elems(worklist + [x]) == Elems(worklist) + {x}
  {
    assert Distinct([x]);
    DistinctJoin(worklist, [x]);
    ElemsSnoc(worklist, x);
  }

  /** The copies after `current` is emitted: only its children still hold it. */
  lemma StartCopies(g: DependencyGraph, dependsOnMap: map<string, set<string>>, sorted: seq<string>, current: string)
    requires WellFormed(g) && current in g && current !in Elems(sorted)
    requires CopyTracks(g, dependsOnMap, Elems(sorted), {}, "")
    ensures CopyTracks(g, dependsOnMap, Elems(sorted + [current]), g[current].dependedOnBy, current)
  {
    ElemsSnoc(sorted, current);
    var done := Elems(sorted) + {current};
    assert done - {current} == Elems(sorted);
    forall k | k in g && k !in g[current].dependedOnBy
      ensures dependsOnMap[k] == g[k].dependsOn - done
    {
      assert current !in g[k].dependsOn;
    }
  }

  /** The worklist left after the pop is ready, and no child of `current` is on it. */
  lemma StartWorklist(g: DependencyGraph, sorted: seq<string>, worklist: seq<string>)
    requires WellFormed(g) && |worklist| > 0
    requires WorklistReady(g, Elems(sorted), worklist, {})
    requires worklist[|worklist| - 1] !in Elems(sorted)
    ensures WorklistReady(g, Elems(sorted + [worklist[|worklist| - 1]]), worklist[..|worklist| - 1],
      g[worklist[|worklist| - 1]].dependedOnBy)
  {
    var top := |worklist| - 1;
    var current := worklist[top];
    ElemsSnoc(sorted, current);
    forall i | 0 <= i < top
      ensures Ready(g, Elems(sorted + [current]), worklist[..top][i]) && worklist[..top][i] !in g[current].dependedOnBy
    {
      assert Ready(g, Elems(sorted), worklist[i]);
    }
  }

  lemma StartQueued(g: DependencyGraph, sorted: seq<string>, worklist: seq<string>)
    requires WellFormed(g) && |worklist| > 0 && worklist[|worklist| - 1] in g
    requires ReadyQueued(g, sorted, worklist, {})
    ensures ReadyQueued(g, sorted + [worklist[|worklist| - 1]], worklist[..|worklist| - 1],
      g[worklist[|worklist| - 1]].dependedOnBy)
  {
    var top := |worklist| - 1;
    var current := worklist[top];
    var s' := sorted + [current];
    ElemsSnoc(sorted, current);
    assert worklist == worklist[..top] + [current];
    forall k | k !in g[current].dependedOnBy && Ready(g, Elems(s'), k) && g[k].dependsOn != {}
      ensures k in s' || k in worklist[..top]
    {
      assert current !in g[k].dependsOn;
      assert Ready(g, Elems(sorted), k);
    }
  }

  /** Emitting the last worklist entry starts the pass over its children (src/getNodeCumulativePriorities.ts:18-22). */
  lemma StartChildren(g: DependencyGraph, seeds: seq<string>, dependsOnMap: map<string, set<string>>,
                      sorted: seq<string>, worklist: seq<string>)
    requires WellFormed(g)
    requires SortInvariant(g, seeds, dependsOnMap, sorted, worklist) && |worklist| > 0
    ensures worklist[|worklist| - 1] in g && worklist[|worklist| - 1] !in Elems(sorted)
    ensures SortState(g, seeds, dependsOnMap, sorted + [worklist[|worklist| - 1]], worklist[..|worklist| - 1],
      g[worklist[|worklist| - 1]].dependedOnBy, worklist[|worklist| - 1])
  {
    var top := |worklist| - 1;
    var current := worklist[top];
    assert Ready(g, Elems(sorted), current);
    DisjointPop(sorted, worklist);
    StartCopies(g, dependsOnMap, sorted, current);
    OrderedSnoc(g, sorted, current);
    StartWorklist(g, sorted, worklist);
    StartQueued(g, sorted, worklist);
  }

  /** A child that is still pending has not been emitted. */
  lemma PendingNotSorted(g: DependencyGraph, sorted: seq<string>, current: string, child: string)
    requires |sorted| > 0 && current == sorted[|sorted| - 1] && Distinct(sorted)
    requires TopologicallyOrdered(g, sorted) && child in g && current in g[child].dependsOn
    ensures child !in Elems(sorted)
  {
  }

  /** The child's copy loses `current`; it is then empty exactly when the child is ready. */
  lemma HandleCopy(g: DependencyGraph, dependsOnMap: map<string, set<string>>, done: set<string>,
                   pending: set<string>, current: string, child: string)
    requires CopyTracks(g, dependsOnMap, done, pending, current) && child in pending && current in done
    ensures child in dependsOnMap
    ensures var m' := dependsOnMap[child := dependsOnMap[child] - {current}];
      CopyTracks(g, m', done, pending - {child}, current) && (|m'[child]| == 0 <==> Ready(g, done, child))
  {
    var m' := dependsOnMap[child := dependsOnMap[child] - {current}];
    assert m'[child] == g[child].dependsOn - done;
    if Ready(g, done, child) {
      assert m'[child] == {};
    } else {
      var d :| d in g[child].dependsOn && d !in done;
      assert d in m'[child];
    }
  }

  /** A ready child joins the worklist. */
  lemma PushChild(g: DependencyGraph, seeds: seq<string>, sorted: seq<string>, worklist: seq<string>,
                  pending: set<string>, current: string, child: string)
    requires |sorted| > 0 && current == sorted[|sorted| - 1] && child in pending && child in g
    requires current in g[child].dependsOn && Ready(g, Elems(sorted), child)
    requires Disjoint(sorted, worklist) && TopologicallyOrdered(g, sorted)
    requires WorklistReady(g, Elems(sorted), worklist, pending)
    requires Elems(seeds) <= Elems(sorted) + Elems(worklist)
    requires ReadyQueued(g, sorted, worklist, pending)
    ensures Disjoint(sorted, worklist + [child])
    ensures WorklistReady(g, Elems(sorted), worklist + [child], pending - {child})
    ensures Elems(seeds) <= Elems(sorted) + Elems(worklist + [child])
    ensures ReadyQueued(g, sorted, worklist + [child], pending - {child})
  {
    PendingNotSorted(g, sorted, current, child);
    DisjointPush(sorted, worklist, child);
    var w' := worklist + [child];
    forall i | 0 <= i < |w'|
      ensures Ready(g, Elems(sorted), w'[i]) && w'[i] !in pending - {child}
    {
      if i < |worklist| {
        assert w'[i] == worklist[i];
      }
    }
  }

  /** Handling one child (src/getNodeCumulativePriorities.ts:26-32). */
  lemma HandleChild(g: DependencyGraph, seeds: seq<string>, dependsOnMap: map<string, set<string>>,
                    sorted: seq<string>, worklist: seq<string>, pending: set<string>, current: string, child: string)
    requires WellFormed(g)
    requires SortState(g, seeds, dependsOnMap, sorted, worklist, pending, current) && child in pending
    ensures child in dependsOnMap
    ensures var m' := dependsOnMap[child := dependsOnMap[child] - {current}];
      var w' := if |m'[child]| == 0 then worklist + [child] else worklist;
      SortState(g, seeds, m', sorted, w', pending - {child}, current)
  {
    assert current in Elems(sorted) by {
      assert sorted[|sorted| - 1] in sorted;
    }
    HandleCopy(g, dependsOnMap, Elems(sorted), pending, current, child);
    if Ready(g, Elems(sorted), child) {
      PushChild(g, seeds, sorted, worklist, pending, current, child);
    }
  }

  /** When the worklist runs dry, every key not emitted waits for another key not emitted. */
  lemma SortEnds(g: DependencyGraph, seeds: seq<string>, dependsOnMap: map<string, set<string>>, sorted: seq<string>)
    requires WellFormed(g)
    requires SortInvariant(g, seeds, dependsOnMap, sorted, [])
    requires AllZeroDependencyNodes(g, seeds) && !HasCycle(g)
    ensures Elems(sorted) == g.Keys
  {
    var left := g.Keys - Elems(sorted);
    assert Elems(seeds) <= Elems(sorted) by {
      assert Elems([]) == {};
    }
    forall y | y in left
      ensures y in g && g[y].dependsOn * left != {}
    {
      assert !Ready(g, Elems(sorted), y);
      LeftoverWaits(g, Elems(sorted), y);
    }
    if left != {} {
      NoSinkMeansCycle(g, left);
    }
    forall s | s in sorted ensures s in g {
      var i :| 0 <= i < |sorted| && sorted[i] == s;
    }
  }

  /** A key that is not ready waits for some key outside `done`. */
  lemma LeftoverWaits(g: DependencyGraph, done: set<string>, y: string)
    requires WellFormed(g) && y in g && !Ready(g, done, y)
    ensures g[y].dependsOn * (g.Keys - done) != {}
  {
    var z :| z in g[y].dependsOn && z !in done;
    assert z in g;
    assert z in g[y].dependsOn * (g.Keys - done);
  }

  lemma SortStarts(g: DependencyGraph, seeds: seq<string>)
    requires ZeroDependencySeeds(g, seeds)
    ensures SortInvariant(g, seeds, NewDependsOnMap(g), [], seeds)
  {
    assert Elems([]) == {};
  }

  /** After the last child the state is again the one between two iterations of the outer loop. */
  lemma EndChildren(g: DependencyGraph, seeds: seq<string>, dependsOnMap: map<string, set<string>>,
                    sorted: seq<string>, worklist: seq<string>, current: string)
    requires SortState(g, seeds, dependsOnMap, sorted, worklist, {}, current)
    ensures SortInvariant(g, seeds, dependsOnMap, sorted, worklist)
  {
  }

  /** Following a walk leads ever earlier in a topological order. */
  lemma {:induction false} WalkGoesEarlier(g: DependencyGraph, order: seq<string>, p: seq<string>, i: nat)
    returns (j: nat)
    requires TopologicallyOrdered(g, order) && IsWalk(g, p) && |p| >= 2
    requires i < |order| && order[i] == p[0]
    ensures j < i && order[j] == p[|p| - 1]
    decreases |p|
  {
    WalkTail(g, p);
    assert p[1] in Elems(order[..i]);
    var j1 :| 0 <= j1 < i && order[..i][j1] == p[1];
    if |p| == 2 {
      j := j1;
    } else {
      j := WalkGoesEarlier(g, order, p[1..], j1);
    }
  }

  /** No node of a repetition-free topological order lies on a cycle. */
  lemma SortedNodeAcyclic(g: DependencyGraph, order: seq<string>, n: string)
    requires TopologicallyOrdered(g, order) && Distinct(order) && n in order
    ensures !Reaches(g, n, n)
  {
    if Reaches(g, n, n) {
      var p :| IsWalk(g, p) && |p| >= 2 && p[0] == n && p[|p| - 1] == n;
      var i :| 0 <= i < |order| && order[i] == n;
      var j := WalkGoesEarlier(g, order, p, i);
      assert false;
    }
  }

  /** A topological order that lists every key shows the graph acyclic. */
  lemma CompleteOrderMeansAcyclic(g: DependencyGraph, order: seq<string>)
    requires TopologicallyOrdered(g, order) && Distinct(order) && Elems(order) == g.Keys
    ensures !HasCycle(g)
  {
    forall n | n in g
      ensures !Reaches(g, n, n)
    {
      SortedNodeAcyclic(g, order, n);
    }
  }

  /**
   * topologicalSort: emits the seeds and then every node whose copied `dependsOn` set
   * becomes empty, the worklist being used last in, first out.
   */
  method TopologicalSort(g: DependencyGraph, seeds: seq<string>) returns (sortedList: seq<string>)
    requires WellFormed(g)
    requires ZeroDependencySeeds(g, seeds)
    ensures Distinct(sortedList)
    ensures TopologicallyOrdered(g, sortedList)
    ensures Elems(seeds) <= Elems(sortedList)
    ensures AllZeroDependencyNodes(g, seeds) ==> (Elems(sortedList) == g.Keys <==> !HasCycle(g))
    ensures forall n :: n in sortedList ==> !Reaches(g, n, n)
  {
    sortedList := [];
    var dependsOnMap := NewDependsOnMap(g);
    var worklist := seeds;
    SortStarts(g, seeds);
    while |worklist| > 0
      invariant SortInvariant(g, seeds, dependsOnMap, sortedList, worklist)
      decreases g.Keys - Elems(sortedList)
    {
      StartChildren(g, seeds, dependsOnMap, sortedList, worklist);
      ghost var sorted0 := sortedList;
      var currentId := worklist[|worklist| - 1];
      worklist := worklist[..|worklist| - 1];
      sortedList := sortedList + [currentId];
      var node := g[currentId];
      var rest := node.dependedOnBy;
      while rest != {}
        invariant SortState(g, seeds, dependsOnMap, sortedList, worklist, rest, currentId)
        decreases rest
      {
        var childId :| childId in rest;
        HandleChild(g, seeds, dependsOnMap, sortedList, worklist, rest, currentId, childId);
        var childNode := dependsOnMap[childId];
        dependsOnMap := dependsOnMap[childId := childNode - {currentId}];
        if |dependsOnMap[childId]| == 0 {
          worklist := worklist + [childId];
        }
        rest := rest - {childId};
      }
      EndChildren(g, seeds, dependsOnMap, sortedList, worklist, currentId);
      ElemsSnoc(sorted0, currentId);
    }
    if AllZeroDependencyNodes(g, seeds) && !HasCycle(g) {
      SortEnds(g, seeds, dependsOnMap, sortedList);
    }
    if Elems(sortedList) == g.Keys {
      CompleteOrderMeansAcyclic(g, sortedList);
    }
    forall n | n in sortedList
      ensures !Reaches(g, n, n)
    {
      SortedNodeAcyclic(g, sortedList, n);
    }
  }

  /**
   * `cp[n]` is `n`'s own priority plus the larger of 0 and the largest `cp` among the
   * nodes that depend on `n`, all of which have a value.
   */
  ghost predicate IsCumulativePriority(g: DependencyGraph, cp: map<string, int>, n: string) {
    && n in g && n in cp
    && g[n].dependedOnBy <= cp.Keys
    && cp[n] >= OwnPriority(g[n])
    && (forall c :: c in g[n].dependedOnBy ==> cp[n] >= OwnPriority(g[n]) + cp[c])
    && (cp[n] == OwnPriority(g[n]) || exists c :: c in g[n].dependedOnBy && cp[n] == OwnPriority(g[n]) + cp[c])
  }

  /**
   * The recurrence holds at every key of `cp`. The quantifier fires only on the
   * `IsCumulativePriority` term: firing on `n in cp` would chase the waiter that each
   * instance's existential names, without end.
   */
  ghost predicate Recurrence(g: DependencyGraph, cp: map<string, int>) {
    forall n {:trigger IsCumulativePriority(g, cp, n)} :: n in cp ==> IsCumulativePriority(g, cp, n)
  }

  /** `v` is the largest of 0 and the values of `children`, all of which have one. */
  ghost predicate LargestOrZero(children: set<string>, cp: map<string, int>, v: int) {
    && children <= cp.Keys
    && v >= 0
    && (forall c :: c in children ==> v >= cp[c])
    && (v == 0 || exists c :: c in children && v == cp[c])
  }

  /**
   * The `Math.max(...children.map(...), 0)` of src/getNodeCumulativePriorities.ts:57-67:
   * the largest of 0 and the computed values of `children`, or the error for a child
   * without one.
   */
  method MaxChildPriority(children: set<string>, cp: map<string, int>) returns (r: Result<int>)
    ensures r.Ok? <==> children <= cp.Keys
    ensures r.Ok? ==> LargestOrZero(children, cp, r.value)
    ensures r.Err? ==> r.error.PriorityNotComputed? && r.error.id in children && r.error.id !in cp
    ensures children == {} ==> r == Ok(0)
  {
    var best := 0;
    var rest := children;
    while rest != {}
      invariant rest <= children
      invariant forall c :: c in children && c !in rest ==> c in cp && best >= cp[c]
      invariant best >= 0
      invariant best == 0 || exists c :: c in children && c !in rest && best == cp[c]
      decreases rest
    {
      var childId :| childId in rest;
      if childId !in cp {
        return Err(PriorityNotComputed(childId));
      }
      if cp[childId] > best {
        best := cp[childId];
      }
      rest := rest - {childId};
    }
    return Ok(best);
  }

  /** The ids of a topological order are keys. */
  lemma OrderedKeys(g: DependencyGraph, order: seq<string>)
    requires TopologicallyOrdered(g, order)
    ensures Elems(order) <= g.Keys
  {
  }

  /** No node waits for a node at or after its own position in `order`. */
  ghost predicate WaitersLater(g: DependencyGraph, order: seq<string>) {
    forall i, j :: 0 <= j <= i < |order| && order[i] in g ==> order[j] !in g[order[i]].dependedOnBy
  }

  /** In a repetition-free topological order the nodes that wait for a node come after it. */
  lemma OrderedWaitersLater(g: DependencyGraph, order: seq<string>)
    requires WellFormed(g) && TopologicallyOrdered(g, order) && Distinct(order)
    ensures WaitersLater(g, order)
  {
    forall i, j | 0 <= j <= i < |order| && order[i] in g
      ensures order[j] !in g[order[i]].dependedOnBy
    {
    }
  }

  /** Every node that waits for a node of `order` is itself in `order`. */
  ghost predicate WaitersListed(g: DependencyGraph, order: seq<string>) {
    forall i :: 0 <= i < |order| && order[i] in g ==> g[order[i]].dependedOnBy <= Elems(order)
  }

  /**
   * When every waiter of `order[i - 1]` is listed, and after it, the waiters all lie from
   * position `i` on, so they have their values by the time `order[i - 1]` is popped.
   */
  lemma ChildrenFollow(g: DependencyGraph, order: seq<string>, cp: map<string, int>, i: nat)
    requires WaitersLater(g, order) && WaitersListed(g, order) && Elems(order) <= g.Keys
    requires 0 < i <= |order| && cp.Keys == Elems(order[i..])
    ensures g[order[i - 1]].dependedOnBy <= cp.Keys
  {
    assert order[i - 1] in Elems(order);
    forall c | c in g[order[i - 1]].dependedOnBy
      ensures c in Elems(order[i..])
    {
      assert c in Elems(order);
      var j :| 0 <= j < |order| && order[j] == c;
      assert order[i..][j - i] == c;
    }
  }

  /** A complete order of a well-formed graph lists every waiter. */
  lemma CompleteListsWaiters(g: DependencyGraph, order: seq<string>)
    requires WellFormed(g) && Elems(order) == g.Keys
    ensures WaitersListed(g, order)
  {
    forall i | 0 <= i < |order| && order[i] in g
      ensures g[order[i]].dependedOnBy <= Elems(order)
    {
    }
  }

  /** Values satisfying the recurrence over all of `order` show that `order` lists every waiter. */
  lemma ComputedListsWaiters(g: DependencyGraph, order: seq<string>, cp: map<string, int>)
    requires ComputedFrom(g, order, cp, 0)
    ensures WaitersListed(g, order)
  {
    assert order[0..] == order;
    forall i | 0 <= i < |order| && order[i] in g
      ensures g[order[i]].dependedOnBy <= Elems(order)
    {
      assert order[i] in cp;
      assert IsCumulativePriority(g, cp, order[i]);
    }
  }

  /** A waiter of `order[i]` found neither at nor after position `i` is not in `order` at all. */
  lemma MissingWaiterUnlisted(g: DependencyGraph, order: seq<string>, i: nat, id: string)
    requires WaitersLater(g, order)
    requires i < |order| && order[i] in g && id in g[order[i]].dependedOnBy && id !in Elems(order[i + 1..])
    ensures id !in Elems(order)
  {
    forall j | 0 <= j < |order|
      ensures order[j] != id
    {
      if j > i {
        assert order[i + 1..][j - i - 1] == order[j];
      }
    }
  }

  /** Giving a new node `n` its value keeps the recurrence at a node `k` that already had one. */
  lemma AddKeepsRecurrence(g: DependencyGraph, cp: map<string, int>, n: string, v: int, cp': map<string, int>, k: string)
    requires n !in cp && k in cp
    requires IsCumulativePriority(g, cp, k)
    requires cp' == cp[n := v]
    ensures IsCumulativePriority(g, cp', k)
  {
    assert forall c :: c in g[k].dependedOnBy ==> c in cp && cp'[c] == cp[c];
    if cp[k] != OwnPriority(g[k]) {
      var c :| c in g[k].dependedOnBy && cp[k] == OwnPriority(g[k]) + cp[c];
      assert cp'[k] == OwnPriority(g[k]) + cp'[c];
    }
  }

  /** The nodes from position `i` of `order` on have their values, and the recurrence holds at each. */
  ghost predicate ComputedFrom(g: DependencyGraph, order: seq<string>, cp: map<string, int>, i: nat)
    requires i <= |order|
  {
    && cp.Keys == Elems(order[i..])
    && Recurrence(g, cp)
  }

  /** Giving `order[i - 1]` its own priority plus the largest value of its waiters extends the computed suffix by one. */
  lemma ComputeStep(g: DependencyGraph, order: seq<string>, cp: map<string, int>, i: nat, n: string, v: int,
                    cp': map<string, int>)
    requires Distinct(order) && 0 < i <= |order| && order[i - 1] == n && n in g
    requires ComputedFrom(g, order, cp, i)
    requires LargestOrZero(g[n].dependedOnBy, cp, v)
    requires cp' == cp[n := OwnPriority(g[n]) + v]
    ensures ComputedFrom(g, order, cp', i - 1)
  {
    NotInSuffix(order, i);
    SuffixKeys(order, cp, i, OwnPriority(g[n]) + v, cp');
    RecurrenceStep(g, cp, n, v, cp');
  }

  /** Adding `order[i - 1]` to a map keyed by the suffix from `i` keys it by the suffix from `i - 1`. */
  lemma SuffixKeys(order: seq<string>, cp: map<string, int>, i: nat, x: int, cp': map<string, int>)
    requires 0 < i <= |order| && cp.Keys == Elems(order[i..])
    requires cp' == cp[order[i - 1] := x]
    ensures cp'.Keys == Elems(order[i - 1..])
  {
    assert order[i - 1..] == [order[i - 1]] + order[i..];
  }

  /** Giving a new node its own priority plus the largest waiter value keeps the recurrence. */
  lemma RecurrenceStep(g: DependencyGraph, cp: map<string, int>, n: string, v: int, cp': map<string, int>)
    requires n in g && n !in cp
    requires Recurrence(g, cp)
    requires LargestOrZero(g[n].dependedOnBy, cp, v)
    requires cp' == cp[n := OwnPriority(g[n]) + v]
    ensures Recurrence(g, cp')
  {
    forall k | k in cp'
      ensures IsCumulativePriority(g, cp', k)
    {
      if k == n {
        NewNodeRecurrence(g, cp, n, v, cp');
      } else {
        assert IsCumulativePriority(g, cp, k);
        AddKeepsRecurrence(g, cp, n, OwnPriority(g[n]) + v, cp', k);
      }
    }
  }

  /** In a repetition-free sequence an element does not occur after its own position. */
  lemma NotInSuffix(order: seq<string>, i: nat)
    requires Distinct(order) && 0 < i <= |order|
    ensures order[i - 1] !in Elems(order[i..])
  {
    forall j | 0 <= j < |order[i..]|
      ensures order[i..][j] != order[i - 1]
    {
      assert order[i..][j] == order[i + j];
    }
  }

  /** The new node itself satisfies the recurrence once it gets its own priority plus the largest waiter value. */
  lemma NewNodeRecurrence(g: DependencyGraph, cp: map<string, int>, n: string, v: int, cp': map<string, int>)
    requires n in g && n !in cp
    requires LargestOrZero(g[n].dependedOnBy, cp, v)
    requires cp' == cp[n := OwnPriority(g[n]) + v]
    ensures IsCumulativePriority(g, cp', n)
  {
    var own := OwnPriority(g[n]);
    forall c | c in g[n].dependedOnBy
      ensures c in cp' && cp'[c] == cp[c] && cp'[n] >= own + cp'[c]
    {
    }
    if v != 0 {
      var c :| c in g[n].dependedOnBy && v == cp[c];
      assert cp'[n] == own + cp'[c];
    }
  }

  /**
   * The processing loop of getNodeCumulativePriorities: pops `order` from its end and gives
   * each node its own priority plus the largest value among the nodes that wait for it,
   * throwing when one of those has no value yet, which cannot happen when every waiter of
   * a listed node is listed after it.
   */
  method AccumulatePriorities(g: DependencyGraph, order: seq<string>) returns (r: Result<map<string, int>>)
    requires WellFormed(g) && Distinct(order) && Elems(order) <= g.Keys
    ensures r.Ok? ==> ComputedFrom(g, order, r.value, 0) && WaitersListed(g, order)
    ensures r.Err? ==> r.error.PriorityNotComputed? && r.error.id in g
    ensures r.Err? ==> exists i :: 0 <= i < |order| && r.error.id in g[order[i]].dependedOnBy &&
                                   r.error.id !in Elems(order[i + 1..])
    ensures WaitersLater(g, order) && WaitersListed(g, order) ==> r.Ok?
  {
    var nodeCumulativePriorities: map<string, int> := map[];
    // `stack.pop()` on the sorted list: `top` is the length of what is left of it,
    // and the popped node is `order[top - 1]`
    var top := |order|;
    assert order[top..] == [];
    while top > 0
      invariant top <= |order|
      invariant ComputedFrom(g, order, nodeCumulativePriorities, top)
      decreases top
    {
      var currentNodeId := order[top - 1];
      assert currentNodeId in Elems(order);
      var node := g[currentNodeId];
      var currentNodePriority := OwnPriority(node);
      if WaitersLater(g, order) && WaitersListed(g, order) {
        ChildrenFollow(g, order, nodeCumulativePriorities, top);
      }
      var maxChild := MaxChildPriority(node.dependedOnBy, nodeCumulativePriorities);
      if maxChild.Err? {
        assert order[top - 1 + 1..] == order[top..];
        return Err(maxChild.error);
      }
      ghost var computed := nodeCumulativePriorities;
      nodeCumulativePriorities := nodeCumulativePriorities[currentNodeId := currentNodePriority + maxChild.value];
      ComputeStep(g, order, computed, top, currentNodeId, maxChild.value, nodeCumulativePriorities);
      top := top - 1;
    }
    ComputedListsWaiters(g, order, nodeCumulativePriorities);
    return Ok(nodeCumulativePriorities);
  }

  /**
   * getNodeCumulativePriorities: sorts the graph from the seeds, then computes every sorted
   * node's cumulative priority. `order` is the topological order the computation used.
   */
  method GetNodeCumulativePriorities(g: DependencyGraph, seeds: seq<string>)
    returns (r: Result<map<string, int>>, ghost order: seq<string>)
    requires WellFormed(g)
    requires ZeroDependencySeeds(g, seeds)
    ensures Distinct(order) && TopologicallyOrdered(g, order) && Elems(seeds) <= Elems(order)
    ensures r.Ok? <==> WaitersListed(g, order)
    ensures r.Ok? ==> r.value.Keys == Elems(order)
    ensures r.Ok? ==> Recurrence(g, r.value)
    ensures r.Err? ==> r.error.PriorityNotComputed? && r.error.id in g && r.error.id !in Elems(order)
    ensures r.Err? ==> exists i :: 0 <= i < |order| && r.error.id in g[order[i]].dependedOnBy
    ensures AllZeroDependencyNodes(g, seeds) && !HasCycle(g) ==> r.Ok? && r.value.Keys == g.Keys
  {
    var sortedList := TopologicalSort(g, seeds);
    order := sortedList;
    OrderedWaitersLater(g, sortedList);
    OrderedKeys(g, sortedList);
    if AllZeroDependencyNodes(g, seeds) && !HasCycle(g) {
      CompleteListsWaiters(g, sortedList);
    }
    r := AccumulatePriorities(g, sortedList);
    assert sortedList[0..] == sortedList;
    if r.Err? {
      ghost var i :| 0 <= i < |order| && r.error.id in g[order[i]].dependedOnBy && r.error.id !in Elems(order[i + 1..]);
      assert order[i] in Elems(order);
      MissingWaiterUnlisted(g, order, i, r.error.id);
    }
  }

  /** Equal values on the nodes that wait for `n` force equal values at `n`. */
  lemma RecurrenceDetermined(g: DependencyGraph, m1: map<string, int>, m2: map<string, int>, n: string)
    requires IsCumulativePriority(g, m1, n) && IsCumulativePriority(g, m2, n)
    requires forall c :: c in g[n].dependedOnBy ==> m1[c] == m2[c]
    ensures m1[n] == m2[n]
  {
    var own := OwnPriority(g[n]);
    if m1[n] != own {
      var c :| c in g[n].dependedOnBy && m1[n] == own + m1[c];
      assert m2[n] >= own + m2[c];
    }
    if m2[n] != own {
      var c :| c in g[n].dependedOnBy && m2[n] == own + m2[c];
      assert m1[n] >= own + m1[c];
    }
  }

  /**
   * On a well-formed acyclic graph the recurrence has one solution: two maps that satisfy
   * it at every key are equal, so the calculator's result does not depend on the order
   * the sort or the sets produced.
   */
  lemma CumulativePriorityUnique(g: DependencyGraph, m1: map<string, int>, m2: map<string, int>)
    requires WellFormed(g) && !HasCycle(g)
    requires m1.Keys == g.Keys && m2.Keys == g.Keys
    requires Recurrence(g, m1) && Recurrence(g, m2)
    ensures m1 == m2
  {
    var differ := set n | n in g && m1[n] != m2[n];
    forall y | y in differ
      ensures y in g && g[y].dependedOnBy * differ != {}
    {
      DifferingWaiter(g, m1, m2, differ, y);
    }
    if differ != {} {
      NoSourceMeansCycle(g, differ);
    }
    assert forall n :: n in m1 ==> m1[n] == m2[n];
  }

  /** A node where two solutions differ has a waiter where they differ too. */
  lemma DifferingWaiter(g: DependencyGraph, m1: map<string, int>, m2: map<string, int>, differ: set<string>, y: string)
    requires WellFormed(g)
    requires IsCumulativePriority(g, m1, y) && IsCumulativePriority(g, m2, y)
    requires forall n :: n in differ <==> n in g && n in m1 && n in m2 && m1[n] != m2[n]
    requires y in differ
    ensures g[y].dependedOnBy * differ != {}
  {
    if g[y].dependedOnBy * differ == {} {
      forall c | c in g[y].dependedOnBy
        ensures m1[c] == m2[c]
      {
        assert c !in g[y].dependedOnBy * differ;
      }
      RecurrenceDetermined(g, m1, m2, y);
    }
  }
}
