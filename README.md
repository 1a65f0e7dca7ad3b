# p-graph scheduling core, modelled in Dafny

p-graph runs a graph of dependent tasks. Each node of its dependency graph lists the nodes
it depends on (`dependsOn`), the nodes that wait for it (`dependedOnBy`) and an optional
priority. This project models four algorithms at the core of the library, over the same
graph data model (`src/types.ts:45-61`):

- **`graph.dfy`** (module `Graph`):
  - the node and graph datatypes;
  - well-formedness: every id in a dependency set is a key, and the two sets mirror each other;
  - walks, reachability and cycles;
  - two lemmas used by the cumulative-priority proofs: a set in which every member depends on
    some member of the set, or is depended on by some member of the set, contains a cycle.
- **`priority_queue.dfy`** (module `PriorityQueues`): the array-backed binary max-heap
  `PriorityQueue` as a class whose `elements` sequence is the private `array` field.
  - `insert` keeps the heap property and adds exactly its entry.
  - `removeMax` takes the first entry off the front of the array. It then runs a sift-down
    loop that compares whole records with JavaScript's `>`. The model evaluates that
    comparison as JavaScript does and proves it false, so the loop never swaps.
  - `RemoveMaxRestoringHeap` is the standard binary-heap removal that the code evidently
    intends: the max-heap property named in `insert` at `src/PriorityQueue.ts:23`, and the child indices
    `2i + 1` and `2i + 2` of the sift-down loop at `src/PriorityQueue.ts:46-53`. The last entry
    takes the root's place and sinks by priority. It returns a largest entry and keeps the
    heap property.
- **`graph_has_cycles.dfy`** (module `GraphHasCycles`): the cycle detector.
  - It runs a depth-first search with an explicit stack of `(node, traversing)` entries.
    A visit map marks each node absent, in progress (`true`) or done (`false`).
  - A search starts from every key not yet visited.
  - The verdict is proved to be exactly "some node reaches itself by one or more
    `dependsOn` edges", whenever every dependency is a key.
  - When a dependency is not a key, the result is the "Could not find node" error, or `true`
    if the search meets a cycle before it reaches the missing id.
- **`cumulative_priorities.dfy`** (module `CumulativePriorities`): the cumulative-priority
  calculator.
  - A Kahn-style topological sort works on copies of the `dependsOn` sets, with a
    last-in-first-out worklist. It is proved to emit a repetition-free topological order.
  - Given every zero-dependency node as a seed, the order covers the graph exactly when the
    graph is acyclic.
  - A pass from the end of that order gives each node its own priority plus the largest of
    0 and the values of the nodes that wait for it.
  - The values are proved to satisfy that recurrence, and to cover every node of an
    acyclic graph.
  - On an acyclic graph the recurrence has exactly one solution, so the result does not
    depend on set iteration order.
- **`dep_converters.dfy`** (module `DepConverters`): the converters from a list of
  `[subject, dependent]` pairs to a map from each dependent to the set of its subjects, and
  to the identity map over every id mentioned.

JavaScript `Set`s are modelled as `set<string>`. Each iteration over one picks its next
element with `:|`, so every property holds whatever order the engine iterates in. The
source's `Map`s become `map` values. The `run` work item and the `failed` flag play no part
in these algorithms: `run` is dropped, and `failed` is carried but never read.

In two places the code does less or more than its own structure and comments suggest.
The model follows the code in both:

- The queue is meant to be a max heap (the comment in `insert` at `src/PriorityQueue.ts:23`),
  and `removeMax` sifts down through the children `2i + 1` and `2i + 2`
  (`src/PriorityQueue.ts:46-53`). The standard
  removal for such a heap moves the last entry to the root and sinks it by priority. The
  code instead removes the first entry with `shift()`, and its sift-down never swaps. The
  whole tail therefore moves up one index, and the heap property can be lost (see Findings).
- The doc comment at `src/getNodeCumulativePriorities.ts:40` defines a node's cumulative
  priority as its own priority plus the largest cumulative priority among its children.
  The code takes `Math.max(...values, 0)`. That also yields 0 for a node without children,
  and 0 when every child has a negative value.

## Model

| member | source | states |
|---|---|---|
| Graph.OwnPriority | src/getNodeCumulativePriorities.ts:55 | `node.priority \|\| 0`: 0 when the node has no priority, its priority otherwise |
| Graph.NoSinkMeansCycle | src/getNodeCumulativePriorities.ts:17-36 | a non-empty set of nodes each of which depends on a member of the set contains a node that reaches itself; this is why the sort stops short of the whole graph only on a cycle |
| Graph.NoSourceMeansCycle | src/getNodeCumulativePriorities.ts:39-42 | a non-empty set of nodes each of which is waited for by a member of the set contains a node that reaches itself (well-formed graphs) |
| Graph.SetToSequence | src/graphHasCycles.ts:87 | spreading a set into an array lists exactly its members, each once |
| PriorityQueues.Parent | src/PriorityQueue.ts:29 | `floor((i - 1) / 2)` is below `i`, and `i` is its left or right child |
| PriorityQueues.RootIsMax | src/PriorityQueue.ts:22-38 | under the max-heap property the entry at index 0 has a largest priority |
| PriorityQueues.SiftUpStep | src/PriorityQueue.ts:28-33 | swapping an entry with a parent of lower priority moves the only heap defect up to the parent |
| PriorityQueues.ToPrimitive | src/PriorityQueue.ts:49-51 | the operand conversion of `>`: `undefined` stays `undefined`, and every record becomes the string "[object Object]" |
| PriorityQueues.JsGreater | src/PriorityQueue.ts:49-51 | JavaScript's `>` on the array's values: it can hold only when both sides are records, never with `undefined` on either side |
| PriorityQueues.JsGreaterNeverHolds | src/PriorityQueue.ts:49-51 | JavaScript's `>` between two records, a record and `undefined`, or two `undefined`s is false |
| PriorityQueues.PriorityQueue.constructor | src/PriorityQueue.ts:8 | a new queue is empty |
| PriorityQueues.PriorityQueue.At | src/PriorityQueue.ts:49-51 | `this.array[i]`: the entry at `i` inside the array, `undefined` outside it |
| PriorityQueues.PriorityQueue.SwapElements | src/PriorityQueue.ts:10-16 | exchanges the two entries and keeps the multiset of entries |
| PriorityQueues.PriorityQueue.IsEmpty | src/PriorityQueue.ts:18-20 | true exactly when the queue holds no entry |
| PriorityQueues.PriorityQueue.Insert | src/PriorityQueue.ts:22-38 | the array grows by one; its multiset gains exactly the new entry; a heap stays a heap; the root then holds a largest priority |
| PriorityQueues.PriorityQueue.RemoveMax | src/PriorityQueue.ts:40-60 | an empty queue gives `undefined` and stays empty; otherwise the item at index 0 is returned and the array becomes exactly its old tail (no swap happens) |
| PriorityQueues.PriorityQueue.RemoveMaxRestoringHeap | src/PriorityQueue.ts:40-60 | corrected removal: an empty queue gives `undefined` and stays empty; otherwise the root's item is returned, the multiset loses exactly the root, a heap stays a heap, and the returned entry's priority is at least that of every entry left |
| PriorityQueues.PriorityQueue.SinkRoot | src/PriorityQueue.ts:43-57 | corrected sift-down loop: keeps the multiset of entries, and turns an array that is a heap except below its root into a heap |
| PriorityQueues.LastToRoot | src/PriorityQueue.ts:40-41 | putting the last entry of a heap in place of its root loses exactly the root and leaves a heap except below index 0 |
| PriorityQueues.SiftDownStep | src/PriorityQueue.ts:49-53 | swapping an entry with its larger child, when that child has a higher priority, moves the only heap defect down to the child |
| PriorityQueues.SiftDownPair | src/PriorityQueue.ts:49-53 | after that swap, every entry whose parent is not the child swapped into is ranked no higher than its parent |
| PriorityQueues.SiftDownDone | src/PriorityQueue.ts:54-55 | when no child of the defective entry has a higher priority, the array is a heap |
| PriorityQueues.BelowRoot | src/PriorityQueue.ts:40-60 | what remains of a heap once its root is taken has no priority above the root's |
| PriorityQueues.ShiftBreaksHeap | src/PriorityQueue.ts:41 | the heap with priorities 10, 9, 8, 1, 2, 7, 6 loses the heap property when its first entry is shifted off; after three shifts the front entry has priority 1 while one of priority 7 remains |
| GraphHasCycles.GraphHasCycles | src/graphHasCycles.ts:6-30 | a `true`/`false` verdict is `true` exactly when some node reaches itself; when every dependency is a key there is always a verdict; an error names a dependency that is not a key; `false` is returned only when every dependency is a key |
| GraphHasCycles.HasCycleDFS | src/graphHasCycles.ts:49-97 | `true` only on a cycle; `false` leaves the root and everything it reaches done, keeps what was done, leaves nothing in progress, and makes done nodes a closed acyclic subgraph; an error names a dependency that is not a key |
| GraphHasCycles.UntraversedEntries | src/graphHasCycles.ts:87 | one entry per dependency, in the same order, naming that dependency and not yet traversing |
| GraphHasCycles.SearchStarts | src/graphHasCycles.ts:50 | the one-entry stack satisfies the search invariant |
| GraphHasCycles.ChainReaches | src/graphHasCycles.ts:74-87 | every stack entry is reached by `dependsOn` edges from every traversing entry below it |
| GraphHasCycles.InProgressMeansCycle | src/graphHasCycles.ts:53-60 | meeting a node already in progress means the graph has a cycle |
| GraphHasCycles.PopDone | src/graphHasCycles.ts:61-67 | discarding an entry for a done node, without expanding it, keeps the invariant |
| GraphHasCycles.ExpandTraversing | src/graphHasCycles.ts:73-74 | after marking a node in progress, the nodes in progress are still exactly the nodes of traversing entries, each on one entry |
| GraphHasCycles.Expand | src/graphHasCycles.ts:73-87 | marking the top node in progress and pushing its dependencies keeps the invariant |
| GraphHasCycles.MissingIsDependency | src/graphHasCycles.ts:79-82 | an entry whose node is not a key names a dependency of some key |
| GraphHasCycles.TopDependenciesDone | src/graphHasCycles.ts:88-93 | when a traversing entry is on top again, its dependencies are all done |
| GraphHasCycles.DependenciesDoneMeansAcyclic | src/graphHasCycles.ts:8-10 | a node whose dependencies are all done lies on no cycle |
| GraphHasCycles.FinishTraversing | src/graphHasCycles.ts:92-93 | marking the top traversing node done and popping it keeps in-progress nodes and traversing entries in step |
| GraphHasCycles.Finish | src/graphHasCycles.ts:88-94 | marking a fully traversed node done and popping it keeps the invariant |
| GraphHasCycles.SearchEnds | src/graphHasCycles.ts:96 | an emptied stack leaves the root done, nothing in progress, and done nodes closed and acyclic |
| CumulativePriorities.NewDependsOnMap | src/getNodeCumulativePriorities.ts:3-6 | the copy has the graph's keys and each key's `dependsOn` set |
| CumulativePriorities.StartChildren | src/getNodeCumulativePriorities.ts:17-22 | the popped id is a key not yet emitted, and emitting it keeps the list topologically ordered and repetition-free |
| CumulativePriorities.HandleCopy | src/getNodeCumulativePriorities.ts:26-30 | after deleting the emitted id, a child's copy is empty exactly when all its dependencies are emitted |
| CumulativePriorities.HandleChild | src/getNodeCumulativePriorities.ts:25-33 | handling one child, and queueing it only when its copy empties, keeps the sort invariant |
| CumulativePriorities.SortEnds | src/getNodeCumulativePriorities.ts:17-36 | with every zero-dependency node as a seed and no cycle, a dry worklist means every key is emitted |
| CumulativePriorities.SortedNodeAcyclic | src/getNodeCumulativePriorities.ts:25-33 | no node of a repetition-free topological order reaches itself |
| CumulativePriorities.CompleteOrderMeansAcyclic | src/getNodeCumulativePriorities.ts:17-36 | a repetition-free topological order of every key shows that the graph has no cycle |
| CumulativePriorities.TopologicalSort | src/getNodeCumulativePriorities.ts:8-37 | the list has no repeats, contains the seeds, and puts every node after all it depends on; with every zero-dependency node as a seed it lists every key exactly when the graph is acyclic; no listed node lies on a cycle |
| CumulativePriorities.MaxChildPriority | src/getNodeCumulativePriorities.ts:57-67 | the largest of 0 and the children's values when all children have one (0 with no children); otherwise the error names a child without a value |
| CumulativePriorities.OrderedWaitersLater | src/getNodeCumulativePriorities.ts:49-52 | in a repetition-free topological order no node waits for a node at or after its own position |
| CumulativePriorities.ChildrenFollow | src/getNodeCumulativePriorities.ts:51-62 | popping from its end an order that lists every child after its parent, every child already has its value when its parent is reached |
| CumulativePriorities.NewNodeRecurrence | src/getNodeCumulativePriorities.ts:55-70 | own priority plus the largest of 0 and the children's values satisfies the recurrence at the new node |
| CumulativePriorities.AddKeepsRecurrence | src/getNodeCumulativePriorities.ts:70 | setting a new node's value keeps the recurrence at every node that had one |
| CumulativePriorities.ComputeStep | src/getNodeCumulativePriorities.ts:51-70 | one iteration extends the computed suffix of the order by the popped node, recurrence included |
| CumulativePriorities.AccumulatePriorities | src/getNodeCumulativePriorities.ts:47-73 | on success the map's keys are exactly the order's ids, every value satisfies the recurrence (at least the node's own priority and its own priority plus each child's value, and equal to one of them), and every child of a listed node is listed; an error is "Expected to have already computed" for a child of some listed node that is not listed after it; when every child of a listed node is listed after it there is no error |
| CumulativePriorities.GetNodeCumulativePriorities | src/getNodeCumulativePriorities.ts:43-74 | there is no error exactly when every child of a sorted node is itself sorted; keys are exactly the ids of the topological order used; the recurrence holds at every key; an error is "Expected to have already computed" for a child of a sorted node that was not sorted; for acyclic graphs seeded with every zero-dependency node there is no error and every key gets a value |
| CumulativePriorities.CompleteListsWaiters | src/getNodeCumulativePriorities.ts:49-62 | an order listing every key of a well-formed graph lists every child of each of its nodes |
| CumulativePriorities.ComputedListsWaiters | src/getNodeCumulativePriorities.ts:58-62 | values for every listed node that satisfy the recurrence mean every child of a listed node is listed |
| CumulativePriorities.MissingWaiterUnlisted | src/getNodeCumulativePriorities.ts:49-62 | in an order where children come after their parents, a child not found after its parent's position is not in the order at all |
| CumulativePriorities.RecurrenceDetermined | src/getNodeCumulativePriorities.ts:39-42 | two solutions that agree on a node's children agree on the node |
| CumulativePriorities.CumulativePriorityUnique | src/getNodeCumulativePriorities.ts:39-42 | on an acyclic well-formed graph two maps that satisfy the recurrence at every key are equal |
| DepConverters.DepArrayToNamedFunctions | src/depConverters.ts:8-17 | the keys are exactly the ids that occur as subject or dependent, and each maps to itself |
| DepConverters.DepArrayToMap | src/depConverters.ts:19-31 | the keys are exactly the ids that occur as dependent, and each maps to exactly the subjects paired with it |
| DepConverters.PairIsRecorded | src/depConverters.ts:23-28 | every pair's subject is in its dependent's set |
| DepConverters.RepeatedPairChangesNothing | src/depConverters.ts:23-28 | repeating a pair changes neither the keys nor any set |

## Findings

| source | as written | input that shows it | evidently intended | confidence | as-written member | corrected member |
|---|---|---|---|---|---|---|
| src/PriorityQueue.ts:40-60 | `removeMax` removes the root with `shift()`, moving every other entry up one index, then compares whole entries with `>`, which is never true, so nothing is swapped | a queue whose array holds priorities 10, 9, 8, 1, 2, 7, 6 (a heap): one `removeMax` leaves 9, 8, 1, 2, 7, 6, where 1 sits above its child 6; the fourth `removeMax` returns the entry of priority 1 while entries of priority 7 and 6 remain | the last entry replaces the root and sinks, compared by `priority`, so each call returns a largest remaining priority | not executed | PriorityQueues.PriorityQueue.RemoveMax, PriorityQueues.ShiftBreaksHeap | PriorityQueues.PriorityQueue.RemoveMaxRestoringHeap |

## Left out

- src/PGraph.ts, src/index.ts, the tests and the Jest configuration are not part of this model. They chain promises and dispatch on argument shapes, and use neither the queue nor the priorities.
- Cycle-path reporting (`src/types.ts:63-79`) is absent from the detector, which returns only a boolean.
- Priorities are integers rather than JavaScript numbers. An absent priority counts as 0, as `priority || 0` makes it. Floating point and `NaN` are not modelled.
- The order of `Set` and `Map` iteration is not modelled. Every iteration picks its elements in an arbitrary order, and every property holds for any order.
- CumulativePriorities.MaxChildPriority: when several children lack a value, the error names one of them, not necessarily the one the engine meets first.
- GraphHasCycles.HasCycleDFS: the visit map is one JavaScript `Map` shared by all searches of a call. The model passes it to each search as a value and gets the updated one back. Its aliasing is not modelled.
- GraphHasCycles.GraphHasCycles: "every key ends up done when the verdict is `false`" is a loop invariant, not a postcondition, because the visit map is local to the call.
- CumulativePriorities.TopologicalSort: the seeds must be distinct keys with empty `dependsOn`, as the parameter name `nodesWithNoDependencies` says. A seed whose only dependency is itself is not a mere convenience to exclude: the source deletes it from its own copy (`src/getNodeCumulativePriorities.ts:25-31`), finds that copy empty and pushes it again on every pass, so it never terminates. The graph must be well formed. Other inputs are not modelled, including seed lists with repeats or with ids that are not keys (for the latter, the non-null assertion `!` at `src/getNodeCumulativePriorities.ts:22` is erased at compile time, `get` yields `undefined`, and reading its `dependedOnBy` at :25 throws a `TypeError`).
- CumulativePriorities.GetNodeCumulativePriorities: same seed and graph requirements as the sort it calls. The order it used is returned as a ghost value, so its postconditions can name that order.
- CumulativePriorities.AccumulatePriorities: the source pops the array that `topologicalSort` returns, emptying it. The model leaves the sorted sequence unchanged and walks an index down from its end instead, which visits the same ids in the same order. That the array is emptied is not modelled; nothing reads it afterwards.
- That neither algorithm changes the input graph or the caller's seed array holds by construction: both are values in the model.
