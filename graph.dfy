/**
 * The dependency graph that the cycle detector and the priority calculator work on
 * (PGraphNodeWithDependencies in src/types.ts), and the facts about walks in it that
 * both of them need.
 */
module Graph {

  datatype Option<+T> = None | Some(value: T)

  /**
   * A node of the graph. The work item (`run`) plays no part in the algorithms
   * modelled here and is left out.
   */
  datatype Node = Node(
    dependsOn: set<string>,     // nodes that must complete before this one starts
    dependedOnBy: set<string>,  // nodes that wait for this one
    priority: Option<int>,      // optional scheduling priority
    failed: bool)

  type DependencyGraph = map<string, Node>

  /** The two errors the modelled code throws. */
  datatype Error =
    | NodeNotFound(id: string)          // "Could not find node ... in the graph"
    | PriorityNotComputed(id: string)   // "Expected to have already computed ..."

  datatype Result<+T> = Ok(value: T) | Err(error: Error)

  /** `priority || 0`: an absent priority counts as zero. */
  function OwnPriority(n: Node): (p: int)
    ensures n.priority.None? ==> p == 0
    ensures n.priority.Some? ==> p == n.priority.value
  {
    match n.priority
    case None => 0
    case Some(p) => p
  }

  function Elems(s: seq<string>): set<string> {
    set x | x in s
  }

  predicate Distinct(s: seq<string>) {
    forall i, j :: 0 <= i < j < |s| ==> s[i] != s[j]
  }

  /** Every id in either dependency set is a key, and the two sets mirror each other. */
  ghost predicate WellFormed(g: DependencyGraph) {
    && (forall a, b :: a in g && b in g[a].dependsOn ==> b in g && a in g[b].dependedOnBy)
    && (forall a, b :: a in g && b in g[a].dependedOnBy ==> b in g && a in g[b].dependsOn)
  }

  /** Every id named in some `dependsOn` is a key. */
  ghost predicate DependsOnClosed(g: DependencyGraph) {
    forall k :: k in g ==> g[k].dependsOn <= g.Keys
  }

  /** All ids that occur in some node's `dependsOn`. */
  ghost function AllDependsOn(g: DependencyGraph): set<string> {
    set k, d | k in g && d in g[k].dependsOn :: d
  }

  /** `a` depends on `b`. */
  predicate Edge(g: DependencyGraph, a: string, b: string) {
    a in g && b in g[a].dependsOn
  }

  /** A non-empty sequence of ids, each depending on the next. */
  ghost predicate IsWalk(g: DependencyGraph, p: seq<string>) {
    |p| >= 1 && forall k :: 0 <= k < |p| - 1 ==> Edge(g, p[k], p[k + 1])
  }

  /** `b` is reached from `a` by one or more `dependsOn` edges. */
  ghost predicate Reaches(g: DependencyGraph, a: string, b: string) {
    exists p :: IsWalk(g, p) && |p| >= 2 && p[0] == a && p[|p| - 1] == b
  }

  /** Some node reaches itself (a self-loop counts). */
  ghost predicate HasCycle(g: DependencyGraph) {
    exists n :: n in g && Reaches(g, n, n)
  }

  lemma WalkCons(g: DependencyGraph, x: string, q: seq<string>)
    requires IsWalk(g, q) && Edge(g, x, q[0])
    ensures IsWalk(g, [x] + q)
  {
    var p := [x] + q;
    forall k | 0 <= k < |p| - 1 ensures Edge(g, p[k], p[k + 1]) {
      if k > 0 { assert p[k] == q[k - 1] && p[k + 1] == q[k]; }
    }
  }

  lemma WalkSnoc(g: DependencyGraph, q: seq<string>, x: string)
    requires IsWalk(g, q) && Edge(g, q[|q| - 1], x)
    ensures IsWalk(g, q + [x])
  {
    var p := q + [x];
    forall k | 0 <= k < |p| - 1 ensures Edge(g, p[k], p[k + 1]) {
      if k < |q| - 1 { assert p[k] == q[k] && p[k + 1] == q[k + 1]; }
    }
  }

  /** Dropping the first id of a walk of two or more ids leaves a walk. */
  lemma WalkTail(g: DependencyGraph, p: seq<string>)
    requires IsWalk(g, p) && |p| >= 2
    ensures Edge(g, p[0], p[1]) && IsWalk(g, p[1..])
  {
    var q := p[1..];
    forall k | 0 <= k < |q| - 1 ensures Edge(g, q[k], q[k + 1]) {
      assert q[k] == p[k + 1] && q[k + 1] == p[k + 2];
    }
  }

  lemma EdgeReaches(g: DependencyGraph, a: string, b: string)
    requires Edge(g, a, b)
    ensures Reaches(g, a, b)
  {
    assert IsWalk(g, [a, b]);
  }

  lemma ReachesThenEdge(g: DependencyGraph, a: string, b: string, c: string)
    requires Reaches(g, a, b) && Edge(g, b, c)
    ensures Reaches(g, a, c)
  {
    var p :| IsWalk(g, p) && |p| >= 2 && p[0] == a && p[|p| - 1] == b;
    WalkSnoc(g, p, c);
    assert (p + [c])[0] == a && (p + [c])[|p|] == c;
  }

  /** A walk that visits the same id twice contains a cycle. */
  lemma RepeatGivesCycle(g: DependencyGraph, p: seq<string>, i: nat, j: nat)
    requires IsWalk(g, p) && i < j < |p| && p[i] == p[j]
    ensures HasCycle(g)
  {
    var q := p[i..j + 1];
    assert forall k :: 0 <= k < |q| - 1 ==> Edge(g, q[k], q[k + 1]) by {
      forall k | 0 <= k < |q| - 1 ensures Edge(g, q[k], q[k + 1]) {
        assert q[k] == p[i + k] && q[k + 1] == p[i + k + 1];
      }
    }
    assert IsWalk(g, q) && |q| >= 2 && q[0] == p[i] && q[|q| - 1] == p[i];
    assert Edge(g, q[0], q[1]);
    assert p[i] in g && Reaches(g, p[i], p[i]);
  }

  /** A sequence longer than the set its elements come from repeats some element. */
  lemma {:induction false} Pigeonhole(p: seq<string>, s: set<string>) returns (i: nat, j: nat)
    requires forall k :: 0 <= k < |p| ==> p[k] in s
    requires |p| > |s|
    ensures i < j < |p| && p[i] == p[j]
    decreases s
  {
    if exists m :: 0 < m < |p| && p[m] == p[0] {
      var m :| 0 < m < |p| && p[m] == p[0];
      i, j := 0, m;
    } else {
      var rest := p[1..];
      assert forall m :: 0 <= m < |rest| ==> rest[m] in s - {p[0]} by {
        forall m | 0 <= m < |rest| ensures rest[m] in s - {p[0]} {
          assert rest[m] == p[m + 1];
        }
      }
      var i', j' := Pigeonhole(rest, s - {p[0]});
      i, j := i' + 1, j' + 1;
    }
  }

  /** Every member of `s` depends on some member of `s`. */
  ghost predicate NoSink(g: DependencyGraph, s: set<string>) {
    forall y :: y in s ==> y in g && g[y].dependsOn * s != {}
  }

  /** Some member of `s` waits for each member of `s`. */
  ghost predicate NoSource(g: DependencyGraph, s: set<string>) {
    forall y :: y in s ==> y in g && g[y].dependedOnBy * s != {}
  }

  /** A walk of `n` steps from `x` that stays inside a set where every member depends on a member. */
  lemma {:induction false} WalkForward(g: DependencyGraph, s: set<string>, x: string, n: nat)
    returns (p: seq<string>)
    requires x in s
    requires NoSink(g, s)
    ensures IsWalk(g, p) && |p| == n + 1 && p[0] == x
    ensures forall k :: 0 <= k < |p| ==> p[k] in s
    decreases n
  {
    if n == 0 {
      p := [x];
    } else {
      var z :| z in g[x].dependsOn * s;
      var q := WalkForward(g, s, z, n - 1);
      WalkCons(g, x, q);
      p := [x] + q;
    }
  }

  /** A walk of `n` steps ending at `x` inside a set where some member waits for each member. */
  lemma {:induction false} WalkBackward(g: DependencyGraph, s: set<string>, x: string, n: nat)
    returns (p: seq<string>)
    requires WellFormed(g) && x in s
    requires NoSource(g, s)
    ensures IsWalk(g, p) && |p| == n + 1 && p[|p| - 1] == x
    ensures forall k :: 0 <= k < |p| ==> p[k] in s
    decreases n
  {
    if n == 0 {
      p := [x];
    } else {
      var z :| z in g[x].dependedOnBy * s;
      var q := WalkBackward(g, s, z, n - 1);
      WalkSnoc(g, q, x);
      p := q + [x];
    }
  }

  /** A non-empty set in which every member depends on some member of the set contains a cycle. */
  lemma NoSinkMeansCycle(g: DependencyGraph, s: set<string>)
    requires s != {}
    requires NoSink(g, s)
    ensures HasCycle(g)
  {
    var x :| x in s;
    var p := WalkForward(g, s, x, |s|);
    var i, j := Pigeonhole(p, s);
    RepeatGivesCycle(g, p, i, j);
  }

  /** A non-empty set in which every member is depended on by some member of the set contains a cycle. */
  lemma NoSourceMeansCycle(g: DependencyGraph, s: set<string>)
    requires WellFormed(g) && s != {}
    requires NoSource(g, s)
    ensures HasCycle(g)
  {
    var x :| x in s;
    var p := WalkBackward(g, s, x, |s|);
    var i, j := Pigeonhole(p, s);
    RepeatGivesCycle(g, p, i, j);
  }

  /** Enumerates a set in an unspecified order (JS iterates a Set in insertion order). */
  method SetToSequence(s: set<string>) returns (xs: seq<string>)
    ensures forall x :: x in s <==> x in xs
    ensures Distinct(xs)
  {
    xs := [];
    var rest := s;
    while rest != {}
      invariant rest <= s
      invariant forall x :: x in s <==> x in xs || x in rest
      invariant forall x :: x in xs ==> x !in rest
      invariant Distinct(xs)
      decreases rest
    {
      var x :| x in rest;
      xs := xs + [x];
      rest := rest - {x};
    }
  }
}
