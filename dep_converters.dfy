/**
 * The converters of src/depConverters.ts, which turn an array of [subject, dependent]
 * pairs ("dependent waits for subject") into the map shapes the graph is built from.
 * The ids are the caller's run functions, compared by identity; here they are any type
 * with equality.
 */
module DepConverters {

  /** Every id that occurs as subject or as dependent of some pair. */
  ghost function MentionedIds<T>(pairs: seq<(T, T)>): set<T> {
    (set p | p in pairs :: p.0) + (set p | p in pairs :: p.1)
  }

  /** Every id that occurs as the dependent of some pair. */
  ghost function Dependents<T>(pairs: seq<(T, T)>): set<T> {
    set p | p in pairs :: p.1
  }

  /** The subjects that `dependent` waits for according to the pairs. */
  ghost function SubjectsOf<T>(pairs: seq<(T, T)>, dependent: T): set<T> {
    set p | p in pairs && p.1 == dependent :: p.0
  }

  method DepArrayToNamedFunctions<T>(pairs: seq<(T, T)>) returns (namedFunctions: map<T, T>)
    ensures namedFunctions.Keys == MentionedIds(pairs)
    ensures forall id :: id in namedFunctions ==> namedFunctions[id] == id
  {
    namedFunctions := map[];
    for i := 0 to |pairs|
      invariant namedFunctions.Keys == MentionedIds(pairs[..i])
      invariant forall id :: id in namedFunctions ==> namedFunctions[id] == id
    {
      var (subject, dependent) := pairs[i];
      namedFunctions := namedFunctions[subject := subject];
      namedFunctions := namedFunctions[dependent := dependent];
      assert pairs[..i + 1] == pairs[..i] + [pairs[i]];
    }
    assert pairs[..|pairs|] == pairs;
  }

  method DepArrayToMap<T>(pairs: seq<(T, T)>) returns (graph: map<T, set<T>>)
    ensures graph.Keys == Dependents(pairs)
    ensures forall d :: d in graph ==> graph[d] == SubjectsOf(pairs, d)
  {
    graph := map[];
    for i := 0 to |pairs|
      invariant graph.Keys == Dependents(pairs[..i])
      invariant forall d :: d in graph ==> graph[d] == SubjectsOf(pairs[..i], d)
    {
      var (subjectId, dependentId) := pairs[i];
      assert pairs[..i + 1] == pairs[..i] + [pairs[i]];
      if dependentId !in graph {
        graph := graph[dependentId := {subjectId}];
      } else {
        graph := graph[dependentId := graph[dependentId] + {subjectId}];
      }
    }
    assert pairs[..|pairs|] == pairs;
  }

  /** Each pair is recorded: the subject is among the dependent's entries. */
  lemma PairIsRecorded<T>(pairs: seq<(T, T)>, i: nat)
    requires i < |pairs|
    ensures pairs[i].1 in Dependents(pairs)
    ensures pairs[i].0 in SubjectsOf(pairs, pairs[i].1)
  {
    assert pairs[i] in pairs;
  }

  /** Repeating a pair changes neither the keys nor any dependent's subjects. */
  lemma RepeatedPairChangesNothing<T>(pairs: seq<(T, T)>, i: nat)
    requires i < |pairs|
    ensures Dependents(pairs + [pairs[i]]) == Dependents(pairs)
    ensures MentionedIds(pairs + [pairs[i]]) == MentionedIds(pairs)
    ensures forall d :: SubjectsOf(pairs + [pairs[i]], d) == SubjectsOf(pairs, d)
  {
    assert forall p :: p in pairs + [pairs[i]] <==> p in pairs;
  }
}
