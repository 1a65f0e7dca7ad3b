/**
 * The array-backed binary max-heap of src/PriorityQueue.ts.
 *
 * `removeMax` compares whole {item, priority} records with JavaScript's `>`, which is
 * never true for two objects or for an object and `undefined`; the model evaluates that
 * comparison as JavaScript does and proves it false, so the sift-down loop stops on its
 * first pass and the queue keeps the old tail unchanged.
 */
module PriorityQueues {
  import opened Graph

  datatype Entry<T> = Entry(item: T, priority: int)

  /** Index of the parent of heap position `i`. */
  function Parent(i: nat): (p: nat)
    requires i > 0
    ensures p < i && (i == 2 * p + 1 || i == 2 * p + 2)
  {
    (i - 1) / 2
  }

  /** Every entry's priority is at most its parent's. */
  ghost predicate IsHeap<T>(s: seq<Entry<T>>) {
    forall i :: 0 < i < |s| ==> s[Parent(i)].priority >= s[i].priority
  }

  /** The heap property everywhere except between `k` and its parent; `k`'s parent also bounds `k`'s children. */
  ghost predicate HeapExcept<T>(s: seq<Entry<T>>, k: nat) {
    && (forall i :: 0 < i < |s| && i != k ==> s[Parent(i)].priority >= s[i].priority)
    && (k > 0 ==> forall i :: 0 < i < |s| && Parent(i) == k ==> s[Parent(k)].priority >= s[i].priority)
  }

  /** Under the heap property the root carries a largest priority. */
  lemma {:induction false} RootIsMax<T>(s: seq<Entry<T>>, i: nat)
    requires IsHeap(s) && i < |s|
    ensures s[0].priority >= s[i].priority
    decreases i
  {
    if i > 0 {
      RootIsMax(s, Parent(i));
    }
  }

  /** One sift-up swap of `k` with its larger-than-it parent moves the defect up to the parent. */
  lemma SiftUpStep<T>(s: seq<Entry<T>>, k: nat)
    requires 0 < k < |s| && HeapExcept(s, k)
    requires s[k].priority > s[Parent(k)].priority
    ensures HeapExcept(s[k := s[Parent(k)]][Parent(k) := s[k]], Parent(k))
  {
    var p := Parent(k);
    var t := s[k := s[p]][p := s[k]];
    forall i | 0 < i < |t| && i != p
      ensures t[Parent(i)].priority >= t[i].priority
    {
      if i == k {
      } else if Parent(i) == k {
        assert t[Parent(i)] == s[p] && t[i] == s[i];
      } else if Parent(i) == p {
        assert s[p].priority >= s[i].priority;
      }
    }
    if p > 0 {
      forall i | 0 < i < |t| && Parent(i) == p
        ensures t[Parent(p)].priority >= t[i].priority
      {
        assert s[Parent(p)].priority >= s[p].priority;
        if i != k {
          assert s[p].priority >= s[i].priority;
        }
      }
    }
  }

  /** At a stopping point of sift-up the defect is gone. */
  lemma SiftUpDone<T>(s: seq<Entry<T>>, k: nat)
    requires k < |s| && HeapExcept(s, k)
    requires k > 0 ==> s[k].priority <= s[Parent(k)].priority
    ensures IsHeap(s)
  {
  }

  /**
   * The heap property everywhere except between `k` and its children; `k`'s parent also
   * bounds `k`'s children.
   */
  ghost predicate HeapExceptChildren<T>(s: seq<Entry<T>>, k: nat) {
    && (forall i :: 0 < i < |s| && Parent(i) != k ==> s[Parent(i)].priority >= s[i].priority)
    && (k > 0 ==> forall i :: 0 < i < |s| && Parent(i) == k ==> s[Parent(k)].priority >= s[i].priority)
  }

  /** Swapping `k` with its larger child `b`, when that child outranks it, moves the defect down to `b`. */
  lemma SiftDownStep<T>(s: seq<Entry<T>>, k: nat, b: nat)
    requires HeapExceptChildren(s, k) && b < |s| && (b == 2 * k + 1 || b == 2 * k + 2)
    requires s[b].priority > s[k].priority
    requires 2 * k + 1 < |s| ==> s[b].priority >= s[2 * k + 1].priority
    requires 2 * k + 2 < |s| ==> s[b].priority >= s[2 * k + 2].priority
    ensures HeapExceptChildren(s[k := s[b]][b := s[k]], b)
  {
    var t := s[k := s[b]][b := s[k]];
    forall i | 0 < i < |t| && Parent(i) != b
      ensures t[Parent(i)].priority >= t[i].priority
    {
      assert Parent(b) == k;
      SiftDownPair(s, k, b, t, i);
    }
    forall i | 0 < i < |t| && Parent(i) == b
      ensures t[Parent(b)].priority >= t[i].priority
    {
      assert Parent(b) == k;
      assert t[i] == s[i] && s[b].priority >= s[i].priority;
    }
  }

  /**
   * After that swap, an entry whose parent is not `b` is ranked no higher than its parent,
   * given the two instances of the heap property below `k` that the swap relies on.
   */
  lemma SiftDownPair<T>(s: seq<Entry<T>>, k: nat, b: nat, t: seq<Entry<T>>, i: nat)
    requires b < |s| && (b == 2 * k + 1 || b == 2 * k + 2)
    requires s[b].priority > s[k].priority
    requires 2 * k + 1 < |s| ==> s[b].priority >= s[2 * k + 1].priority
    requires 2 * k + 2 < |s| ==> s[b].priority >= s[2 * k + 2].priority
    requires t == s[k := s[b]][b := s[k]] && 0 < i < |t| && Parent(i) != b
    requires k > 0 ==> s[Parent(k)].priority >= s[b].priority
    requires Parent(i) != k ==> s[Parent(i)].priority >= s[i].priority
    ensures t[Parent(i)].priority >= t[i].priority
  {
    assert Parent(b) == k;
    if i == k {
      assert t[Parent(k)] == s[Parent(k)] && s[Parent(k)].priority >= s[b].priority;
    } else if i == b {
      assert t[Parent(i)] == s[b] && t[i] == s[k];
    } else if Parent(i) == k {
      assert i == 2 * k + 1 || i == 2 * k + 2;
      assert t[Parent(i)] == s[b] && t[i] == s[i];
    } else {
      assert t[Parent(i)] == s[Parent(i)] && t[i] == s[i];
    }
  }

  /** When no child of `k` outranks it, the defect is gone. */
  lemma SiftDownDone<T>(s: seq<Entry<T>>, k: nat)
    requires HeapExceptChildren(s, k)
    requires 2 * k + 1 < |s| ==> s[k].priority >= s[2 * k + 1].priority
    requires 2 * k + 2 < |s| ==> s[k].priority >= s[2 * k + 2].priority
    ensures IsHeap(s)
  {
  }

  /**
   * Moving the last entry of a heap of two or more entries to the front, in place of the
   * root, leaves the heap property everywhere except below the new root.
   */
  lemma LastToRoot<T>(s: seq<Entry<T>>, t: seq<Entry<T>>)
    requires |s| >= 2 && t == s[..|s| - 1][0 := s[|s| - 1]]
    ensures multiset(t) + multiset{s[0]} == multiset(s)
    ensures IsHeap(s) ==> HeapExceptChildren(t, 0)
  {
    assert s == [s[0]] + s[1..|s| - 1] + [s[|s| - 1]];
    assert t == [s[|s| - 1]] + s[1..|s| - 1];
  }

  /** What is left of a heap once its root is taken lies below that root. */
  lemma BelowRoot<T>(s: seq<Entry<T>>, t: seq<Entry<T>>)
    requires IsHeap(s) && |s| > 0 && multiset(t) + multiset{s[0]} == multiset(s)
    ensures forall e :: e in t ==> s[0].priority >= e.priority
  {
    forall e | e in t
      ensures s[0].priority >= e.priority
    {
      assert e in multiset(s);
      var j :| 0 <= j < |s| && s[j] == e;
      RootIsMax(s, j);
    }
  }

  /** The heap of priorities 10, 9, 8, 1, 2, 7, 6: taking off its front puts 1 above 6. */
  function ShiftSample(): seq<Entry<int>> {
    [Entry(0, 10), Entry(1, 9), Entry(2, 8), Entry(3, 1), Entry(4, 2), Entry(5, 7), Entry(6, 6)]
  }

  /**
   * What `shift()` leaves of a heap need not be a heap, and taking entries off the front
   * then stops yielding a largest priority.
   */
  lemma ShiftBreaksHeap()
    ensures IsHeap(ShiftSample()) && !IsHeap(ShiftSample()[1..])
    ensures ShiftSample()[3..][0].priority == 1 && Entry(5, 7) in ShiftSample()[3..]
  {
    var t := ShiftSample()[1..];
    assert Parent(5) == 2 && t[2].priority < t[5].priority;
  }

  /** A JavaScript value read from the backing array: an entry, or `undefined` past its end. */
  datatype JsValue<T> = Undefined | Record(entry: Entry<T>)

  /** The primitive a value becomes before `>` compares it (ToPrimitive with hint number). */
  datatype Primitive = PrimString(s: string) | PrimUndefined

  function ToPrimitive<T>(v: JsValue<T>): (p: Primitive)
    ensures p.PrimUndefined? <==> v.Undefined?
    ensures p.PrimString? ==> p.s == "[object Object]"
  {
    match v
    // a plain object has no numeric valueOf, so it converts through toString
    case Record(_) => PrimString("[object Object]")
    case Undefined => PrimUndefined
  }

  /** Lexicographic comparison of the characters of two strings (only "[object Object]" is ever compared here). */
  function StringLess(a: string, b: string): bool
    decreases |a|
  {
    if |a| == 0 then |b| > 0
    else if |b| == 0 then false
    else if a[0] != b[0] then a[0] < b[0]
    else StringLess(a[1..], b[1..])
  }

  lemma {:induction false} StringLessIrreflexive(s: string)
    ensures !StringLess(s, s)
    decreases |s|
  {
    if |s| > 0 {
      StringLessIrreflexive(s[1..]);
    }
  }

  /**
   * JavaScript's `a > b`: two strings compare lexicographically; otherwise both become
   * numbers, and "[object Object]" and `undefined` both become NaN, so the result is false.
   */
  function JsGreater<T>(a: JsValue<T>, b: JsValue<T>): (greater: bool)
    ensures greater ==> a.Record? && b.Record?
  {
    match (ToPrimitive(a), ToPrimitive(b))
    case (PrimString(x), PrimString(y)) => StringLess(y, x)
    case _ => false
  }

  /** The comparisons of src/PriorityQueue.ts:49 and :51 never hold. */
  lemma JsGreaterNeverHolds<T>(a: JsValue<T>, b: JsValue<T>)
    ensures !JsGreater(a, b)
  {
    StringLessIrreflexive("[object Object]");
  }

  class PriorityQueue<T> {
    var elements: seq<Entry<T>>  // the private `array` field

    constructor ()
      ensures elements == []
    {
      elements := [];
    }

    /** `this.array[i]`, which is `undefined` outside the array. */
    function At(i: int): (v: JsValue<T>)
      reads this
      ensures v.Record? <==> 0 <= i < |elements|
      ensures v.Record? ==> v.entry == elements[i]
    {
      if 0 <= i < |elements| then Record(elements[i]) else Undefined
    }

    method SwapElements(firstIndex: nat, secondIndex: nat)
      requires firstIndex < |elements| && secondIndex < |elements|
      modifies this
      ensures elements == old(elements)[firstIndex := old(elements)[secondIndex]][secondIndex := old(elements)[firstIndex]]
      ensures multiset(elements) == multiset(old(elements))
    {
      var firstItem := elements[firstIndex];
      var secondItem := elements[secondIndex];
      elements := elements[firstIndex := secondItem];
      elements := elements[secondIndex := firstItem];
    }

    method IsEmpty() returns (empty: bool)
      ensures empty <==> multiset(elements) == multiset{}
    {
      empty := |elements| == 0;
    }

    method Insert(item: T, priority: int)
      modifies this
      ensures |elements| == |old(elements)| + 1
      ensures multiset(elements) == multiset(old(elements)) + multiset{Entry(item, priority)}
      ensures IsHeap(old(elements)) ==> IsHeap(elements)
      ensures IsHeap(old(elements)) ==> forall i :: 0 <= i < |elements| ==> elements[0].priority >= elements[i].priority
    {
      ghost var before := elements;
      var indexToCheck: nat := |elements|;
      elements := elements + [Entry(item, priority)];
      while indexToCheck > 0
        invariant indexToCheck < |elements| == |before| + 1
        invariant multiset(elements) == multiset(before) + multiset{Entry(item, priority)}
        invariant IsHeap(before) ==> HeapExcept(elements, indexToCheck)
        decreases indexToCheck
      {
        var parentIndex := Parent(indexToCheck);
        if elements[indexToCheck].priority > elements[parentIndex].priority {
          if IsHeap(before) {
            SiftUpStep(elements, indexToCheck);
          }
          SwapElements(indexToCheck, parentIndex);
          indexToCheck := parentIndex;
        } else {
          break;
        }
      }
      if IsHeap(before) {
        SiftUpDone(elements, indexToCheck);
        forall i | 0 <= i < |elements|
          ensures elements[0].priority >= elements[i].priority
        {
          RootIsMax(elements, i);
        }
      }
    }

    method RemoveMax() returns (r: Option<T>)
      modifies this
      ensures old(elements) == [] ==> r == None && elements == []
      ensures old(elements) != [] ==> r == Some(old(elements)[0].item) && elements == old(elements)[1..]
    {
      var result: Option<Entry<T>>;
      if |elements| == 0 {
        result := None;
      } else {
        result := Some(elements[0]);
        elements := elements[1..];
      }
      var indexToCheck := 0;
      var sifting := true;  // cleared where the source breaks out of the loop
      while sifting && indexToCheck < |elements|
        invariant indexToCheck == 0
        invariant old(elements) == [] ==> result == None && elements == []
        invariant old(elements) != [] ==> result == Some(old(elements)[0]) && elements == old(elements)[1..]
        decreases if sifting then 1 else 0
      {
        var leftChildIndex := indexToCheck * 2 + 1;
        var rightChildIndex := indexToCheck * 2 + 2;
        JsGreaterNeverHolds(At(leftChildIndex), At(rightChildIndex));
        var biggerIndex := if JsGreater(At(leftChildIndex), At(rightChildIndex)) then leftChildIndex else rightChildIndex;
        JsGreaterNeverHolds(At(biggerIndex), At(indexToCheck));
        if JsGreater(At(biggerIndex), At(indexToCheck)) {
          // the swap of src/PriorityQueue.ts:52-53 is never reached
          assert false;
        } else {
          sifting := false;
        }
      }
      r := if result.Some? then Some(result.value.item) else None;
    }

    /**
     * The standard removal from a binary max heap: the last entry replaces the root and
     * sinks, swapping with its larger child while that child's priority is higher.
     */
    method RemoveMaxRestoringHeap() returns (r: Option<T>)
      modifies this
      ensures old(elements) == [] ==> r == None && elements == []
      ensures old(elements) != [] ==> r == Some(old(elements)[0].item)
      ensures old(elements) != [] ==> multiset(elements) + multiset{old(elements)[0]} == multiset(old(elements))
      ensures IsHeap(old(elements)) ==> IsHeap(elements)
      ensures IsHeap(old(elements)) && old(elements) != [] ==>
        forall e :: e in elements ==> old(elements)[0].priority >= e.priority
    {
      if |elements| == 0 {
        return None;
      }
      ghost var before := elements;
      var result := elements[0];
      var last := elements[|elements| - 1];
      elements := elements[..|elements| - 1];
      if |elements| > 0 {
        elements := elements[0 := last];
        LastToRoot(before, elements);
        SinkRoot();
      } else {
        assert before == [result];
      }
      if IsHeap(before) {
        BelowRoot(before, elements);
      }
      r := Some(result.item);
    }

    /** Sinks the root below every child that outranks it. */
    method SinkRoot()
      modifies this
      ensures multiset(elements) == multiset(old(elements))
      ensures HeapExceptChildren(old(elements), 0) ==> IsHeap(elements)
    {
      ghost var repairing := HeapExceptChildren(elements, 0);
      var indexToCheck: nat := 0;
      var sifting := true;
      while sifting && indexToCheck < |elements|
        invariant multiset(elements) == multiset(old(elements))
        invariant repairing ==> if sifting then HeapExceptChildren(elements, indexToCheck) else IsHeap(elements)
        decreases if sifting then 1 else 0, |elements| - indexToCheck
      {
        var leftChildIndex := indexToCheck * 2 + 1;
        var rightChildIndex := indexToCheck * 2 + 2;
        var biggerIndex := leftChildIndex;
        if rightChildIndex < |elements| && elements[rightChildIndex].priority > elements[leftChildIndex].priority {
          biggerIndex := rightChildIndex;
        }
        if biggerIndex < |elements| && elements[biggerIndex].priority > elements[indexToCheck].priority {
          if repairing {
            SiftDownStep(elements, indexToCheck, biggerIndex);
          }
          SwapElements(indexToCheck, biggerIndex);
          indexToCheck := biggerIndex;
        } else {
          if repairing {
            SiftDownDone(elements, indexToCheck);
          }
          sifting := false;
        }
      }
      if repairing && sifting {
        SiftDownDone(elements, indexToCheck);
      }
    }
  }
}
