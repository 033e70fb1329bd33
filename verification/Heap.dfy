/** The binary heap over the growing array (ds/src/heap.c) and the priority queue on it (ds/src/pq.c). */
module Heaps {
  import opened Wrappers
  import opened Vectors

  type Compare = (Elem, Elem) -> int

  predicate Leq(compare: Compare, a: Elem, b: Elem) { compare(a, b) <= 0 }

  /** What the comparison function has to be: a total preorder. */
  ghost predicate Orders(compare: Compare) {
    && (forall a, b :: Leq(compare, a, b) || Leq(compare, b, a))
    && (forall a, b, c :: Leq(compare, a, b) && Leq(compare, b, c) ==> Leq(compare, a, c))
  }

  function Parent(i: nat): nat
    requires i > 0
  {
    (i - 1) / 2
  }

  // ---------- heap order ----------

  /** Element `k` is not larger than its parent. */
  predicate Below(s: seq<Elem>, compare: Compare, k: nat)
    requires 0 < k < |s|
  {
    Leq(compare, s[k], s[Parent(k)])
  }

  predicate HeapOrdered(s: seq<Elem>, compare: Compare) {
    forall k :: 0 < k < |s| ==> Below(s, compare, k)
  }

  /** Ordered but for `i`, which may be larger than its parent; its children are below the parent. */
  predicate OrderedButUp(s: seq<Elem>, compare: Compare, i: nat) {
    && (forall k :: 0 < k < |s| && k != i ==> Below(s, compare, k))
    && (forall k :: 0 < k < |s| && Parent(k) == i && 0 < i ==> Leq(compare, s[k], s[Parent(i)]))
  }

  /** Ordered but for the children of `i`, which are below its parent. */
  predicate OrderedButDown(s: seq<Elem>, compare: Compare, i: nat) {
    && (forall k :: 0 < k < |s| && Parent(k) != i ==> Below(s, compare, k))
    && (forall k :: 0 < k < |s| && Parent(k) == i && 0 < i ==> Leq(compare, s[k], s[Parent(i)]))
  }

  function Swapped(s: seq<Elem>, i: nat, j: nat): seq<Elem>
    requires i < |s| && j < |s|
  {
    s[i := s[j]][j := s[i]]
  }

  lemma SwappedPermutes(s: seq<Elem>, i: nat, j: nat)
    requires i < |s| && j < |s|
    ensures multiset(Swapped(s, i, j)) == multiset(s)
  {}

  /** The root is a largest element. */
  lemma {:induction false} RootIsLargest(s: seq<Elem>, compare: Compare, k: nat)
    requires Orders(compare) && HeapOrdered(s, compare) && k < |s|
    ensures Leq(compare, s[k], s[0])
    decreases k
  {
    if k > 0 {
      RootIsLargest(s, compare, Parent(k));
      assert Below(s, compare, k);
    }
  }

  lemma UpStep(s: seq<Elem>, compare: Compare, i: nat)
    requires Orders(compare) && 0 < i < |s| && OrderedButUp(s, compare, i) && !Leq(compare, s[i], s[Parent(i)])
    ensures OrderedButUp(Swapped(s, i, Parent(i)), compare, Parent(i))
  {
    var p, s' := Parent(i), Swapped(s, i, Parent(i));
    forall k | 0 < k < |s| && k != p ensures Below(s', compare, k) {
      if k != i { assert Below(s, compare, k); }
    }
    forall k | 0 < k < |s| && Parent(k) == p && 0 < p ensures Leq(compare, s'[k], s'[Parent(p)]) {
      assert Below(s, compare, p);
      if k != i { assert Below(s, compare, k); }
    }
  }

  lemma DownStep(s: seq<Elem>, compare: Compare, i: nat, c: nat)
    requires Orders(compare) && 0 < c < |s| && Parent(c) == i && OrderedButDown(s, compare, i) && !Leq(compare, s[c], s[i])
    requires forall k :: 0 < k < |s| && Parent(k) == i ==> Leq(compare, s[k], s[c])
    ensures OrderedButDown(Swapped(s, i, c), compare, c)
  {
    var s' := Swapped(s, i, c);
    forall k | 0 < k < |s| && Parent(k) != c ensures Below(s', compare, k) {
      if Parent(k) != i { assert Below(s, compare, k); }
    }
    forall k | 0 < k < |s| && Parent(k) == c ensures Leq(compare, s'[k], s'[Parent(c)]) {
      assert Below(s, compare, k);
    }
  }

  lemma UpDone(s: seq<Elem>, compare: Compare, i: nat)
    requires OrderedButUp(s, compare, i) && (0 < i < |s| ==> Below(s, compare, i))
    ensures HeapOrdered(s, compare)
  {}

  lemma DownDone(s: seq<Elem>, compare: Compare, i: nat)
    requires OrderedButDown(s, compare, i) && forall k :: 0 < k < |s| && Parent(k) == i ==> Below(s, compare, k)
    ensures HeapOrdered(s, compare)
  {}

  // ---------- removal ----------

  /** The last element takes the place of element `i`. */
  function Replaced(s: seq<Elem>, i: nat): seq<Elem>
    requires i < |s|
  {
    Swapped(s, i, |s| - 1)[..|s| - 1]
  }

  lemma ReplacedPermutes(s: seq<Elem>, i: nat)
    requires i < |s|
    ensures multiset(Replaced(s, i)) + multiset{s[i]} == multiset(s)
  {
    SwappedPermutes(s, i, |s| - 1);
    var swapped := Swapped(s, i, |s| - 1);
    assert swapped == swapped[..|s| - 1] + [s[i]];
  }

  lemma ChildrenBelowParent(s: seq<Elem>, compare: Compare, i: nat, k: nat)
    requires Orders(compare) && HeapOrdered(s, compare) && 0 < i && 0 < k < |s| && Parent(k) == i
    ensures Leq(compare, s[k], s[Parent(i)])
  {
    assert Below(s, compare, k) && Below(s, compare, i);
  }

  /** Whatever comes to `i`, its children are below its parent, so that one direction is enough. */
  lemma ReplacedOrder(s: seq<Elem>, compare: Compare, i: nat)
    requires Orders(compare) && HeapOrdered(s, compare) && i < |s| - 1
    ensures var r := Replaced(s, i);
            if i > 0 && !Leq(compare, r[i], r[Parent(i)]) then OrderedButUp(r, compare, i) else OrderedButDown(r, compare, i)
  {
    var r := Replaced(s, i);
    forall k | 0 < k < |r| && k != i && Parent(k) != i ensures Below(r, compare, k) {
      assert Below(s, compare, k);
    }
    forall k | 0 < k < |r| && Parent(k) == i && 0 < i ensures Leq(compare, r[k], r[Parent(i)]) {
      ChildrenBelowParent(s, compare, i, k);
    }
    if i > 0 && !Leq(compare, r[i], r[Parent(i)]) {
      forall k | 0 < k < |r| && Parent(k) == i ensures Below(r, compare, k) {
        ChildrenBelowParent(s, compare, i, k);
      }
    }
  }

  // ---------- the heap ----------

  /** The first element, in the order of the array, for which is_match answers 0. */
  predicate FirstMatch(s: seq<Elem>, isMatch: Elem -> int, i: nat) {
    i < |s| && isMatch(s[i]) == 0 && forall j :: 0 <= j < i ==> isMatch(s[j]) != 0
  }

  ghost predicate Without(s: seq<Elem>, x: Elem, s': seq<Elem>) {
    multiset(s') + multiset{x} == multiset(s)
  }

  class Heap {
    const compare: Compare
    const vector: Vector

    ghost predicate Valid()
      reads vector, vector.buffer
    {
      vector.Valid() && Orders(compare) && HeapOrdered(vector.Contents(), compare)
    }

    ghost function Contents(): seq<Elem>
      requires vector.Valid()
      reads vector, vector.buffer
    {
      vector.Contents()
    }

    constructor (compare: Compare)
      requires Orders(compare)
      ensures Valid() && fresh(vector) && fresh(vector.buffer) && Contents() == [] && this.compare == compare
    {
      this.compare := compare;
      vector := new Vector(128);
    }

    function GetElem(i: nat): (x: Elem)
      requires vector.Valid() && i < vector.size
      reads vector, vector.buffer
      ensures x == Contents()[i]
    {
      vector.buffer[i]
    }

    method SwapElem(i: nat, j: nat)
      requires vector.Valid() && i < vector.size && j < vector.size
      modifies vector.buffer
      ensures Contents() == Swapped(old(Contents()), i, j) && multiset(Contents()) == multiset(old(Contents()))
    {
      SwappedPermutes(Contents(), i, j);
      var temp := GetElem(i);
      vector.buffer[i] := GetElem(j);
      vector.buffer[j] := temp;
      assert Contents() == Swapped(old(Contents()), i, j);
    }

    /** An element too large for its place rises. */
    method HeapifyUp(start: nat)
      requires vector.Valid() && Orders(compare) && start < vector.size && OrderedButUp(Contents(), compare, start)
      modifies vector.buffer
      ensures HeapOrdered(Contents(), compare) && multiset(Contents()) == multiset(old(Contents()))
    {
      var idx: nat := start;
      while idx > 0
        invariant idx < vector.size && OrderedButUp(Contents(), compare, idx)
        invariant multiset(Contents()) == multiset(old(Contents()))
      {
        var parent := Parent(idx);
        if compare(GetElem(idx), GetElem(parent)) > 0 {
          UpStep(Contents(), compare, idx);
          SwapElem(idx, parent);
          idx := parent;
        } else {
          UpDone(Contents(), compare, idx);
          return;
        }
      }
    }

    /** The larger child of an inner node. */
    method LargerChild(i: nat) returns (c: nat)
      requires vector.Valid() && Orders(compare) && 2 * i + 1 < vector.size
      ensures 0 < c < vector.size && Parent(c) == i
      ensures forall k :: 0 < k < vector.size && Parent(k) == i ==> Leq(compare, Contents()[k], Contents()[c])
    {
      var left, right := 2 * i + 1, 2 * i + 2;
      ghost var s := Contents();
      assert forall k :: 0 < k < vector.size && Parent(k) == i ==> k == left || k == right;
      if right >= vector.size {
        c := left;
      } else if compare(GetElem(right), GetElem(left)) > 0 {
        assert !Leq(compare, s[right], s[left]);
        c := right;
      } else {
        assert Leq(compare, s[right], s[left]);
        c := left;
      }
    }

    /** An element too small for its place sinks. */
    method HeapifyDown(start: nat)
      requires vector.Valid() && Orders(compare) && start < vector.size && OrderedButDown(Contents(), compare, start)
      modifies vector.buffer
      ensures HeapOrdered(Contents(), compare) && multiset(Contents()) == multiset(old(Contents()))
    {
      var idx := start;
      while 2 * idx + 1 < vector.size
        invariant idx < vector.size && OrderedButDown(Contents(), compare, idx)
        invariant multiset(Contents()) == multiset(old(Contents()))
        decreases vector.size - idx
      {
        var child := LargerChild(idx);
        if compare(GetElem(child), GetElem(idx)) > 0 {
          DownStep(Contents(), compare, idx, child);
          SwapElem(idx, child);
          idx := child;
        } else {
          SmallEnough(Contents(), compare, idx, child);
          return;
        }
      }
      DownDone(Contents(), compare, idx);
    }

    method HeapPush(x: Elem)
      requires Valid()
      modifies vector, vector.buffer
      ensures Valid() && (vector.buffer == old(vector.buffer) || fresh(vector.buffer))
      ensures multiset(Contents()) == multiset(old(Contents())) + multiset{x}
    {
      ghost var s := Contents();
      vector.VectorPushBack(x);
      PushedOrder(s, compare, x);
      HeapifyUp(vector.size - 1);
    }

    function HeapPeek(): (x: Elem)
      requires Valid() && vector.size > 0
      reads vector, vector.buffer
      ensures x in Contents() && forall y :: y in Contents() ==> Leq(compare, y, x)
      ensures forall y :: y in Contents() ==> compare(y, x) <= 0
    {
      LargestFirst(Contents(), compare);
      GetElem(0)
    }

    method HeapPop()
      requires Valid() && vector.size > 0
      modifies vector, vector.buffer
      ensures Valid() && (vector.buffer == old(vector.buffer) || fresh(vector.buffer))
      ensures Without(old(Contents()), old(HeapPeek()), Contents())
    {
      ghost var s := Contents();
      ReplacedPermutes(s, 0);
      SwapElem(0, vector.size - 1);
      vector.VectorPopBack();
      assert Contents() == Replaced(s, 0);
      if vector.size > 0 {
        ReplacedOrder(s, compare, 0);
        HeapifyDown(0);
      }
    }

    /** Element `i` out and the last one, if it is another, in its place. */
    method ReplaceByLast(i: nat)
      requires vector.Valid() && i < vector.size
      modifies vector, vector.buffer
      ensures vector.Valid() && (vector.buffer == old(vector.buffer) || fresh(vector.buffer))
      ensures Contents() == Replaced(old(Contents()), i)
    {
      if i < vector.size - 1 {
        SwapElem(i, vector.size - 1);
      }
      vector.VectorPopBack();
    }

    /** One decision, which way the element that came to `i` goes. */
    method RemoveAt(i: nat)
      requires Valid() && i < vector.size
      modifies vector, vector.buffer
      ensures Valid() && (vector.buffer == old(vector.buffer) || fresh(vector.buffer))
      ensures Without(old(Contents()), old(Contents())[i], Contents())
    {
      ghost var s := Contents();
      ReplacedPermutes(s, i);
      ReplaceByLast(i);
      if i == vector.size {
        PrefixOrdered(s, compare, i);
        assert Contents() == s[..i];
        return;
      }
      ReplacedOrder(s, compare, i);
      if i > 0 && compare(GetElem(i), GetElem(Parent(i))) > 0 {
        HeapifyUp(i);
      } else {
        HeapifyDown(i);
      }
    }

    method HeapRemove(isMatch: Elem -> int) returns (removed: Option<Elem>)
      requires Valid()
      modifies vector, vector.buffer
      ensures Valid() && (vector.buffer == old(vector.buffer) || fresh(vector.buffer))
      ensures removed.None? <==> forall k :: 0 <= k < |old(Contents())| ==> isMatch(old(Contents())[k]) != 0
      ensures removed.None? ==> Contents() == old(Contents())
      ensures removed.Some? ==> Without(old(Contents()), removed.value, Contents())
      ensures removed.Some? ==> exists i: nat :: FirstMatch(old(Contents()), isMatch, i) && removed.value == old(Contents())[i]
    {
      ghost var s := Contents();
      for i := 0 to vector.size
        invariant vector.size == old(vector.size) && vector.buffer == old(vector.buffer) && Valid() && Contents() == s
        invariant forall j :: 0 <= j < i ==> isMatch(s[j]) != 0
      {
        if isMatch(GetElem(i)) == 0 {
          assert FirstMatch(s, isMatch, i);
          removed := Some(GetElem(i));
          RemoveAt(i);
          return;
        }
      }
      removed := None;
    }
  }

  lemma PrefixOrdered(s: seq<Elem>, compare: Compare, n: nat)
    requires HeapOrdered(s, compare) && n <= |s|
    ensures HeapOrdered(s[..n], compare)
  {
    forall k | 0 < k < n ensures Below(s[..n], compare, k) {
      assert Below(s, compare, k);
    }
  }

  lemma SmallEnough(s: seq<Elem>, compare: Compare, i: nat, c: nat)
    requires Orders(compare) && OrderedButDown(s, compare, i) && i < |s| && c < |s| && Leq(compare, s[c], s[i])
    requires forall k :: 0 < k < |s| && Parent(k) == i ==> Leq(compare, s[k], s[c])
    ensures HeapOrdered(s, compare)
  {
    forall k | 0 < k < |s| && Parent(k) == i ensures Below(s, compare, k) {
      assert Leq(compare, s[k], s[c]);
    }
  }

  lemma PushedOrder(s: seq<Elem>, compare: Compare, x: Elem)
    requires HeapOrdered(s, compare)
    ensures OrderedButUp(s + [x], compare, |s|)
  {
    forall k | 0 < k < |s| ensures Below(s + [x], compare, k) {
      assert Below(s, compare, k);
    }
  }

  lemma LargestFirst(s: seq<Elem>, compare: Compare)
    requires Orders(compare) && HeapOrdered(s, compare)
    ensures forall y :: y in s ==> Leq(compare, y, s[0])
  {
    forall y | y in s ensures Leq(compare, y, s[0]) {
      var k :| 0 <= k < |s| && s[k] == y;
      RootIsLargest(s, compare, k);
    }
  }

  // ---------- the priority queue ----------

  predicate NonIncreasing(s: seq<Elem>, compare: Compare) {
    forall i, j :: 0 <= i < j < |s| ==> Leq(compare, s[j], s[i])
  }

  class PQ {
    const heap: Heap

    ghost predicate Valid()
      reads heap.vector, heap.vector.buffer
    {
      heap.Valid()
    }

    constructor (compare: Compare)
      requires Orders(compare)
      ensures Valid() && fresh(heap) && fresh(heap.vector) && fresh(heap.vector.buffer) && heap.Contents() == []
    {
      heap := new Heap(compare);
    }

    method PQEnqueue(x: Elem)
      requires Valid()
      modifies heap.vector, heap.vector.buffer
      ensures Valid() && (heap.vector.buffer == old(heap.vector.buffer) || fresh(heap.vector.buffer))
      ensures multiset(heap.Contents()) == multiset(old(heap.Contents())) + multiset{x}
    {
      heap.HeapPush(x);
    }

    /** A largest element leaves. */
    method PQDequeue() returns (x: Elem)
      requires Valid() && heap.vector.size > 0
      modifies heap.vector, heap.vector.buffer
      ensures Valid() && (heap.vector.buffer == old(heap.vector.buffer) || fresh(heap.vector.buffer))
      ensures Without(old(heap.Contents()), x, heap.Contents())
      ensures forall y :: y in old(heap.Contents()) ==> Leq(heap.compare, y, x) && heap.compare(y, x) <= 0
    {
      x := heap.HeapPeek();
      heap.HeapPop();
    }

    /** Emptying it takes the elements out from the largest to the smallest. */
    method PQClear() returns (ghost order: seq<Elem>)
      requires Valid()
      modifies heap.vector, heap.vector.buffer
      ensures Valid() && heap.Contents() == []
      ensures NonIncreasing(order, heap.compare) && multiset(order) == multiset(old(heap.Contents()))
    {
      order := [];
      while heap.vector.size > 0
        invariant Valid() && (heap.vector.buffer == old(heap.vector.buffer) || fresh(heap.vector.buffer))
        invariant Drained(old(heap.Contents()), order, heap.Contents(), heap.compare)
        decreases heap.vector.size
      {
        ghost var rest := heap.Contents();
        var x := PQDequeue();
        DrainedMore(old(heap.Contents()), order, rest, x, heap.Contents(), heap.compare);
        order := order + [x];
      }
    }
  }

  /** `order` has left `s`, largest first, and `rest` is still there. */
  ghost predicate Drained(s: seq<Elem>, order: seq<Elem>, rest: seq<Elem>, compare: Compare) {
    && NonIncreasing(order, compare) && multiset(order) + multiset(rest) == multiset(s)
    && forall i, y :: 0 <= i < |order| && y in rest ==> Leq(compare, y, order[i])
  }

  lemma DrainedMore(s: seq<Elem>, order: seq<Elem>, rest: seq<Elem>, x: Elem, rest': seq<Elem>, compare: Compare)
    requires Orders(compare) && Drained(s, order, rest, compare) && Without(rest, x, rest')
    requires forall y :: y in rest ==> Leq(compare, y, x)
    ensures Drained(s, order + [x], rest', compare) && |rest'| < |rest|
  {
    assert x in multiset(rest) && x in rest;
    forall y | y in rest' ensures y in rest {
      assert y in multiset(rest') && y in multiset(rest);
    }
    var longer := order + [x];
    forall i, j | 0 <= i < j < |longer| ensures Leq(compare, longer[j], longer[i]) {
      if j < |order| { assert longer[i] == order[i] && longer[j] == order[j]; }
    }
    assert |multiset(rest')| + 1 == |multiset(rest)|;
    assert multiset(longer) + multiset(rest') == multiset(order) + (multiset(rest') + multiset{x});
  }
}
