/** The bounded stack under the calculator (ds/src/stack.c). */
module Stacks {

  class Stack<T(0)> {
    const elements: array<T>
    var top: nat
    const capacity: nat

    ghost predicate Valid()
      reads this
    {
      elements.Length == capacity && top <= capacity
    }

    /** Bottom first. */
    ghost function Contents(): (s: seq<T>)
      requires Valid()
      reads this, elements
      ensures |s| == top
    {
      elements[..top]
    }

    constructor (capacity: nat)
      ensures Valid() && fresh(elements) && this.capacity == capacity && Contents() == []
    {
      this.capacity := capacity;
      elements := new T[capacity];
      top := 0;
    }

    method Push(element: T)
      requires Valid() && top < capacity
      modifies this`top, elements
      ensures Valid()
      ensures Contents() == old(Contents()) + [element]
    {
      elements[top] := element;
      top := top + 1;
    }

    method Pop()
      requires Valid() && top > 0
      modifies this`top
      ensures Valid() && Contents() == old(Contents())[..old(top) - 1]
    {
      top := top - 1;
    }

    method Peek() returns (element: T)
      requires Valid() && top > 0
      ensures element == Contents()[top - 1]
    {
      element := elements[top - 1];
    }

    method IsEmpty() returns (empty: bool)
      requires Valid()
      ensures empty <==> Contents() == []
    {
      empty := top == 0;
    }

    method Size() returns (size: nat)
      requires Valid()
      ensures size == |Contents()|
    {
      size := top;
    }
  }
}
