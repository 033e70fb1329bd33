/** The growing array (ds/src/vector.c). */
module Vectors {

  /** A pointer, told apart by `id`, and the value behind it by which it is compared. */
  datatype Elem = Elem(id: nat, value: int)

  const DEFAULT_CAPACITY: nat := 8
  const GROWTH_FACTOR: nat := 2
  const SHRINK_THRESHOLD_DIVISOR: nat := 4

  function AtLeastDefault(capacity: nat): nat { if capacity < DEFAULT_CAPACITY then DEFAULT_CAPACITY else capacity }

  class Vector {
    var size: nat
    var capacity: nat
    var buffer: array<Elem>

    ghost predicate Valid()
      reads this
    {
      size <= capacity == buffer.Length && DEFAULT_CAPACITY <= capacity
    }

    ghost function Contents(): seq<Elem>
      requires Valid()
      reads this, buffer
    {
      buffer[..size]
    }

    constructor (initCapacity: nat)
      ensures Valid() && fresh(buffer) && Contents() == []
      ensures capacity == AtLeastDefault(initCapacity)
    {
      var wanted := AtLeastDefault(initCapacity);
      size, capacity := 0, wanted;
      buffer := new Elem[wanted];
    }

    /** realloc: the elements that fit move to a buffer of the new size. A capacity below the size
        leaves a vector whose size is beyond its buffer. */
    method VectorReserve(newCapacity: nat)
      requires size <= buffer.Length
      modifies this`capacity, this`buffer
      ensures capacity == buffer.Length == AtLeastDefault(newCapacity) && fresh(buffer)
      ensures forall i :: 0 <= i < size && i < capacity ==> buffer[i] == old(buffer[i])
      ensures Valid() <==> size <= AtLeastDefault(newCapacity)
      ensures size <= AtLeastDefault(newCapacity) ==> Contents() == old(buffer[..size])
    {
      var wanted := AtLeastDefault(newCapacity);
      var moved := if size < wanted then size else wanted;
      var bigger := new Elem[wanted];
      for i := 0 to moved
        invariant buffer == old(buffer) && forall j :: 0 <= j < i ==> bigger[j] == buffer[j]
      {
        bigger[i] := buffer[i];
      }
      buffer := bigger;
      capacity := wanted;
    }

    method VectorPushBack(element: Elem)
      requires Valid()
      modifies this, buffer
      ensures Valid() && (buffer == old(buffer) || fresh(buffer)) && Contents() == old(Contents()) + [element]
      ensures capacity == if old(size) == old(capacity) then GROWTH_FACTOR * old(capacity) else old(capacity)
    {
      if size == capacity {
        capacity := capacity * GROWTH_FACTOR;
        VectorReserve(capacity);
      }
      buffer[size] := element;
      size := size + 1;
    }

    method VectorPopBack()
      requires Valid() && size > 0
      modifies this
      ensures Valid() && (buffer == old(buffer) || fresh(buffer)) && Contents() == old(Contents())[..old(size) - 1]
      ensures capacity == if old(capacity) / SHRINK_THRESHOLD_DIVISOR == old(size) then AtLeastDefault(old(capacity) / GROWTH_FACTOR) else old(capacity)
    {
      if capacity / SHRINK_THRESHOLD_DIVISOR == size {
        capacity := capacity / GROWTH_FACTOR;
        VectorReserve(capacity);
      }
      size := size - 1;
    }
  }
}
