/**
 * The growable array of developer records: capacity doubles when an insert
 * finds it full; the records can be sorted in place by salary.
 */
module DynamicArrays {
  import opened DeveloperRecords
  import SalarySort

  /** The capacity after addDeveloper's growth check, as written: doubling. */
  function GrownCapacity(size: int, capacity: int): int
  {
    if size >= capacity then capacity * 2 else capacity
  }

  /** As written, an array created with capacity 0 stays at capacity 0: the growth check makes no room for the record. */
  lemma ZeroCapacityLeavesNoRoom()
    ensures GrownCapacity(0, 0) == 0
  {
  }

  /** From a capacity of at least 1, the growth check always leaves room for one more record. */
  lemma GrowthLeavesRoom(size: int, capacity: int)
    requires 1 <= capacity && 0 <= size <= capacity
    ensures size < GrownCapacity(size, capacity)
    ensures GrownCapacity(size, capacity) <= 2 * capacity
  {
  }

  class DynamicArray {
    var developers: array<Developer>
    var capacity: int
    var size: int

    /** `capacity` is the length of the buffer, at least 1, and holds the `size` records in use. */
    ghost predicate Valid()
      reads this
    {
      capacity == developers.Length && 1 <= capacity && 0 <= size <= capacity
    }

    /** The records in use. */
    ghost function Contents(): seq<Developer>
      reads this, developers
      requires Valid()
    {
      developers[..size]
    }

    /** createDynamicArray, for a positive initial capacity. */
    constructor (initialCapacity: int)
      requires initialCapacity >= 1
      ensures Valid() && fresh(developers)
      ensures capacity == initialCapacity && Contents() == []
    {
      developers := new Developer[initialCapacity];
      capacity := initialCapacity;
      size := 0;
    }

    /** resizeArray: a buffer twice as large, holding the old buffer's cells at the front. */
    method ResizeArray()
      requires Valid()
      modifies this
      ensures Valid() && fresh(developers)
      ensures capacity == 2 * old(capacity) && size == old(size)
      ensures developers[..old(capacity)] == old(developers[..])
      ensures Contents() == old(Contents())
    {
      var newCapacity := capacity * 2;
      var newArray := new Developer[newCapacity];
      forall k | 0 <= k < capacity {
        newArray[k] := developers[k];
      }
      developers := newArray;
      capacity := newCapacity;
    }

    /** addDeveloper: grows when full, then appends. */
    method AddDeveloper(dev: Developer)
      requires Valid()
      modifies this, developers
      ensures Valid()
      ensures Contents() == old(Contents()) + [dev]
      ensures size == old(size) + 1
      ensures capacity == GrownCapacity(old(size), old(capacity))
      ensures developers == old(developers) || fresh(developers)
    {
      GrowthLeavesRoom(size, capacity);
      if size >= capacity {
        ResizeArray();
      }
      developers[size] := dev;
      size := size + 1;
    }

    /** sortDevelopersBySalary: the records in use end sorted, highest salary first. */
    method SortDevelopersBySalary()
      requires Valid()
      modifies developers
      ensures Valid()
      ensures SalarySort.SortedBySalary(Contents())
      ensures multiset(Contents()) == multiset(old(Contents()))
      ensures developers[size..] == old(developers[size..])
    {
      if size > 1 {
        SalarySort.QuickSort(developers, 0, size - 1);
        assert developers[size..] == old(developers[size..]) by {
          assert forall k :: size <= k < developers.Length ==> developers[k] == old(developers[k]);
        }
      }
    }
  }
}
