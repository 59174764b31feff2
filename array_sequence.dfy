/**
 * ArraySequence of include/array_sequence.hpp: a growable sequence over an
 * owned buffer `data` with `size` cells in use out of `capacity`.  Errors
 * the source throws are returned as an Outcome or a Result.
 */
module ArraySequences {
  import opened Comparators
  import Sorting

  datatype SequenceError =
    | IndexOutOfRange     // std::out_of_range("Index out of range")
    | ElementNotFound     // std::runtime_error("Element not found")
    | CannotSortThisType  // std::runtime_error("Cannot sort this type")

  /** The result of an operation that returns nothing or throws. */
  datatype Outcome = Done | Failed(error: SequenceError)

  datatype Result<T> = Ok(value: T) | Err(error: SequenceError)

  /**
   * What the compile-time dispatch of sortImpl learns about the element
   * type: an edge type (ordered by its weight), an arithmetic or string type
   * (ordered by its own `<`, given here as `lt`), or anything else.
   */
  datatype ElementKind<!T> =
    | EdgeKind(weight: T -> int)
    | NaturalOrder(lt: (T, T) -> bool)
    | Unsortable

  /** The comparator the default sort() hands to QuickSort, if any. */
  function DefaultLess<T>(kind: ElementKind<T>): (T, T) -> bool
    requires !kind.Unsortable?
  {
    match kind
    case EdgeKind(weight) => (a: T, b: T) => weight(a) < weight(b)
    case NaturalOrder(lt) => lt
  }

  /** Ordering by an integer key is a strict weak order, so edges sort fully by weight. */
  lemma ByWeightIsStrictWeakOrder<T(!new)>(weight: T -> int)
    ensures StrictWeakOrder(DefaultLess(EdgeKind(weight)))
  {
  }

  /**
   * The capacity after Sequence<T>::resize, which is not part of this model:
   * doubling, or 1 from an empty buffer.  Only `> c` is relied upon.
   */
  function GrownCapacity(c: nat): (r: nat)
    ensures r > c
  {
    if c == 0 then 1 else 2 * c
  }

  /** The position of the first occurrence of x in s. */
  function FirstIndexOf<T(==)>(s: seq<T>, x: T): (k: nat)
    requires x in s
    ensures k < |s| && s[k] == x && x !in s[..k]
  {
    if s[0] == x then 0 else 1 + FirstIndexOf(s[1..], x)
  }

  /** An occurrence with none before it is the first occurrence. */
  lemma {:induction false} FirstIndexOfAt<T>(s: seq<T>, x: T, i: nat)
    requires i < |s| && s[i] == x && x !in s[..i]
    ensures FirstIndexOf(s, x) == i
  {
    if i > 0 {
      assert s[..i][0] == s[0];
      assert s[1..][..i - 1] == s[..i][1..];
      FirstIndexOfAt(s[1..], x, i - 1);
    }
  }

  class ArraySequence<T(0, ==, !new)> {
    var data: array<T>
    var size: nat
    var capacity: nat

    ghost predicate Valid()
      reads this
    {
      capacity == data.Length && size <= capacity
    }

    /** The elements in use, in order. */
    ghost function Elements(): seq<T>
      reads this, data
      requires Valid()
    {
      data[..size]
    }

    /** ArraySequence(): an empty sequence with an empty buffer. */
    constructor ()
      ensures Valid() && fresh(data)
      ensures Elements() == [] && capacity == 0
    {
      data := new T[0];
      size := 0;
      capacity := 0;
    }

    /** The copy constructor: a fresh buffer of the same capacity holding the same elements. */
    constructor Copy(other: ArraySequence<T>)
      requires other.Valid()
      ensures Valid() && fresh(data)
      ensures Elements() == other.Elements() && capacity == other.capacity
    {
      var buffer := new T[other.capacity];
      var i := 0;
      while i < other.size
        invariant 0 <= i <= other.size
        invariant buffer[..i] == other.data[..i]
      {
        buffer[i] := other.data[i];
        i := i + 1;
      }
      data := buffer;
      size := other.size;
      capacity := other.capacity;
    }

    /** Copy assignment: a no-op on self-assignment, otherwise a fresh copy of other's buffer. */
    method Assign(other: ArraySequence<T>)
      requires Valid() && other.Valid()
      modifies this
      ensures Valid()
      ensures Elements() == old(other.Elements()) && capacity == old(other.capacity)
      ensures this == other ==> data == old(data)
      ensures this != other ==> fresh(data)
    {
      if this != other {
        var buffer := new T[other.capacity];
        var i := 0;
        while i < other.size
          invariant 0 <= i <= other.size
          invariant buffer[..i] == other.data[..i]
        {
          buffer[i] := other.data[i];
          i := i + 1;
        }
        size := other.size;
        capacity := other.capacity;
        data := buffer;
      }
    }

    /**
     * add: appends; when the buffer is full, first moves the elements in
     * order into a larger fresh buffer.
     */
    method Add(element: T)
      requires Valid()
      modifies this, data
      ensures Valid()
      ensures Elements() == old(Elements()) + [element]
      ensures old(size) < old(capacity) ==> data == old(data) && capacity == old(capacity)
      ensures old(size) == old(capacity) ==> fresh(data) && capacity > old(size)
    {
      if size == capacity {
        var newCapacity := GrownCapacity(capacity);
        var newData := new T[newCapacity];
        var i := 0;
        while i < size
          invariant 0 <= i <= size
          invariant newData[..i] == data[..i]
          modifies newData
        {
          newData[i] := data[i];
          i := i + 1;
        }
        data := newData;
        capacity := newCapacity;
      }
      data[size] := element;
      size := size + 1;
    }

    /** get: the element at index, or IndexOutOfRange. */
    method Get(index: nat) returns (r: Result<T>)
      requires Valid()
      ensures index >= size ==> r == Err(IndexOutOfRange)
      ensures index < size ==> r == Ok(Elements()[index])
    {
      if index >= size {
        return Err(IndexOutOfRange);
      }
      return Ok(data[index]);
    }

    /** Shifts the elements after index one place down and drops the last. */
    method CloseGap(index: nat)
      requires Valid() && index < size
      modifies data, `size
      ensures Valid()
      ensures Elements() == old(Elements())[..index] + old(Elements())[index + 1..]
    {
      var i := index;
      while i < size - 1
        invariant index <= i <= size - 1
        invariant data[..index] == old(data[..index])
        invariant forall k :: index <= k < i ==> data[k] == old(data[k + 1])
        invariant forall k :: i <= k < data.Length ==> data[k] == old(data[k])
        modifies data
      {
        data[i] := data[i + 1];
        i := i + 1;
      }
      size := size - 1;
    }

    /** remove: deletes the element at index, or reports IndexOutOfRange and changes nothing. */
    method Remove(index: nat) returns (r: Outcome)
      requires Valid()
      modifies data, `size
      ensures Valid()
      ensures index >= old(size) ==> r == Failed(IndexOutOfRange) && size == old(size) && data[..] == old(data[..])
      ensures index < old(size) ==> r == Done && size == old(size) - 1
      ensures index < old(size) ==> Elements() == old(Elements())[..index] + old(Elements())[index + 1..]
    {
      if index >= size {
        return Failed(IndexOutOfRange);
      }
      CloseGap(index);
      return Done;
    }

    /** contains: a linear scan for an equal element. */
    method Contains(element: T) returns (r: bool)
      requires Valid()
      ensures r <==> element in Elements()
    {
      var i := 0;
      while i < size
        invariant 0 <= i <= size
        invariant element !in data[..i]
      {
        if data[i] == element {
          assert data[..size][i] == element;
          return true;
        }
        i := i + 1;
      }
      return false;
    }

    /**
     * removeElement: deletes the first element equal to `element`, or
     * reports ElementNotFound and changes nothing.
     */
    method RemoveElement(element: T) returns (r: Outcome)
      requires Valid()
      modifies data, `size
      ensures Valid()
      ensures element !in old(Elements()) ==> r == Failed(ElementNotFound) && size == old(size) && data[..] == old(data[..])
      ensures element in old(Elements()) ==> r == Done
      ensures element in old(Elements()) ==>
        var k := FirstIndexOf(old(Elements()), element);
        Elements() == old(Elements())[..k] + old(Elements())[k + 1..]
    {
      var i := 0;
      while i < size
        invariant 0 <= i <= size
        invariant element !in data[..i]
      {
        if data[i] == element {
          assert data[..size][..i] == data[..i];
          FirstIndexOfAt(data[..size], element, i);
          CloseGap(i);
          return Done;
        }
        i := i + 1;
      }
      return Failed(ElementNotFound);
    }

    /** operator==: equal sizes and pairwise equal elements; capacity is not compared. */
    method Equals(other: ArraySequence<T>) returns (r: bool)
      requires Valid() && other.Valid()
      ensures r <==> Elements() == other.Elements()
    {
      if size != other.size {
        return false;
      }
      var i := 0;
      while i < size
        invariant 0 <= i <= size
        invariant data[..i] == other.data[..i]
      {
        if data[i] != other.data[i] {
          assert Elements()[i] != other.Elements()[i];
          return false;
        }
        i := i + 1;
      }
      return true;
    }

    /** sort(compare): QuickSort over the elements in use. */
    method Sort(less: (T, T) -> bool)
      requires Valid()
      modifies data
      ensures Valid()
      ensures multiset(Elements()) == old(multiset(Elements()))
      ensures Sorting.NoAdjacentInversion(old(Elements()), less) ==> Elements() == old(Elements())
      ensures StrictOrder(less) ==> Sorting.NoAdjacentInversion(Elements(), less)
      ensures StrictWeakOrder(less) ==> Sorting.Sorted(Elements(), less)
    {
      Sorting.Sort(data, size, less);
    }

    /**
     * sort(): the default comparator for the element kind, or
     * CannotSortThisType (leaving the sequence as it was).
     */
    method SortDefault(kind: ElementKind<T>) returns (r: Outcome)
      requires Valid()
      modifies data
      ensures Valid()
      ensures kind.Unsortable? ==> r == Failed(CannotSortThisType) && Elements() == old(Elements())
      ensures !kind.Unsortable? ==> r == Done && multiset(Elements()) == old(multiset(Elements()))
      ensures !kind.Unsortable? && Sorting.NoAdjacentInversion(old(Elements()), DefaultLess(kind)) ==> Elements() == old(Elements())
      ensures !kind.Unsortable? && StrictWeakOrder(DefaultLess(kind)) ==> Sorting.Sorted(Elements(), DefaultLess(kind))
    {
      if kind.Unsortable? {
        return Failed(CannotSortThisType);
      }
      Sort(DefaultLess(kind));
      return Done;
    }
  }
}
