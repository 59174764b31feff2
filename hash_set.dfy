/**
 * HashSet of include/set.hpp: a set of keys kept as the keys of an owned
 * HashTable<T, bool>.  Every operation delegates to the table; the set's
 * abstract value is the table's set of keys present.
 */
module HashSets {
  import opened HashTables
  import opened HashTableIterators

  /** The capacity HashSet() starts with. */
  const DefaultCapacity: nat := 4

  class HashSet<T(==, !new)> {
    const table: HashTable<T, bool>

    ghost predicate Valid()
      reads this, table
    {
      table.Valid()
    }

    /** The keys in the set. */
    ghost function Contents(): set<T>
      reads this, table
    {
      table.Contents
    }

    /** HashSet(initial_capacity): an empty set over a fresh table. */
    constructor (initialCapacity: nat, hash: T -> nat)
      requires initialCapacity > 0
      ensures Valid() && fresh(table)
      ensures Contents() == {} && table.capacity == initialCapacity
    {
      table := new HashTable(initialCapacity, hash);
    }

    /** HashSet(): an empty set with the default capacity. */
    constructor WithDefaultCapacity(hash: T -> nat)
      ensures Valid() && fresh(table)
      ensures Contents() == {} && table.capacity == DefaultCapacity
    {
      table := new HashTable(DefaultCapacity, hash);
    }

    /** insert: the key is in the set afterwards, and nothing else changes. */
    method Insert(key: T)
      requires Valid()
      modifies table
      ensures Valid()
      ensures Contents() == old(Contents()) + {key}
    {
      table.Insert(key, true);
    }

    method Contains(key: T) returns (r: bool)
      requires Valid()
      ensures r <==> key in Contents()
    {
      r := table.Contains(key);
    }

    /** remove: drops a present key; an absent key is reported and nothing changes. */
    method Remove(key: T) returns (r: Outcome)
      requires Valid()
      modifies table
      ensures Valid()
      ensures key !in old(Contents()) ==> r == Failed(KeyNotFound) && Contents() == old(Contents())
      ensures key in old(Contents()) ==> r == Done && Contents() == old(Contents()) - {key}
    {
      r := table.Remove(key);
    }

    /** size: the number of distinct keys present. */
    method Size() returns (n: nat)
      requires Valid()
      ensures n == |Contents()|
    {
      n := table.Size();
    }

    /** begin / cbegin: an iterator at the first occupied slot of the table. */
    method Begin() returns (it: HashTableIterator<T, bool>)
      requires Valid()
      ensures fresh(it) && it.hashTable == table && it.AtSlotOrEnd()
      ensures (it.bucketIndex, it.nodeIndex) == NextValid(table.table, 0, 0)
    {
      it := new HashTableIterator(table, 0, 0);
    }

    /** end / cend: the iterator at (capacity, 0). */
    method End() returns (it: HashTableIterator<T, bool>)
      requires Valid()
      ensures fresh(it) && it.hashTable == table
      ensures it.bucketIndex == table.capacity && it.nodeIndex == 0
    {
      it := HashTableIterator.End(table);
    }
  }

  /** One step of the loop: `*it`, then `++it`. */
  method ReadAndAdvance<T(==, !new)>(it: HashTableIterator<T, bool>) returns (key: T)
    requires it.AtSlotOrEnd() && it.bucketIndex < it.hashTable.capacity
    modifies it
    ensures it.AtSlotOrEnd()
    ensures var table := it.hashTable.table;
      KeysAt(table, OccupiedFrom(table, old(it.bucketIndex), old(it.nodeIndex)))
        == [key] + KeysAt(table, OccupiedFrom(table, it.bucketIndex, it.nodeIndex))
  {
    var r := it.Deref();
    key := r.value.0;
    ghost var rest := OccupiedFrom(it.hashTable.table, it.bucketIndex, it.nodeIndex);
    it.Increment();
    KeysAtCons(it.hashTable.table, rest);
  }

  lemma AppendAssociative<T>(a: seq<T>, b: seq<T>, c: seq<T>)
    ensures a + (b + c) == (a + b) + c
  {
  }

  /**
   * The loop `for (; it != end; ++it)`, collecting the key each step
   * dereferences: it reads off, in order, the keys of exactly the occupied
   * slots from the iterator's position on.
   */
  method WalkToEnd<T(==, !new)>(it: HashTableIterator<T, bool>, end: HashTableIterator<T, bool>) returns (keys: seq<T>)
    requires it.AtSlotOrEnd() && it != end
    requires end.hashTable == it.hashTable && end.bucketIndex == it.hashTable.capacity && end.nodeIndex == 0
    modifies it
    ensures keys == KeysAt(it.hashTable.table, OccupiedFrom(it.hashTable.table, old(it.bucketIndex), old(it.nodeIndex)))
  {
    ghost var table := it.hashTable.table;
    ghost var all := KeysAt(table, OccupiedFrom(table, it.bucketIndex, it.nodeIndex));
    keys := [];
    while !it.Equals(end)
      invariant it.AtSlotOrEnd()
      invariant keys + KeysAt(table, OccupiedFrom(table, it.bucketIndex, it.nodeIndex)) == all
      decreases |KeysAt(table, OccupiedFrom(table, it.bucketIndex, it.nodeIndex))|
    {
      ghost var before := KeysAt(table, OccupiedFrom(table, it.bucketIndex, it.nodeIndex));
      var key := ReadAndAdvance(it);
      ghost var after := KeysAt(table, OccupiedFrom(table, it.bucketIndex, it.nodeIndex));
      AppendAssociative(keys, [key], after);
      keys := keys + [key];
    }
  }

  /**
   * Iterating a set from begin() to end() meets every key exactly once, so it
   * takes size() steps.
   */
  method IterateKeys<T(==, !new)>(s: HashSet<T>) returns (keys: seq<T>)
    requires s.Valid()
    ensures Distinct(keys)
    ensures forall k :: k in keys <==> k in s.Contents()
    ensures |keys| == |s.Contents()|
  {
    var it := s.Begin();
    var end := s.End();
    keys := WalkToEnd(it, end);
    OccupiedFromNextValid(s.table.table, 0, 0);
    ScanMeetsEveryKeyOnce(s.table.table, s.table.Contents);
  }
}
