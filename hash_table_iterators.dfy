/**
 * HashTableIterator of include/hash_table_iterators.hpp: a cursor
 * (bucketIndex, nodeIndex) into a hash table that always rests on an
 * occupied slot or on the end sentinel (capacity, 0).
 *
 * ConstHashTableIterator has the same fields, scan, dereference and
 * equality; it differs only in the constness of the table it points to, so
 * this one class stands for both.
 */
module HashTableIterators {
  import opened HashTables

  datatype IteratorError = IteratorOutOfRange  // std::runtime_error("Iterator is out of range")

  datatype Result<T> = Ok(value: T) | Err(error: IteratorError)

  class HashTableIterator<K(==, !new), V> {
    const hashTable: HashTable<K, V>
    var bucketIndex: nat
    var nodeIndex: nat

    /** One bucket per unit of capacity: what findNextValid indexes by. */
    ghost predicate TableShaped()
      reads hashTable
    {
      |hashTable.table| == hashTable.capacity
    }

    /** Resting on an occupied slot, or on the end sentinel. */
    ghost predicate AtSlotOrEnd()
      reads this, hashTable
    {
      && TableShaped()
      && (IsOccupied(hashTable.table, bucketIndex, nodeIndex) || (bucketIndex == hashTable.capacity && nodeIndex == 0))
    }

    /** findNextValid: moves forward, bucket-major, to the first occupied slot or to the end. */
    method FindNextValid()
      requires TableShaped()
      modifies this
      ensures (bucketIndex, nodeIndex) == NextValid(hashTable.table, old(bucketIndex), old(nodeIndex))
    {
      while bucketIndex < hashTable.capacity
        invariant NextValid(hashTable.table, bucketIndex, nodeIndex) == NextValid(hashTable.table, old(bucketIndex), old(nodeIndex))
        decreases hashTable.capacity - bucketIndex
      {
        while nodeIndex < |hashTable.table[bucketIndex]|
          invariant bucketIndex < hashTable.capacity
          invariant NextValid(hashTable.table, bucketIndex, nodeIndex) == NextValid(hashTable.table, old(bucketIndex), old(nodeIndex))
          decreases |hashTable.table[bucketIndex]| - nodeIndex
          modifies `nodeIndex
        {
          if hashTable.table[bucketIndex][nodeIndex].isOccupied {
            return;
          }
          nodeIndex := nodeIndex + 1;
        }
        bucketIndex := bucketIndex + 1;
        nodeIndex := 0;
      }
    }

    /** The constructor: starts at (bucket, node) and moves to the next valid slot. */
    constructor (table: HashTable<K, V>, bucket: nat, node: nat)
      requires |table.table| == table.capacity
      ensures hashTable == table
      ensures (bucketIndex, nodeIndex) == NextValid(table.table, bucket, node)
      ensures bucket < table.capacity ==> AtSlotOrEnd()
    {
      hashTable := table;
      bucketIndex := bucket;
      nodeIndex := node;
      new;
      FindNextValid();
    }

    /** end(): the iterator at (capacity, 0). */
    static method End(table: HashTable<K, V>) returns (it: HashTableIterator<K, V>)
      requires |table.table| == table.capacity
      ensures fresh(it) && it.hashTable == table
      ensures it.bucketIndex == table.capacity && it.nodeIndex == 0 && it.AtSlotOrEnd()
    {
      it := new HashTableIterator(table, table.capacity, 0);
    }

    /**
     * operator*: the key and value of the current slot, or
     * IteratorOutOfRange anywhere at or past the end bucket.  Below the end
     * the cursor must name a slot of its bucket, as every position the
     * constructor and operator++ reach does.
     */
    method Deref() returns (r: Result<(K, V)>)
      requires TableShaped()
      requires bucketIndex < hashTable.capacity ==> nodeIndex < |hashTable.table[bucketIndex]|
      ensures r.Err? <==> bucketIndex >= hashTable.capacity
      ensures r.Err? ==> r.error == IteratorOutOfRange
      ensures r.Ok? ==> r.value == (hashTable.table[bucketIndex][nodeIndex].key, hashTable.table[bucketIndex][nodeIndex].value)
      ensures AtSlotOrEnd() && r.Ok? ==> IsOccupied(hashTable.table, bucketIndex, nodeIndex)
    {
      if bucketIndex >= hashTable.capacity {
        return Err(IteratorOutOfRange);
      }
      var slot := hashTable.table[bucketIndex][nodeIndex];
      return Ok((slot.key, slot.value));
    }

    /**
     * operator++: steps past the current slot and on to the next valid one.
     * From an occupied slot, the slots still to visit lose exactly the
     * current one.
     */
    method Increment()
      requires TableShaped()
      modifies this
      ensures (bucketIndex, nodeIndex) == NextValid(hashTable.table, old(bucketIndex), old(nodeIndex) + 1)
      ensures old(bucketIndex) < hashTable.capacity ==> AtSlotOrEnd()
      ensures old(IsOccupied(hashTable.table, bucketIndex, nodeIndex)) ==>
        OccupiedFrom(hashTable.table, old(bucketIndex), old(nodeIndex))
          == [(old(bucketIndex), old(nodeIndex))] + OccupiedFrom(hashTable.table, bucketIndex, nodeIndex)
    {
      OccupiedFromNextValid(hashTable.table, bucketIndex, nodeIndex + 1);
      nodeIndex := nodeIndex + 1;
      FindNextValid();
    }

    /** operator==: the same table and the same position. */
    predicate Equals(other: HashTableIterator<K, V>)
      reads this, other
    {
      hashTable == other.hashTable && bucketIndex == other.bucketIndex && nodeIndex == other.nodeIndex
    }
  }

  /**
   * The loop test `it != end`: an iterator resting on a slot or on the end
   * equals end() on its own table exactly when no occupied slot is left to
   * visit.
   */
  lemma EqualsEndIffExhausted<K(!new), V>(it: HashTableIterator<K, V>, end: HashTableIterator<K, V>)
    requires it.AtSlotOrEnd()
    requires end.hashTable == it.hashTable && end.bucketIndex == it.hashTable.capacity && end.nodeIndex == 0
    ensures it.Equals(end) <==> OccupiedFrom(it.hashTable.table, it.bucketIndex, it.nodeIndex) == []
  {
    var table := it.hashTable.table;
    if !it.Equals(end) {
      assert (it.bucketIndex, it.nodeIndex) in OccupiedFrom(table, it.bucketIndex, it.nodeIndex);
    }
  }
}
