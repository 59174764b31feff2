/**
 * The hash table as its iterators and HashSet see it: `capacity` buckets,
 * each a sequence of slots {key, value, isOccupied}, and a count of live
 * entries.  The iterators of include/hash_table_iterators.hpp scan the
 * buckets bucket-major; the functions here say what that scan finds.
 *
 * hash_table.hpp is not part of this model: insert, contains and remove
 * below follow the documented behaviour of the table (separate chaining,
 * overwrite on a present key, removal marks the slot unoccupied); resizing
 * is left out.
 */
module HashTables {

  datatype Slot<K, V> = Slot(key: K, value: V, isOccupied: bool)

  type Bucket<K, V> = seq<Slot<K, V>>

  /** A cursor position: (bucket index, slot index). */
  type Position = (nat, nat)

  datatype TableError = KeyNotFound

  datatype Outcome = Done | Failed(error: TableError)

  datatype Option<T> = None | Some(value: T)

  /** (b, n) names an occupied slot of the table. */
  predicate IsOccupied<K, V>(table: seq<Bucket<K, V>>, b: nat, n: nat) {
    b < |table| && n < |table[b]| && table[b][n].isOccupied
  }

  /** Bucket-major order on positions. */
  predicate Before(b1: nat, n1: nat, b2: nat, n2: nat) {
    b1 < b2 || (b1 == b2 && n1 < n2)
  }

  /**
   * Where findNextValid stops when started at (b, n): the first occupied
   * slot at or after (b, n), or the end sentinel (|table|, 0).  A start at or
   * beyond the last bucket is left where it is.
   */
  function NextValid<K, V>(table: seq<Bucket<K, V>>, b: nat, n: nat): (p: Position)
    decreases |table| - b, if b < |table| && n < |table[b]| then |table[b]| - n else 0
    ensures |table| <= b ==> p == (b, n)
    ensures b < |table| ==> p == (|table|, 0) || IsOccupied(table, p.0, p.1)
    ensures b < |table| ==> !Before(p.0, p.1, b, n)
    ensures forall b': nat, n': nat :: !Before(b', n', b, n) && Before(b', n', p.0, p.1) ==> !IsOccupied(table, b', n')
  {
    if |table| <= b then (b, n)
    else if n < |table[b]| then
      if table[b][n].isOccupied then (b, n) else NextValid(table, b, n + 1)
    else NextValid(table, b + 1, 0)
  }

  /** The occupied positions at or after (b, n), in bucket-major order. */
  function OccupiedFrom<K, V>(table: seq<Bucket<K, V>>, b: nat, n: nat): (ps: seq<Position>)
    decreases |table| - b, if b < |table| && n < |table[b]| then |table[b]| - n else 0
    ensures forall i :: 0 <= i < |ps| ==> IsOccupied(table, ps[i].0, ps[i].1) && !Before(ps[i].0, ps[i].1, b, n)
    ensures forall i, j :: 0 <= i < j < |ps| ==> Before(ps[i].0, ps[i].1, ps[j].0, ps[j].1)
    ensures forall b': nat, n': nat :: IsOccupied(table, b', n') && !Before(b', n', b, n) ==> (b', n') in ps
  {
    if |table| <= b then []
    else if n < |table[b]| then
      (if table[b][n].isOccupied then [(b, n)] else []) + OccupiedFrom(table, b, n + 1)
    else OccupiedFrom(table, b + 1, 0)
  }

  /** Scanning forward to the next valid slot skips nothing that is still to be visited. */
  lemma {:induction false} OccupiedFromNextValid<K, V>(table: seq<Bucket<K, V>>, b: nat, n: nat)
    ensures var p := NextValid(table, b, n); OccupiedFrom(table, p.0, p.1) == OccupiedFrom(table, b, n)
    decreases |table| - b, if b < |table| && n < |table[b]| then |table[b]| - n else 0
  {
    if |table| <= b {
    } else if n < |table[b]| {
      if !table[b][n].isOccupied {
        OccupiedFromNextValid(table, b, n + 1);
      }
    } else {
      OccupiedFromNextValid(table, b + 1, 0);
    }
  }

  /** The key of every slot named in ps. */
  function KeysAt<K, V>(table: seq<Bucket<K, V>>, ps: seq<Position>): (keys: seq<K>)
    requires forall i :: 0 <= i < |ps| ==> IsOccupied(table, ps[i].0, ps[i].1)
    ensures |keys| == |ps|
  {
    if ps == [] then []
    else
      assert IsOccupied(table, ps[0].0, ps[0].1);
      [table[ps[0].0][ps[0].1].key] + KeysAt(table, ps[1..])
  }

  /** The i-th key read off is the key at the i-th position. */
  lemma {:induction false} KeysAtPointwise<K, V>(table: seq<Bucket<K, V>>, ps: seq<Position>)
    requires forall i :: 0 <= i < |ps| ==> IsOccupied(table, ps[i].0, ps[i].1)
    ensures forall i :: 0 <= i < |ps| ==> KeysAt(table, ps)[i] == table[ps[i].0][ps[i].1].key
  {
    if ps != [] {
      KeysAtPointwise(table, ps[1..]);
    }
  }

  /** Keys are read off positions one at a time. */
  lemma KeysAtCons<K, V>(table: seq<Bucket<K, V>>, ps: seq<Position>)
    requires |ps| > 0 && forall i :: 0 <= i < |ps| ==> IsOccupied(table, ps[i].0, ps[i].1)
    ensures KeysAt(table, ps) == [table[ps[0].0][ps[0].1].key] + KeysAt(table, ps[1..])
  {
  }

  /** Some occupied slot holds key k. */
  ghost predicate HasKey<K, V>(table: seq<Bucket<K, V>>, k: K) {
    exists b: nat, n: nat :: IsOccupied(table, b, n) && table[b][n].key == k
  }

  /** No two occupied slots hold the same key. */
  ghost predicate KeysUnique<K, V>(table: seq<Bucket<K, V>>) {
    forall b1: nat, n1: nat, b2: nat, n2: nat ::
      IsOccupied(table, b1, n1) && IsOccupied(table, b2, n2) && table[b1][n1].key == table[b2][n2].key
      ==> b1 == b2 && n1 == n2
  }

  ghost predicate Distinct<T>(s: seq<T>) {
    forall i, j :: 0 <= i < j < |s| ==> s[i] != s[j]
  }

  lemma {:induction false} DistinctCardinality<T>(s: seq<T>)
    requires Distinct(s)
    ensures |set x | x in s| == |s|
  {
    if s != [] {
      DistinctCardinality(s[1..]);
      assert (set x | x in s) == (set x | x in s[1..]) + {s[0]};
      assert s[0] !in s[1..];
    }
  }

  /** Keys met at distinct positions of a table with unique keys are distinct. */
  lemma ScanKeysDistinct<K, V>(table: seq<Bucket<K, V>>)
    requires KeysUnique(table)
    ensures Distinct(KeysAt(table, OccupiedFrom(table, 0, 0)))
  {
    var ps := OccupiedFrom(table, 0, 0);
    var keys := KeysAt(table, ps);
    KeysAtPointwise(table, ps);
    forall i, j | 0 <= i < j < |keys| ensures keys[i] != keys[j] {
      assert IsOccupied(table, ps[i].0, ps[i].1) && IsOccupied(table, ps[j].0, ps[j].1);
      assert Before(ps[i].0, ps[i].1, ps[j].0, ps[j].1);
    }
  }

  /** A full scan meets exactly the keys present. */
  lemma ScanKeysPresent<K, V>(table: seq<Bucket<K, V>>, k: K)
    ensures k in KeysAt(table, OccupiedFrom(table, 0, 0)) <==> HasKey(table, k)
  {
    var ps := OccupiedFrom(table, 0, 0);
    var keys := KeysAt(table, ps);
    KeysAtPointwise(table, ps);
    if HasKey(table, k) {
      var b: nat, n: nat :| IsOccupied(table, b, n) && table[b][n].key == k;
      assert (b, n) in ps;
      var i :| 0 <= i < |ps| && ps[i] == (b, n);
      assert keys[i] == k;
    }
    if k in keys {
      var i :| 0 <= i < |keys| && keys[i] == k;
      assert IsOccupied(table, ps[i].0, ps[i].1);
    }
  }

  /**
   * A full scan from (0, 0) meets every key of a table with unique keys
   * exactly once: the keys met are distinct, they are exactly the keys
   * present, and there are as many as there are keys.
   */
  lemma ScanMeetsEveryKeyOnce<K(!new), V>(table: seq<Bucket<K, V>>, contents: set<K>)
    requires KeysUnique(table)
    requires forall k :: k in contents <==> HasKey(table, k)
    ensures Distinct(KeysAt(table, OccupiedFrom(table, 0, 0)))
    ensures forall k :: k in KeysAt(table, OccupiedFrom(table, 0, 0)) <==> k in contents
    ensures |OccupiedFrom(table, 0, 0)| == |contents|
  {
    var keys := KeysAt(table, OccupiedFrom(table, 0, 0));
    ScanKeysDistinct(table);
    forall k ensures k in keys <==> k in contents {
      ScanKeysPresent(table, k);
    }
    assert (set x | x in keys) == contents;
    DistinctCardinality(keys);
  }

  /** The slot of bucket holding key, if an occupied one does. */
  function FindInBucket<K(==), V>(bucket: Bucket<K, V>, key: K, from: nat): (r: Option<nat>)
    decreases |bucket| - from
    ensures r.Some? ==> from <= r.value < |bucket| && bucket[r.value].isOccupied && bucket[r.value].key == key
    ensures r.None? ==> forall n :: from <= n < |bucket| && bucket[n].isOccupied ==> bucket[n].key != key
  {
    if from >= |bucket| then None
    else if bucket[from].isOccupied && bucket[from].key == key then Some(from)
    else FindInBucket(bucket, key, from + 1)
  }

  class HashTable<K(==, !new), V> {
    const hash: K -> nat
    var capacity: nat
    var table: seq<Bucket<K, V>>
    var count: nat
    /** The keys present. */
    ghost var Contents: set<K>

    /** The bucket a key belongs to. */
    function Home(k: K): nat
      reads this
      requires capacity > 0
    {
      hash(k) % capacity
    }

    ghost predicate Valid()
      reads this
    {
      && capacity > 0
      && |table| == capacity
      && (forall b: nat, n: nat :: IsOccupied(table, b, n) ==> Home(table[b][n].key) == b)
      && KeysUnique(table)
      && (forall k :: k in Contents <==> HasKey(table, k))
      && count == |Contents|
    }

    /** A table of `initialCapacity` empty buckets. */
    constructor (initialCapacity: nat, hashFunction: K -> nat)
      requires initialCapacity > 0
      ensures Valid() && Contents == {} && capacity == initialCapacity && hash == hashFunction
    {
      hash := hashFunction;
      capacity := initialCapacity;
      table := seq(initialCapacity, _ => []);
      count := 0;
      Contents := {};
    }

    /** contains: a scan of the key's bucket. */
    method Contains(key: K) returns (r: bool)
      requires Valid()
      ensures r <==> key in Contents
    {
      r := FindInBucket(table[Home(key)], key, 0).Some?;
    }

    /** insert: overwrites the value of a present key, otherwise appends a slot to its bucket. */
    method Insert(key: K, value: V)
      requires Valid()
      modifies this
      ensures Valid() && capacity == old(capacity)
      ensures Contents == old(Contents) + {key}
    {
      var h := Home(key);
      var found := FindInBucket(table[h], key, 0);
      if found.Some? {
        var n := found.value;
        table := table[h := table[h][n := Slot(key, value, true)]];
        assert forall b: nat, m: nat :: IsOccupied(table, b, m) <==> IsOccupied(old(table), b, m);
        assert forall b: nat, m: nat :: IsOccupied(table, b, m) ==> table[b][m].key == old(table)[b][m].key;
        assert forall k :: HasKey(table, k) <==> HasKey(old(table), k);
      } else {
        var n := |table[h]|;
        table := table[h := table[h] + [Slot(key, value, true)]];
        assert IsOccupied(table, h, n);
        forall b: nat, m: nat | IsOccupied(table, b, m) && (b, m) != (h, n)
          ensures IsOccupied(old(table), b, m) && table[b][m] == old(table)[b][m]
        {
        }
        forall k ensures HasKey(table, k) <==> HasKey(old(table), k) || k == key {
          if HasKey(old(table), k) {
            var b: nat, m: nat :| IsOccupied(old(table), b, m) && old(table)[b][m].key == k;
            assert IsOccupied(table, b, m) && table[b][m].key == k;
          }
        }
        Contents := Contents + {key};
        count := count + 1;
      }
    }

    /** remove: marks the key's slot unoccupied, or reports KeyNotFound and changes nothing. */
    method Remove(key: K) returns (r: Outcome)
      requires Valid()
      modifies this
      ensures Valid() && capacity == old(capacity)
      ensures key !in old(Contents) ==> r == Failed(KeyNotFound) && table == old(table) && count == old(count)
      ensures key in old(Contents) ==> r == Done && Contents == old(Contents) - {key}
    {
      var h := Home(key);
      var found := FindInBucket(table[h], key, 0);
      if found.None? {
        return Failed(KeyNotFound);
      }
      var n := found.value;
      assert IsOccupied(table, h, n) && table[h][n].key == key;
      assert key in Contents;
      table := table[h := table[h][n := table[h][n].(isOccupied := false)]];
      forall b: nat, m: nat | IsOccupied(table, b, m)
        ensures IsOccupied(old(table), b, m) && table[b][m] == old(table)[b][m] && (b, m) != (h, n)
      {
      }
      forall k ensures HasKey(table, k) <==> HasKey(old(table), k) && k != key {
        if HasKey(old(table), k) && k != key {
          var b: nat, m: nat :| IsOccupied(old(table), b, m) && old(table)[b][m].key == k;
          assert IsOccupied(table, b, m) && table[b][m].key == k;
        }
      }
      Contents := Contents - {key};
      count := count - 1;
      return Done;
    }

    /** size: the number of keys present. */
    method Size() returns (r: nat)
      requires Valid()
      ensures r == |Contents|
    {
      return count;
    }
  }
}
