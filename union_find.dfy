/**
 * DisjointSet of include/calc_algs.hpp: union by rank with path compression
 * over two tables, `parent` and `rank`.  The tables are modelled as maps;
 * every element the algorithms look up has been added by MakeSet.
 *
 * The forest invariant: every parent is an element, and a non-root has a
 * smaller rank than its parent.  The root an element reaches is a ghost
 * function of the two tables; FindSet and UnionSets are specified by what
 * they do to the map from every element to its root.
 */
module UnionFind {

  /** The elements ranked strictly above x: shrinks along every parent step. */
  ghost function Above<T>(rank: map<T, int>, x: T): set<T>
    requires x in rank
  {
    set y | y in rank && rank[y] > rank[x]
  }

  /** x's entries are in order: its parent is an element, ranked above x unless x is a root. */
  ghost predicate Linked<T>(parent: map<T, T>, rank: map<T, int>, x: T) {
    && x in parent && x in rank && parent[x] in parent && parent[x] in rank
    && (parent[x] != x ==> rank[x] < rank[parent[x]])
  }

  ghost predicate Forest<T>(parent: map<T, T>, rank: map<T, int>) {
    && parent.Keys == rank.Keys
    && forall x {:trigger Linked(parent, rank, x)} :: x in parent ==> Linked(parent, rank, x)
  }

  /** The elements that are their own parent. */
  ghost function Roots<T>(parent: map<T, T>): set<T> {
    set x | x in parent && parent[x] == x
  }

  /** The roots are elements, and every element reaches one. */
  lemma RootsWithin<T>(parent: map<T, T>, rank: map<T, int>, x: T)
    requires Forest(parent, rank) && x in parent
    ensures Roots(parent) <= parent.Keys
    ensures Root(parent, rank, x) in Roots(parent)
  {
  }

  /** A parent step moves strictly up the ranks. */
  lemma ParentAbove<T>(parent: map<T, T>, rank: map<T, int>, x: T)
    requires Forest(parent, rank) && x in parent && parent[x] != x
    ensures parent[x] in parent && rank[x] < rank[parent[x]]
    ensures Above(rank, parent[x]) < Above(rank, x)
  {
    assert Linked(parent, rank, x);
    assert parent[x] in Above(rank, x) && parent[x] !in Above(rank, parent[x]);
  }

  /** The root reached from x by following parents. */
  ghost function Root<T>(parent: map<T, T>, rank: map<T, int>, x: T): (r: T)
    requires Forest(parent, rank) && x in parent
    ensures r in parent && parent[r] == r
    ensures x == r || rank[x] < rank[r]
    decreases Above(rank, x)
  {
    if parent[x] == x then x
    else
      ParentAbove(parent, rank, x);
      Root(parent, rank, parent[x])
  }

  /** One step of Root, for the proofs below. */
  lemma RootStep<T>(parent: map<T, T>, rank: map<T, int>, x: T)
    requires Forest(parent, rank) && x in parent
    ensures parent[x] in parent
    ensures Root(parent, rank, x) == if parent[x] == x then x else Root(parent, rank, parent[x])
  {
    assert Linked(parent, rank, x);
    if parent[x] != x {
      ParentAbove(parent, rank, x);
    }
  }

  /** Which root an element reaches depends only on the parent table. */
  lemma {:induction false} RootIgnoresRank<T>(parent: map<T, T>, rank1: map<T, int>, rank2: map<T, int>, x: T)
    requires Forest(parent, rank1) && Forest(parent, rank2) && x in parent
    ensures Root(parent, rank1, x) == Root(parent, rank2, x)
    decreases Above(rank1, x)
  {
    if parent[x] != x {
      ParentAbove(parent, rank1, x);
      RootIgnoresRank(parent, rank1, rank2, parent[x]);
    }
    RootStep(parent, rank1, x);
    RootStep(parent, rank2, x);
  }

  /** Pointing v straight at its root keeps the forest and the set of roots. */
  lemma CompressForest<T>(parent: map<T, T>, rank: map<T, int>, v: T)
    requires Forest(parent, rank) && v in parent
    ensures Forest(parent[v := Root(parent, rank, v)], rank)
    ensures Roots(parent[v := Root(parent, rank, v)]) == Roots(parent)
  {
    var parent' := parent[v := Root(parent, rank, v)];
    forall x | x in parent'
      ensures Linked(parent', rank, x)
    {
      assert Linked(parent, rank, x);
    }
    assert Roots(parent') == Roots(parent);
  }

  /** Path compression: pointing v straight at its root leaves every element's root as it was. */
  lemma {:induction false} Compress<T>(parent: map<T, T>, rank: map<T, int>, v: T, x: T)
    requires Forest(parent, rank) && v in parent && x in parent
    requires Forest(parent[v := Root(parent, rank, v)], rank)
    ensures Root(parent[v := Root(parent, rank, v)], rank, x) == Root(parent, rank, x)
    decreases Above(rank, x)
  {
    var r := Root(parent, rank, v);
    var parent' := parent[v := r];
    if x == v {
      if parent[v] != v {
        RootStep(parent', rank, v);
        RootStep(parent', rank, r);
      }
    } else if parent[x] != x {
      ParentAbove(parent, rank, x);
      Compress(parent, rank, v, parent[x]);
      RootStep(parent', rank, x);
      RootStep(parent, rank, x);
    }
  }

  /** The root of every element: the partition the forest represents. */
  ghost function RootMap<T>(parent: map<T, T>, rank: map<T, int>): map<T, T>
    requires Forest(parent, rank)
  {
    map x | x in parent :: Root(parent, rank, x)
  }

  /** Path compression at v, for every element at once. */
  lemma CompressAll<T>(parent: map<T, T>, rank: map<T, int>, v: T)
    requires Forest(parent, rank) && v in parent
    ensures Forest(parent[v := Root(parent, rank, v)], rank)
    ensures Roots(parent[v := Root(parent, rank, v)]) == Roots(parent)
    ensures RootMap(parent[v := Root(parent, rank, v)], rank) == RootMap(parent, rank)
  {
    CompressForest(parent, rank, v);
    var parent' := parent[v := Root(parent, rank, v)];
    forall x | x in parent
      ensures RootMap(parent', rank)[x] == RootMap(parent, rank)[x]
    {
      Compress(parent, rank, v, x);
    }
  }

  /**
   * The step findSet takes after its recursive call: the tables p1 reached
   * from p0 by compressing the path above v, with v then pointed at the root.
   */
  lemma FindStep<T>(p0: map<T, T>, p1: map<T, T>, rank: map<T, int>, v: T, r: T)
    requires Forest(p0, rank) && Forest(p1, rank) && v in p0 && p0[v] != v && p0[v] in p0
    requires p1.Keys == p0.Keys && Roots(p1) == Roots(p0)
    requires RootMap(p1, rank) == RootMap(p0, rank)
    requires r == RootMap(p0, rank)[p0[v]]
    ensures Forest(p1[v := r], rank) && Roots(p1[v := r]) == Roots(p0)
    ensures r == Root(p0, rank, v)
    ensures RootMap(p1[v := r], rank) == RootMap(p0, rank)
  {
    RootStep(p0, rank, v);
    assert RootMap(p1, rank)[v] == r;
    CompressAll(p1, rank, v);
  }

  /**
   * The root map after joining the sets with roots r1 and r2 under the
   * root r: the members of either set reach r, everyone else keeps a root.
   */
  ghost function Merge<T>(m: map<T, T>, r1: T, r2: T, r: T): (m': map<T, T>)
    ensures m'.Keys == m.Keys
  {
    map x | x in m :: if m[x] == r1 || m[x] == r2 then r else m[x]
  }

  /** The root that survives unionSets on roots r1 and r2: the one of higher rank, r1 on a tie. */
  function Winner<T>(rank: map<T, int>, r1: T, r2: T): (w: T)
    requires r1 in rank && r2 in rank
    ensures w == r1 || w == r2
    ensures rank[w] >= rank[r1] && rank[w] >= rank[r2]
  {
    if rank[r1] < rank[r2] then r2 else r1
  }

  /** Merging is symmetric in the two sets. */
  lemma MergeSymmetric<T>(m: map<T, T>, r1: T, r2: T, r: T)
    ensures Merge(m, r1, r2, r) == Merge(m, r2, r1, r)
  {
    assert forall x :: x in m ==> Merge(m, r1, r2, r)[x] == Merge(m, r2, r1, r)[x];
  }

  /** Merging a set with itself under its own root changes nothing. */
  lemma MergeSame<T>(m: map<T, T>, r: T)
    ensures Merge(m, r, r, r) == m
  {
    assert forall x :: x in m ==> Merge(m, r, r, r)[x] == m[x];
  }

  /**
   * Merging joins exactly the two sets: two elements share a root afterwards
   * iff they did before, or each was in one of the two merged sets.
   */
  lemma MergeSameSet<T>(m: map<T, T>, r1: T, r2: T, r: T, x: T, y: T)
    requires x in m && y in m && (r == r1 || r == r2)
    requires forall z :: z in m ==> m[z] in m && m[m[z]] == m[z]
    ensures var m' := Merge(m, r1, r2, r);
      m'[x] == m'[y] <==> m[x] == m[y] || ((m[x] == r1 || m[x] == r2) && (m[y] == r1 || m[y] == r2))
  {
  }

  /** Linking root r1 under a root r2 of higher rank keeps the forest and drops r1 from the roots. */
  lemma LinkForest<T>(parent: map<T, T>, rank: map<T, int>, r1: T, r2: T)
    requires Forest(parent, rank)
    requires r1 in parent && parent[r1] == r1 && r2 in parent && parent[r2] == r2
    requires rank[r1] < rank[r2]
    ensures Forest(parent[r1 := r2], rank)
    ensures Roots(parent[r1 := r2]) == Roots(parent) - {r1}
  {
    var parent' := parent[r1 := r2];
    forall x | x in parent'
      ensures Linked(parent', rank, x)
    {
      assert Linked(parent, rank, x);
    }
    assert Roots(parent') == Roots(parent) - {r1};
  }

  /**
   * After linking root r1 under root r2, the elements that reached r1 reach
   * r2 and every other element keeps its root.
   */
  lemma {:induction false} Link<T>(parent: map<T, T>, rank: map<T, int>, r1: T, r2: T, x: T)
    requires Forest(parent, rank) && x in parent
    requires r1 in parent && parent[r1] == r1 && r2 in parent && parent[r2] == r2
    requires Forest(parent[r1 := r2], rank)
    ensures Root(parent[r1 := r2], rank, x) == if Root(parent, rank, x) == r1 then r2 else Root(parent, rank, x)
    decreases Above(rank, x)
  {
    var parent' := parent[r1 := r2];
    if x == r1 {
      RootStep(parent', rank, r1);
      RootStep(parent', rank, r2);
    } else if parent[x] != x {
      ParentAbove(parent, rank, x);
      Link(parent, rank, r1, r2, parent[x]);
      RootStep(parent', rank, x);
      RootStep(parent, rank, x);
    }
  }

  /** Linking, for every element at once: the two sets merge under r2. */
  lemma LinkAll<T>(parent: map<T, T>, rank: map<T, int>, r1: T, r2: T)
    requires Forest(parent, rank)
    requires r1 in parent && parent[r1] == r1 && r2 in parent && parent[r2] == r2
    requires rank[r1] < rank[r2]
    ensures Forest(parent[r1 := r2], rank)
    ensures Roots(parent[r1 := r2]) == Roots(parent) - {r1}
    ensures RootMap(parent[r1 := r2], rank) == Merge(RootMap(parent, rank), r1, r2, r2)
  {
    LinkForest(parent, rank, r1, r2);
    var parent' := parent[r1 := r2];
    forall x | x in parent
      ensures RootMap(parent', rank)[x] == Merge(RootMap(parent, rank), r1, r2, r2)[x]
    {
      Link(parent, rank, r1, r2, x);
    }
  }

  /** Adding a new element as its own parent keeps the forest and adds one root. */
  lemma SingletonForest<T>(parent: map<T, T>, rank: map<T, int>, v: T)
    requires Forest(parent, rank) && v !in parent
    ensures Forest(parent[v := v], rank[v := 0])
    ensures Roots(parent[v := v]) == Roots(parent) + {v}
  {
    var parent', rank' := parent[v := v], rank[v := 0];
    forall x | x in parent'
      ensures Linked(parent', rank', x)
    {
      if x != v {
        assert Linked(parent, rank, x);
      }
    }
    assert Roots(parent') == Roots(parent) + {v};
  }

  /** A new element as a singleton set: its own root, and no other root changes. */
  lemma AddSingleton<T>(parent: map<T, T>, rank: map<T, int>, v: T)
    requires Forest(parent, rank) && v !in parent
    ensures Forest(parent[v := v], rank[v := 0])
    ensures Roots(parent[v := v]) == Roots(parent) + {v}
    ensures RootMap(parent[v := v], rank[v := 0]) == RootMap(parent, rank)[v := v]
  {
    SingletonForest(parent, rank, v);
    var parent', rank' := parent[v := v], rank[v := 0];
    forall x | x in parent
      ensures RootMap(parent', rank')[x] == RootMap(parent, rank)[x]
    {
      Extend(parent, rank, v, x);
    }
    assert RootMap(parent', rank')[v] == v;
  }

  /** Along the way up from an old element, the new singleton is never met. */
  lemma {:induction false} Extend<T>(parent: map<T, T>, rank: map<T, int>, v: T, x: T)
    requires Forest(parent, rank) && v !in parent && x in parent
    requires Forest(parent[v := v], rank[v := 0])
    ensures Root(parent[v := v], rank[v := 0], x) == Root(parent, rank, x)
    decreases Above(rank, x)
  {
    if parent[x] != x {
      ParentAbove(parent, rank, x);
      Extend(parent, rank, v, parent[x]);
    }
    RootStep(parent, rank, x);
    RootStep(parent[v := v], rank[v := 0], x);
  }

  /** Linking root r2 under a root r1 of higher rank, stated with r1 first. */
  lemma LinkUnder<T>(parent: map<T, T>, rank: map<T, int>, r1: T, r2: T)
    requires Forest(parent, rank)
    requires r1 in parent && parent[r1] == r1 && r2 in parent && parent[r2] == r2
    requires rank[r2] < rank[r1]
    ensures Forest(parent[r2 := r1], rank)
    ensures Roots(parent[r2 := r1]) == Roots(parent) - {r2}
    ensures RootMap(parent[r2 := r1], rank) == Merge(RootMap(parent, rank), r1, r2, r1)
  {
    LinkAll(parent, rank, r2, r1);
    MergeSymmetric(RootMap(parent, rank), r2, r1, r1);
  }

  /** The tie case: r2 goes under r1, whose rank grows by one. */
  lemma PromoteLink<T>(parent: map<T, T>, rank: map<T, int>, r1: T, r2: T)
    requires Forest(parent, rank)
    requires r1 in parent && parent[r1] == r1 && r2 in parent && parent[r2] == r2
    requires r1 != r2 && rank[r1] == rank[r2]
    ensures Forest(parent[r2 := r1], rank[r1 := rank[r1] + 1])
    ensures Roots(parent[r2 := r1]) == Roots(parent) - {r2}
    ensures RootMap(parent[r2 := r1], rank[r1 := rank[r1] + 1]) == Merge(RootMap(parent, rank), r1, r2, r1)
  {
    Promote(parent, rank, r1);
    LinkUnder(parent, rank[r1 := rank[r1] + 1], r1, r2);
  }

  /** Raising the rank of a root keeps the forest and every root. */
  lemma Promote<T>(parent: map<T, T>, rank: map<T, int>, r: T)
    requires Forest(parent, rank) && r in parent && parent[r] == r
    ensures Forest(parent, rank[r := rank[r] + 1])
    ensures RootMap(parent, rank[r := rank[r] + 1]) == RootMap(parent, rank)
  {
    var rank' := rank[r := rank[r] + 1];
    assert rank'.Keys == rank.Keys;
    forall x | x in parent
      ensures Linked(parent, rank', x)
    {
      assert Linked(parent, rank, x);
    }
    var before, after := RootMap(parent, rank), RootMap(parent, rank');
    forall x | x in parent
      ensures after[x] == before[x]
    {
      RootIgnoresRank(parent, rank', rank, x);
    }
    assert after.Keys == before.Keys;
  }

  class DisjointSet<T(==, !new)> {
    var parent: map<T, T>
    var rank: map<T, int>

    ghost predicate Valid()
      reads this
    {
      Forest(parent, rank)
    }

    /** A fresh DisjointSet has empty tables. */
    constructor ()
      ensures Valid() && parent == map[] && rank == map[]
    {
      parent := map[];
      rank := map[];
    }

    /**
     * makeSet: v becomes its own parent with rank 0.  On an element not yet
     * present this keeps the forest.
     */
    method MakeSet(v: T)
      modifies this
      ensures parent == old(parent)[v := v] && rank == old(rank)[v := 0]
      ensures v !in old(parent) ==> Roots(parent) == old(Roots(parent)) + {v}
      ensures old(Valid()) && v !in old(parent) ==> Valid() && RootMap(parent, rank) == old(RootMap(parent, rank))[v := v]
    {
      assert v !in parent ==> Roots(parent[v := v]) == Roots(parent) + {v};
      if Valid() && v !in parent {
        AddSingleton(parent, rank, v);
      }
      parent := parent[v := v];
      rank := rank[v := 0];
    }

    /**
     * findSet: the root of v, found recursively; on the way back every
     * element on the path is pointed straight at the root.
     */
    method FindSet(v: T) returns (root: T)
      requires Valid() && v in parent
      modifies this
      ensures Valid() && rank == old(rank) && parent.Keys == old(parent.Keys)
      ensures root == old(Root(parent, rank, v)) && parent[v] == root
      ensures RootMap(parent, rank) == old(RootMap(parent, rank))
      ensures Roots(parent) == old(Roots(parent))
      decreases Above(rank, v)
    {
      if parent[v] != v {
        ParentAbove(parent, rank, v);
        ghost var p0 := parent;
        var r := FindSet(parent[v]);
        FindStep(p0, parent, rank, v, r);
        parent := parent[v := r];
      }
      return parent[v];
    }

    /**
     * The linking half of unionSets, on two distinct roots: the root of
     * lower rank goes under the other; on equal ranks root2 goes under
     * root1, whose rank grows by one.
     */
    method LinkRoots(root1: T, root2: T)
      requires Valid() && root1 in Roots(parent) && root2 in Roots(parent) && root1 != root2
      modifies this
      ensures Valid() && parent.Keys == old(parent.Keys) && rank.Keys == old(rank.Keys)
      ensures RootMap(parent, rank) == Merge(old(RootMap(parent, rank)), root1, root2, Winner(old(rank), root1, root2))
      ensures old(rank[root1]) < old(rank[root2]) ==>
        parent == old(parent)[root1 := root2] && rank == old(rank) && Roots(parent) == old(Roots(parent)) - {root1}
      ensures old(rank[root1]) > old(rank[root2]) ==>
        parent == old(parent)[root2 := root1] && rank == old(rank) && Roots(parent) == old(Roots(parent)) - {root2}
      ensures old(rank[root1]) == old(rank[root2]) ==>
        parent == old(parent)[root2 := root1] && rank == old(rank)[root1 := old(rank[root1]) + 1]
        && Roots(parent) == old(Roots(parent)) - {root2}
    {
      if rank[root1] < rank[root2] {
        LinkAll(parent, rank, root1, root2);
        parent := parent[root1 := root2];
      } else if rank[root1] > rank[root2] {
        LinkUnder(parent, rank, root1, root2);
        parent := parent[root2 := root1];
      } else {
        PromoteLink(parent, rank, root1, root2);
        parent := parent[root2 := root1];
        rank := rank[root1 := rank[root1] + 1];
      }
    }

    /**
     * unionSets: joins the sets of a and b, by linking their roots after
     * finding them.  Equal roots change nothing but the compression.
     */
    method UnionSets(a: T, b: T)
      requires Valid() && a in parent && b in parent
      modifies this
      ensures Valid() && parent.Keys == old(parent.Keys) && rank.Keys == old(rank.Keys)
      ensures var r1 := old(Root(parent, rank, a)); var r2 := old(Root(parent, rank, b));
        RootMap(parent, rank) == Merge(old(RootMap(parent, rank)), r1, r2, Winner(old(rank), r1, r2))
      ensures var r1 := old(Root(parent, rank, a)); var r2 := old(Root(parent, rank, b));
        && (r1 == r2 ==> rank == old(rank) && Roots(parent) == old(Roots(parent)))
        && (r1 != r2 && old(rank[r1]) < old(rank[r2]) ==>
              parent[r1] == r2 && rank == old(rank) && Roots(parent) == old(Roots(parent)) - {r1})
        && (r1 != r2 && old(rank[r1]) > old(rank[r2]) ==>
              parent[r2] == r1 && rank == old(rank) && Roots(parent) == old(Roots(parent)) - {r2})
        && (r1 != r2 && old(rank[r1]) == old(rank[r2]) ==>
              parent[r2] == r1 && rank == old(rank)[r1 := old(rank[r1]) + 1] && Roots(parent) == old(Roots(parent)) - {r2})
    {
      var root1 := FindSet(a);
      var root2 := FindSet(b);
      ghost var m0 := RootMap(parent, rank);
      assert m0[b] == root2;
      if root1 != root2 {
        LinkRoots(root1, root2);
      } else {
        MergeSame(m0, root1);
      }
    }
  }
}
