/**
 * The comparators of include/comparators.hpp and the order properties the
 * quicksort relies on.  A comparator is a plain function `(T, T) -> bool`
 * that answers "does the first argument go before the second".
 */
module Comparators {

  /** No element goes before itself. */
  ghost predicate Irreflexive<T(!new)>(less: (T, T) -> bool) {
    forall x :: !less(x, x)
  }

  ghost predicate Transitive<T(!new)>(less: (T, T) -> bool) {
    forall x, y, z :: less(x, y) && less(y, z) ==> less(x, z)
  }

  /** A strict (partial) order: what the Lomuto partition needs for its sides. */
  ghost predicate StrictOrder<T(!new)>(less: (T, T) -> bool) {
    Irreflexive(less) && Transitive(less)
  }

  /**
   * A strict weak order: a strict order whose incomparability is transitive,
   * stated as negative transitivity (if x goes before z, then every y goes
   * after x or before z).
   */
  ghost predicate StrictWeakOrder<T(!new)>(less: (T, T) -> bool) {
    StrictOrder(less) && forall x, y, z :: less(x, z) ==> less(x, y) || less(y, z)
  }

  /** A strict order is asymmetric. */
  lemma StrictOrderAsymmetric<T(!new)>(less: (T, T) -> bool, x: T, y: T)
    requires StrictOrder(less)
    ensures less(x, y) ==> !less(y, x)
  {
  }

  // ---------------------------------------------------------------------
  // Integer comparators.  Comparing two C++ ints cannot overflow, so the
  // unbounded Dafny comparison is exact.
  // ---------------------------------------------------------------------

  /** compareIntIncrease: ascending order. */
  function IntIncrease(p1: int, p2: int): bool {
    p1 < p2
  }

  /** compareIntDecrease: descending order. */
  function IntDecrease(p1: int, p2: int): bool {
    p1 > p2
  }

  lemma IntDecreaseIsConverse(p1: int, p2: int)
    ensures IntDecrease(p1, p2) == IntIncrease(p2, p1)
    ensures IntIncrease(p1, p2) <==> p1 < p2
  {
  }

  /** Both integer comparators are strict weak (indeed total) orders. */
  lemma IntComparatorsAreStrictWeakOrders()
    ensures StrictWeakOrder(IntIncrease)
    ensures StrictWeakOrder(IntDecrease)
  {
  }

  // ---------------------------------------------------------------------
  // String comparators.  std::string's operator< is lexicographic over the
  // characters; Dafny's `<` on sequences is "proper prefix", so the
  // lexicographic order is defined here.
  // ---------------------------------------------------------------------

  /** Lexicographic order: the first differing character decides, and a proper prefix goes first. */
  function LexLess(a: string, b: string): bool
    decreases |a|
  {
    if |a| == 0 then |b| > 0
    else if |b| == 0 then false
    else if a[0] < b[0] then true
    else if a[0] == b[0] then LexLess(a[1..], b[1..])
    else false
  }

  /** compareStringIncrease */
  function StringIncrease(p1: string, p2: string): bool {
    LexLess(p1, p2)
  }

  /** compareStringDecrease: `p1 > p2`, that is `p2 < p1`. */
  function StringDecrease(p1: string, p2: string): bool {
    LexLess(p2, p1)
  }

  /** A proper prefix is lexicographically smaller. */
  lemma {:induction false} LexLessOfPrefix(a: string, b: string)
    requires |a| < |b| && a == b[..|a|]
    ensures LexLess(a, b)
    decreases |a|
  {
    if |a| > 0 {
      assert a[0] == b[0];
      assert a[1..] == b[1..][..|a| - 1];
      LexLessOfPrefix(a[1..], b[1..]);
    }
  }

  /** A smaller character at the first differing position makes the string smaller. */
  lemma {:induction false} LexLessOfDifference(a: string, b: string, k: nat)
    requires k < |a| && k < |b| && a[..k] == b[..k] && a[k] < b[k]
    ensures LexLess(a, b)
    decreases k
  {
    if k > 0 {
      assert a[0] == a[..k][0] == b[..k][0] == b[0];
      assert a[1..][..k - 1] == a[..k][1..] == b[..k][1..] == b[1..][..k - 1];
      LexLessOfDifference(a[1..], b[1..], k - 1);
    }
  }

  /** A smaller string is a proper prefix or is smaller at the first differing position. */
  lemma {:induction false} LexLessCases(a: string, b: string)
    requires LexLess(a, b)
    ensures (|a| < |b| && a == b[..|a|]) ||
      (exists k :: 0 <= k < |a| && k < |b| && a[..k] == b[..k] && a[k] < b[k])
    decreases |a|
  {
    if |a| > 0 && a[0] < b[0] {
      assert a[..0] == b[..0];
    } else if |a| > 0 {
      LexLessCases(a[1..], b[1..]);
      if |a[1..]| < |b[1..]| && a[1..] == b[1..][..|a[1..]|] {
        assert a == [a[0]] + a[1..];
        assert b[..|a|] == [b[0]] + b[1..][..|a[1..]|];
      } else {
        var k :| 0 <= k < |a[1..]| && k < |b[1..]| && a[1..][..k] == b[1..][..k] && a[1..][k] < b[1..][k];
        assert a[..k + 1] == [a[0]] + a[1..][..k];
        assert b[..k + 1] == [b[0]] + b[1..][..k];
      }
    }
  }

  /** LexLess agrees with the usual characterisation: a proper prefix, or a first differing position with a smaller character. */
  lemma LexLessCharacterised(a: string, b: string)
    ensures LexLess(a, b) <==>
      (|a| < |b| && a == b[..|a|]) ||
      (exists k :: 0 <= k < |a| && k < |b| && a[..k] == b[..k] && a[k] < b[k])
  {
    if |a| < |b| && a == b[..|a|] {
      LexLessOfPrefix(a, b);
    }
    if k :| 0 <= k < |a| && k < |b| && a[..k] == b[..k] && a[k] < b[k] {
      LexLessOfDifference(a, b, k);
    }
    if LexLess(a, b) {
      LexLessCases(a, b);
    }
  }

  lemma {:induction false} LexLessIrreflexive(a: string)
    ensures !LexLess(a, a)
  {
    if |a| > 0 {
      LexLessIrreflexive(a[1..]);
    }
  }

  lemma {:induction false} LexLessTransitive(a: string, b: string, c: string)
    requires LexLess(a, b) && LexLess(b, c)
    ensures LexLess(a, c)
  {
    if |a| > 0 && |b| > 0 && |c| > 0 && a[0] == b[0] && b[0] == c[0] {
      LexLessTransitive(a[1..], b[1..], c[1..]);
    }
  }

  /** Any two different strings are ordered one way or the other. */
  lemma {:induction false} LexLessTotal(a: string, b: string)
    requires a != b
    ensures LexLess(a, b) || LexLess(b, a)
  {
    if |a| > 0 && |b| > 0 && a[0] == b[0] {
      assert a == [a[0]] + a[1..] && b == [b[0]] + b[1..];
      LexLessTotal(a[1..], b[1..]);
    }
  }

  /** Both string comparators are strict weak orders, as the sort requires. */
  lemma StringComparatorsAreStrictWeakOrders()
    ensures StrictWeakOrder(StringIncrease)
    ensures StrictWeakOrder(StringDecrease)
  {
    forall a: string | true ensures !LexLess(a, a) {
      LexLessIrreflexive(a);
    }
    forall a: string, b: string, c: string | LexLess(a, b) && LexLess(b, c)
      ensures LexLess(a, c)
    {
      LexLessTransitive(a, b, c);
    }
    forall a: string, b: string, c: string | LexLess(a, c)
      ensures LexLess(a, b) || LexLess(b, c)
    {
      if !LexLess(a, b) && !LexLess(b, c) {
        if a == b {
        } else if b == c {
        } else {
          LexLessTotal(a, b);
          LexLessTotal(b, c);
          LexLessTransitive(c, b, a);
          LexLessTransitive(a, c, a);
          LexLessIrreflexive(a);
        }
      }
    }
    assert StrictWeakOrder(StringIncrease);
    assert StrictWeakOrder(StringDecrease);
  }
}
