/**
 * Shared vocabulary of the arrangement model: the optional value used for
 * nullable DCEL pointers, the comparison and boundary enumerations the
 * geometric traits speak in, and counting facts about sets of record ids.
 */
module Common {

  /** A nullable reference or an absent point/curve. */
  datatype Option<+T> = None | Some(value: T)

  /** The result of a traits comparison (SMALLER, EQUAL, LARGER). */
  datatype Comparison = Smaller | Equal | Larger

  /** Where a vertex lies along one axis: at minus infinity, finite, or at plus infinity. */
  datatype Boundary = MinusInfinity | NoBoundary | PlusInfinity

  /** The ids of an arena of n records: 0, 1, ..., n - 1. */
  ghost function RangeSet(n: nat): (r: set<nat>)
    ensures forall i: int :: i in r <==> 0 <= i < n
  {
    if n == 0 then {} else RangeSet(n - 1) + {n - 1}
  }

  /** An arena of n records has exactly n ids. */
  lemma {:induction false} RangeSetSize(n: nat)
    ensures |RangeSet(n)| == n
  {
    if n > 0 {
      RangeSetSize(n - 1);
      assert n - 1 !in RangeSet(n - 1);
    }
  }

  /** Two disjoint sets that together cover the ids of an arena of n records split n. */
  lemma SplitSize(a: set<nat>, b: set<nat>, n: nat)
    requires a !! b && a + b == RangeSet(n)
    ensures |a| + |b| == n
  {
    RangeSetSize(n);
  }

  /** A subset is never larger than its superset. */
  lemma SubsetSize<T>(a: set<T>, b: set<T>)
    requires a <= b
    ensures |a| <= |b|
  {
    assert b == a + (b - a);
  }
}
