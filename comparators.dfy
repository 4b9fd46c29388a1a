/**
 * The comparisons `Arrangement_2` uses when its traits class supports only
 * bounded curves (the `Tag_false` overloads). The four corners of the
 * bounding rectangle are compared by fixed rules, the fictitious edges at
 * y = -oo and y = +oo likewise; every other case is handed to the traits,
 * which are parameters here (uninterpreted functions).
 */
module BoundedComparators {
  import opened Common
  import opened Dcel
  import opened Arrangement

  /** `_compare_x_imp` (bounded traits): compare the x-coordinates of point p and vertex v. */
  function CompareX<P, C>(t: Topology<P, C>, compareX: (P, P) -> Comparison, p: P, v: nat): (r: Comparison)
    requires v < |t.dcel.vertices|
    requires v !in Corners(t) ==> t.dcel.vertices[v].point.Some?
    ensures v in Corners(t) ==> r != Equal
  {
    if v == t.vBL || v == t.vTL then Larger
    else if v == t.vBR || v == t.vTR then Smaller
    else compareX(p, t.dcel.vertices[v].point.value)
  }

  /** `_compare_xy_imp` (bounded traits): compare point p and vertex v xy-lexicographically. */
  function CompareXY<P, C>(t: Topology<P, C>, compareXY: (P, P) -> Comparison, p: P, v: nat): (r: Comparison)
    requires v < |t.dcel.vertices|
    requires v !in Corners(t) ==> t.dcel.vertices[v].point.Some?
    ensures v in Corners(t) ==> r != Equal
  {
    if v == t.vBL || v == t.vTL then Larger
    else if v == t.vBR || v == t.vTR then Smaller
    else compareXY(p, t.dcel.vertices[v].point.value)
  }

  /**
   * `_compare_y_at_x_imp` (bounded traits): where p lies relative to the edge
   * of he. The source asserts that both ends of the edge lie on the same
   * y-boundary; the curve is read only for an edge that is not at y = -oo or +oo.
   */
  function CompareYAtX<P, C>(t: Topology<P, C>, compareYAtX: (P, C) -> Comparison, p: P, he: nat): (r: Comparison)
    requires LinksInRange(t.dcel) && he < |t.dcel.halfedges|
    requires t.dcel.vertices[Target(t.dcel, he)].boundaryY == t.dcel.vertices[Source(t.dcel, he)].boundaryY
    requires t.dcel.vertices[Target(t.dcel, he)].boundaryY == NoBoundary ==> t.dcel.halfedges[he].curve.Some?
    ensures t.dcel.vertices[Target(t.dcel, he)].boundaryY != NoBoundary ==> r != Equal
  {
    var infY := t.dcel.vertices[Target(t.dcel, he)].boundaryY;
    if infY == MinusInfinity then Larger
    else if infY == PlusInfinity then Smaller
    else compareYAtX(p, t.dcel.halfedges[he].curve.value)
  }

  /**
   * `_is_face_unbounded_imp` (bounded traits): the pair of flags for the
   * boundary cycle of the halfedge and of its twin is always (true, false).
   * What the flags mean rests on a guarantee given by its callers, which are
   * not part of this model.
   */
  function IsFaceUnbounded(he: nat): (r: (bool, bool))
  {
    (true, false)
  }

  // ---------------------------------------------------------------------
  // What the fixed rules mean
  // ---------------------------------------------------------------------

  /**
   * With bounded traits, every vertex other than the four corners has a
   * point and lies at no boundary.
   */
  ghost predicate BoundedOnly<P, C>(t: Topology<P, C>)
  {
    forall v :: 0 <= v < |t.dcel.vertices| && v !in Corners(t) ==>
      && t.dcel.vertices[v].point.Some?
      && t.dcel.vertices[v].boundaryX == NoBoundary
      && t.dcel.vertices[v].boundaryY == NoBoundary
  }

  /**
   * How a finite coordinate compares with one at the given boundary, or,
   * when that one is finite too, what the traits say.
   */
  function CompareWithBoundary(b: Boundary, finite: Comparison): (r: Comparison)
  {
    match b
    case MinusInfinity => Larger
    case PlusInfinity => Smaller
    case NoBoundary => finite
  }

  /**
   * The corner rules of `_compare_x_imp` agree with the corners' positions:
   * a finite point is to the right of a vertex at x = -oo and to the left of
   * one at x = +oo; any other vertex is compared by the traits.
   */
  lemma CompareXFollowsBoundary<P, C>(t: Topology<P, C>, compareX: (P, P) -> Comparison, p: P, v: nat)
    requires ScaffoldValid(t) && BoundedOnly(t) && v < |t.dcel.vertices|
    ensures v in Corners(t) ==>
              CompareX(t, compareX, p, v) == CompareWithBoundary(t.dcel.vertices[v].boundaryX, Equal)
    ensures v !in Corners(t) ==>
              CompareX(t, compareX, p, v) ==
              CompareWithBoundary(t.dcel.vertices[v].boundaryX, compareX(p, t.dcel.vertices[v].point.value))
  {
  }

  /**
   * The corner rules of `_compare_xy_imp` agree with the corners' positions:
   * the x-boundary decides before y is looked at.
   */
  lemma CompareXYFollowsBoundary<P, C>(t: Topology<P, C>, compareXY: (P, P) -> Comparison, p: P, v: nat)
    requires ScaffoldValid(t) && BoundedOnly(t) && v < |t.dcel.vertices|
    ensures v in Corners(t) ==>
              CompareXY(t, compareXY, p, v) == CompareWithBoundary(t.dcel.vertices[v].boundaryX, Equal)
    ensures v !in Corners(t) ==>
              CompareXY(t, compareXY, p, v) ==
              CompareWithBoundary(t.dcel.vertices[v].boundaryX, compareXY(p, t.dcel.vertices[v].point.value))
  {
  }

  /**
   * When the traits' xy-comparison is lexicographic (it agrees with the
   * x-comparison whenever the x-coordinates differ), so is the arrangement's:
   * `_compare_xy` agrees with `_compare_x` whenever the latter is not EQUAL.
   */
  lemma CompareXYRefinesCompareX<P, C>(t: Topology<P, C>, compareX: (P, P) -> Comparison,
                                      compareXY: (P, P) -> Comparison, p: P, v: nat)
    requires v < |t.dcel.vertices|
    requires v !in Corners(t) ==> t.dcel.vertices[v].point.Some?
    requires forall q, s :: compareX(q, s) != Equal ==> compareXY(q, s) == compareX(q, s)
    ensures CompareX(t, compareX, p, v) != Equal ==>
              CompareXY(t, compareXY, p, v) == CompareX(t, compareX, p, v)
  {
  }

  /**
   * Every point lies above the bottom side of the bounding rectangle and
   * below its top side.
   */
  lemma RectangleSidesBoundEveryPoint<P, C>(t: Topology<P, C>, compareYAtX: (P, C) -> Comparison,
                                           p: P, he: nat)
    requires ScaffoldValid(t) && he < |t.dcel.halfedges|
    requires || (Target(t.dcel, he) in {t.vBL, t.vBR} && Source(t.dcel, he) in {t.vBL, t.vBR})
             || (Target(t.dcel, he) in {t.vTL, t.vTR} && Source(t.dcel, he) in {t.vTL, t.vTR})
    ensures Target(t.dcel, he) in {t.vBL, t.vBR} ==> CompareYAtX(t, compareYAtX, p, he) == Larger
    ensures Target(t.dcel, he) in {t.vTL, t.vTR} ==> CompareYAtX(t, compareYAtX, p, he) == Smaller
  {
  }

  /**
   * The answer does not depend on the direction of the edge: a halfedge and
   * its twin (which share the curve) compare alike.
   */
  lemma CompareYAtXIgnoresDirection<P, C>(t: Topology<P, C>, compareYAtX: (P, C) -> Comparison,
                                         p: P, he: nat)
    requires Valid(t.dcel) && he < |t.dcel.halfedges|
    requires t.dcel.vertices[Target(t.dcel, he)].boundaryY == t.dcel.vertices[Source(t.dcel, he)].boundaryY
    requires t.dcel.vertices[Target(t.dcel, he)].boundaryY == NoBoundary ==> t.dcel.halfedges[he].curve.Some?
    ensures t.dcel.vertices[Target(t.dcel, Opposite(t.dcel, he))].boundaryY ==
            t.dcel.vertices[Source(t.dcel, Opposite(t.dcel, he))].boundaryY
    ensures CompareYAtX(t, compareYAtX, p, Opposite(t.dcel, he)) == CompareYAtX(t, compareYAtX, p, he)
  {
    TwinReversesEndpoints(t.dcel, he);
  }
}
