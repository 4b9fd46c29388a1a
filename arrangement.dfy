/**
 * The topological state of an `Arrangement_2` and its read-only queries:
 * the DCEL together with the four fictitious corner vertices of the
 * bounding rectangle, the counter of vertices at infinity and the fictitious
 * face outside the rectangle. The filters decide which DCEL records the
 * public iterators show; the counters report sizes with the fictitious
 * scaffold subtracted.
 */
module Arrangement {
  import opened Common
  import opened Dcel

  /**
   * The fields of `Arrangement_2` that the queries read: `dcel`, the corners
   * `v_bl`, `v_tl`, `v_br`, `v_tr` (DCEL vertex ids), `n_inf_verts` and
   * `un_face` (a DCEL face id).
   */
  datatype Topology<P, C> = Topology(dcel: Dcel<P, C>,
                                     vBL: nat, vTL: nat, vBR: nat, vTR: nat,
                                     nInfVerts: nat, unFace: nat)

  /**
   * `Size` comes from the DCEL class; the model takes it to be an unsigned
   * 64-bit integer, so arithmetic on it wraps modulo 2^64.
   */
  const SIZE_MODULUS: nat := 0x1_0000_0000_0000_0000

  /** Unsigned subtraction a - b on `Size`. */
  function SizeSub(a: nat, b: nat): (r: nat)
    ensures r < SIZE_MODULUS
    ensures b <= a < SIZE_MODULUS ==> r == a - b
  {
    (a - b) % SIZE_MODULUS
  }

  // ---------------------------------------------------------------------
  // Filters
  // ---------------------------------------------------------------------

  /** `_Is_valid_vertex`: the vertex has a point (it does not lie at infinity). */
  predicate IsValidVertex<P>(v: Vertex<P>)
  {
    v.point.Some?
  }

  /** `_Is_valid_halfedge`: the halfedge carries a curve (it is not fictitious). */
  predicate IsValidHalfedge<C>(he: Halfedge<C>)
  {
    he.curve.Some?
  }

  /** `_Is_valid_face`: the face has an outer boundary (it is not the fictitious face). */
  predicate IsValidFace(f: Face)
  {
    f.halfedge.Some?
  }

  /** `_Is_unbounded_face`: an unbounded face that is not the fictitious one. */
  predicate IsUnboundedFace(f: Face)
  {
    f.unbounded && f.halfedge.Some?
  }

  /** `_Is_non_fictitious_vertex`: a vertex with a point, or a vertex at infinity other than the four corners. */
  predicate IsNonFictitiousVertex<P, C>(t: Topology<P, C>, v: nat)
    requires v < |t.dcel.vertices|
  {
    t.dcel.vertices[v].point.Some? || (v != t.vBL && v != t.vTL && v != t.vBR && v != t.vTR)
  }

  /** The four fictitious corner vertices. */
  function Corners<P, C>(t: Topology<P, C>): (s: set<nat>)
  {
    {t.vBL, t.vTL, t.vBR, t.vTR}
  }

  // ---------------------------------------------------------------------
  // The records each filter keeps or drops
  // ---------------------------------------------------------------------

  ghost function ValidVertexIds<P, C>(t: Topology<P, C>): set<nat>
  {
    set v: nat | v < |t.dcel.vertices| && IsValidVertex(t.dcel.vertices[v])
  }

  ghost function AtInfinityIds<P, C>(t: Topology<P, C>): set<nat>
  {
    set v: nat | v < |t.dcel.vertices| && !IsValidVertex(t.dcel.vertices[v])
  }

  /** The vertices at infinity that the all-vertices iterator shows (corners hidden). */
  ghost function VisibleAtInfinityIds<P, C>(t: Topology<P, C>): set<nat>
  {
    set v: nat | v < |t.dcel.vertices| && !IsValidVertex(t.dcel.vertices[v]) &&
                 IsNonFictitiousVertex(t, v)
  }

  ghost function ValidHalfedgeIds<P, C>(t: Topology<P, C>): set<nat>
  {
    set h: nat | h < |t.dcel.halfedges| && IsValidHalfedge(t.dcel.halfedges[h])
  }

  ghost function FictitiousHalfedgeIds<P, C>(t: Topology<P, C>): set<nat>
  {
    set h: nat | h < |t.dcel.halfedges| && !IsValidHalfedge(t.dcel.halfedges[h])
  }

  ghost function ValidFaceIds<P, C>(t: Topology<P, C>): set<nat>
  {
    set f: nat | f < |t.dcel.faces| && IsValidFace(t.dcel.faces[f])
  }

  ghost function FictitiousFaceIds<P, C>(t: Topology<P, C>): set<nat>
  {
    set f: nat | f < |t.dcel.faces| && !IsValidFace(t.dcel.faces[f])
  }

  /** The unbounded faces among the first n faces of the DCEL. */
  ghost function UnboundedFaceIdsBelow<P, C>(t: Topology<P, C>, n: nat): set<nat>
    requires n <= |t.dcel.faces|
  {
    set f: nat | f < n && IsUnboundedFace(t.dcel.faces[f])
  }

  ghost function UnboundedFaceIds<P, C>(t: Topology<P, C>): set<nat>
  {
    UnboundedFaceIdsBelow(t, |t.dcel.faces|)
  }

  // ---------------------------------------------------------------------
  // The fictitious scaffold
  // ---------------------------------------------------------------------

  /**
   * The corners are four distinct vertices at infinity, placed at
   * (-oo,-oo), (-oo,+oo), (+oo,-oo) and (+oo,+oo).
   */
  ghost predicate CornersPlaced<P, C>(t: Topology<P, C>)
  {
    var vs := t.dcel.vertices;
    && t.vBL < |vs| && t.vTL < |vs| && t.vBR < |vs| && t.vTR < |vs|
    && t.vBL != t.vTL && t.vBL != t.vBR && t.vBL != t.vTR
    && t.vTL != t.vBR && t.vTL != t.vTR && t.vBR != t.vTR
    && vs[t.vBL].point.None? && vs[t.vTL].point.None?
    && vs[t.vBR].point.None? && vs[t.vTR].point.None?
    && vs[t.vBL].boundaryX == MinusInfinity && vs[t.vBL].boundaryY == MinusInfinity
    && vs[t.vTL].boundaryX == MinusInfinity && vs[t.vTL].boundaryY == PlusInfinity
    && vs[t.vBR].boundaryX == PlusInfinity && vs[t.vBR].boundaryY == MinusInfinity
    && vs[t.vTR].boundaryX == PlusInfinity && vs[t.vTR].boundaryY == PlusInfinity
  }

  /**
   * The invariant the arrangement keeps between operations: a consistent
   * DCEL whose sizes fit in `Size`; the corners in place; `n_inf_verts`
   * counting every vertex at infinity (corners included); each vertex at
   * infinity accounting for two fictitious halfedges; and exactly one
   * fictitious face, `un_face`.
   */
  ghost predicate ScaffoldValid<P, C>(t: Topology<P, C>)
  {
    && Valid(t.dcel)
    && |t.dcel.vertices| < SIZE_MODULUS
    && |t.dcel.halfedges| < SIZE_MODULUS
    && |t.dcel.faces| < SIZE_MODULUS
    && CornersPlaced(t)
    && t.nInfVerts == |AtInfinityIds(t)|
    && |FictitiousHalfedgeIds(t)| == 2 * t.nInfVerts
    && t.unFace < |t.dcel.faces|
    && FictitiousFaceIds(t) == {t.unFace}
  }

  /** The non-fictitious-vertex filter drops exactly the four corners. */
  lemma FictitiousVerticesAreCorners<P, C>(t: Topology<P, C>, v: nat)
    requires ScaffoldValid(t) && v < |t.dcel.vertices|
    ensures !IsNonFictitiousVertex(t, v) <==> v in Corners(t)
    ensures IsValidVertex(t.dcel.vertices[v]) ==> IsNonFictitiousVertex(t, v)
  {
  }

  /**
   * The face filter drops exactly the fictitious face `un_face`, and the
   * unbounded-face filter keeps only faces the face filter keeps.
   */
  lemma FaceFiltersDropOnlyTheFictitiousFace<P, C>(t: Topology<P, C>, f: nat)
    requires ScaffoldValid(t) && f < |t.dcel.faces|
    ensures IsValidFace(t.dcel.faces[f]) <==> f != t.unFace
    ensures IsUnboundedFace(t.dcel.faces[f]) ==> IsValidFace(t.dcel.faces[f]) && f != t.unFace
  {
    assert f in FictitiousFaceIds(t) <==> !IsValidFace(t.dcel.faces[f]);
  }

  // ---------------------------------------------------------------------
  // Counters
  // ---------------------------------------------------------------------

  /** `is_empty`: only the four corners and the eight fictitious halfedges are left. */
  predicate IsEmpty<P, C>(t: Topology<P, C>)
  {
    |t.dcel.vertices| == 4 && |t.dcel.halfedges| == 8
  }

  /** `number_of_vertices`: DCEL vertices minus the vertices at infinity. */
  function NumberOfVertices<P, C>(t: Topology<P, C>): (n: nat)
    ensures n < SIZE_MODULUS
  {
    SizeSub(|t.dcel.vertices|, t.nInfVerts)
  }

  /** `number_of_vertices_at_infinity`: vertices at infinity minus the four corners. */
  function NumberOfVerticesAtInfinity<P, C>(t: Topology<P, C>): (n: nat)
    ensures n < SIZE_MODULUS
  {
    SizeSub(t.nInfVerts, 4)
  }

  /** `number_of_halfedges`: DCEL halfedges minus two per vertex at infinity. */
  function NumberOfHalfedges<P, C>(t: Topology<P, C>): (n: nat)
    ensures n < SIZE_MODULUS
  {
    SizeSub(|t.dcel.halfedges|, (2 * t.nInfVerts) % SIZE_MODULUS)
  }

  /** `number_of_edges`: half the DCEL halfedges minus one per vertex at infinity. */
  function NumberOfEdges<P, C>(t: Topology<P, C>): (n: nat)
    ensures n < SIZE_MODULUS
  {
    SizeSub(|t.dcel.halfedges| / 2, t.nInfVerts)
  }

  /** `number_of_faces`: DCEL faces minus the fictitious face. */
  function NumberOfFaces<P, C>(t: Topology<P, C>): (n: nat)
    ensures n < SIZE_MODULUS
  {
    SizeSub(|t.dcel.faces|, 1)
  }

  /**
   * `number_of_unbounded_faces`: walks the faces the unbounded-face filter
   * keeps and counts them.
   */
  method NumberOfUnboundedFaces<P, C>(t: Topology<P, C>) returns (n: nat)
    ensures n == |UnboundedFaceIds(t)|
  {
    n := 0;
    for i := 0 to |t.dcel.faces|
      invariant n == |UnboundedFaceIdsBelow(t, i)|
    {
      if IsUnboundedFace(t.dcel.faces[i]) {
        assert UnboundedFaceIdsBelow(t, i + 1) == UnboundedFaceIdsBelow(t, i) + {i};
        n := n + 1;
      } else {
        assert UnboundedFaceIdsBelow(t, i + 1) == UnboundedFaceIdsBelow(t, i);
      }
    }
  }

  // ---------------------------------------------------------------------
  // What the counters mean
  // ---------------------------------------------------------------------

  /** A set of halfedges closed under `opposite` has an even number of elements. */
  lemma {:induction false} TwinClosedSetEven<P, C>(d: Dcel<P, C>, s: set<nat>)
    requires Valid(d)
    requires forall h :: h in s ==> h < |d.halfedges| && Opposite(d, h) in s
    ensures |s| % 2 == 0
    decreases |s|
  {
    if s != {} {
      var h :| h in s;
      var o := Opposite(d, h);
      var rest := s - {h, o};
      assert |rest| == |s| - 2;
      forall g | g in rest
        ensures g < |d.halfedges| && Opposite(d, g) in rest
      {
        assert Opposite(d, Opposite(d, g)) == g;
      }
      TwinClosedSetEven(d, rest);
    }
  }

  /** Halfedges come in twin pairs, so a valid DCEL has an even number of them. */
  lemma HalfedgeCountEven<P, C>(d: Dcel<P, C>)
    requires Valid(d)
    ensures |d.halfedges| % 2 == 0
  {
    var all := RangeSet(|d.halfedges|);
    TwinClosedSetEven(d, all);
    RangeSetSize(|d.halfedges|);
  }

  /** Each vertex either has a point or lies at infinity. */
  lemma VertexFilterSplits<P, C>(t: Topology<P, C>)
    ensures |ValidVertexIds(t)| + |AtInfinityIds(t)| == |t.dcel.vertices|
  {
    assert ValidVertexIds(t) + AtInfinityIds(t) == RangeSet(|t.dcel.vertices|);
    SplitSize(ValidVertexIds(t), AtInfinityIds(t), |t.dcel.vertices|);
  }

  /** Each halfedge either carries a curve or is fictitious. */
  lemma HalfedgeFilterSplits<P, C>(t: Topology<P, C>)
    ensures |ValidHalfedgeIds(t)| + |FictitiousHalfedgeIds(t)| == |t.dcel.halfedges|
  {
    assert ValidHalfedgeIds(t) + FictitiousHalfedgeIds(t) == RangeSet(|t.dcel.halfedges|);
    SplitSize(ValidHalfedgeIds(t), FictitiousHalfedgeIds(t), |t.dcel.halfedges|);
  }

  /** Each face either has an outer boundary or is fictitious. */
  lemma FaceFilterSplits<P, C>(t: Topology<P, C>)
    ensures |ValidFaceIds(t)| + |FictitiousFaceIds(t)| == |t.dcel.faces|
  {
    assert ValidFaceIds(t) + FictitiousFaceIds(t) == RangeSet(|t.dcel.faces|);
    SplitSize(ValidFaceIds(t), FictitiousFaceIds(t), |t.dcel.faces|);
  }

  /** `number_of_vertices` counts exactly the vertices the vertex iterator shows. */
  lemma VisibleVertexCount<P, C>(t: Topology<P, C>)
    requires ScaffoldValid(t)
    ensures NumberOfVertices(t) == |ValidVertexIds(t)|
    ensures NumberOfVertices(t) == |t.dcel.vertices| - t.nInfVerts
  {
    VertexFilterSplits(t);
  }

  /** `number_of_vertices_at_infinity` counts the vertices at infinity that are not corners. */
  lemma VisibleAtInfinityCount<P, C>(t: Topology<P, C>)
    requires ScaffoldValid(t)
    ensures t.nInfVerts >= 4
    ensures NumberOfVerticesAtInfinity(t) == |VisibleAtInfinityIds(t)|
    ensures NumberOfVerticesAtInfinity(t) == t.nInfVerts - 4
  {
    var corners := Corners(t);
    assert |{t.vBL, t.vTL}| == 2;
    assert |{t.vBL, t.vTL, t.vBR}| == 3;
    assert |corners| == 4;
    assert corners <= AtInfinityIds(t);
    assert VisibleAtInfinityIds(t) == AtInfinityIds(t) - corners;
    assert AtInfinityIds(t) == VisibleAtInfinityIds(t) + corners;
    SubsetSize(AtInfinityIds(t), RangeSet(|t.dcel.vertices|));
    RangeSetSize(|t.dcel.vertices|);
  }

  /** `number_of_halfedges` counts exactly the non-fictitious halfedges. */
  lemma VisibleHalfedgeCount<P, C>(t: Topology<P, C>)
    requires ScaffoldValid(t)
    ensures 2 * t.nInfVerts <= |t.dcel.halfedges|
    ensures NumberOfHalfedges(t) == |ValidHalfedgeIds(t)|
  {
    HalfedgeFilterSplits(t);
  }

  /**
   * With an even DCEL halfedge count and no wrap-around, the halfedge count
   * is twice the edge count, hence even.
   */
  lemma HalfedgesTwiceEdges<P, C>(t: Topology<P, C>)
    requires |t.dcel.halfedges| % 2 == 0
    requires 2 * t.nInfVerts <= |t.dcel.halfedges| < SIZE_MODULUS
    ensures NumberOfHalfedges(t) == 2 * NumberOfEdges(t)
    ensures NumberOfHalfedges(t) % 2 == 0
  {
  }

  /** In every arrangement the reported halfedges pair up into the reported edges. */
  lemma ReportedHalfedgesPairUp<P, C>(t: Topology<P, C>)
    requires ScaffoldValid(t)
    ensures NumberOfHalfedges(t) == 2 * NumberOfEdges(t)
    ensures NumberOfEdges(t) == |ValidHalfedgeIds(t)| / 2
  {
    HalfedgeCountEven(t.dcel);
    VisibleHalfedgeCount(t);
    HalfedgesTwiceEdges(t);
  }

  /** `number_of_faces` counts exactly the faces the face iterator shows. */
  lemma VisibleFaceCount<P, C>(t: Topology<P, C>)
    requires ScaffoldValid(t)
    ensures NumberOfFaces(t) == |ValidFaceIds(t)|
    ensures NumberOfFaces(t) == |t.dcel.faces| - 1
  {
    FaceFilterSplits(t);
  }

  /** Every unbounded face is a face, so there are at most `number_of_faces` of them. */
  lemma UnboundedFacesAmongFaces<P, C>(t: Topology<P, C>)
    requires ScaffoldValid(t)
    ensures UnboundedFaceIds(t) <= ValidFaceIds(t)
    ensures |UnboundedFaceIds(t)| <= NumberOfFaces(t)
  {
    VisibleFaceCount(t);
    SubsetSize(UnboundedFaceIds(t), ValidFaceIds(t));
  }

  /**
   * `is_empty` holds exactly when the arrangement reports no vertex, no
   * vertex at infinity and no edge.
   */
  lemma EmptyIffNothingReported<P, C>(t: Topology<P, C>)
    requires ScaffoldValid(t)
    ensures IsEmpty(t) <==>
              NumberOfVertices(t) == 0 && NumberOfVerticesAtInfinity(t) == 0 && NumberOfEdges(t) == 0
  {
    VisibleVertexCount(t);
    VisibleAtInfinityCount(t);
    HalfedgeCountEven(t.dcel);
    VisibleHalfedgeCount(t);
  }
}
