/**
 * The empty arrangement, as `is_empty` and `number_of_vertices_at_infinity`
 * count it. It holds the four corner vertices, the eight fictitious halfedges along
 * the sides of the bounding rectangle, the fictitious face `un_face` (which
 * holds the outer side of the rectangle as a hole) and one unbounded face
 * (whose outer boundary is the inner side of the rectangle).
 *
 * Halfedges 0-3 run around the inside of the rectangle, BL -> BR -> TR ->
 * TL -> BL; halfedge 4 + i is the twin of halfedge i.
 */
module Scaffold {
  import opened Common
  import opened Dcel
  import opened Arrangement

  const BL: nat := 0
  const TL: nat := 1
  const BR: nat := 2
  const TR: nat := 3
  const UN_FACE: nat := 0
  const INNER_FACE: nat := 1

  function EmptyDcel<P, C>(): (d: Dcel<P, C>)
    ensures |d.vertices| == 4 && |d.halfedges| == 8 && |d.faces| == 2
  {
    Dcel(
      [ Vertex(None, MinusInfinity, MinusInfinity, Some(3), None),
        Vertex(None, MinusInfinity, PlusInfinity, Some(2), None),
        Vertex(None, PlusInfinity, MinusInfinity, Some(0), None),
        Vertex(None, PlusInfinity, PlusInfinity, Some(1), None) ],
      [ Halfedge(None, 4, 3, 1, BR, OnFace(INNER_FACE)),
        Halfedge(None, 5, 0, 2, TR, OnFace(INNER_FACE)),
        Halfedge(None, 6, 1, 3, TL, OnFace(INNER_FACE)),
        Halfedge(None, 7, 2, 0, BL, OnFace(INNER_FACE)),
        Halfedge(None, 0, 5, 7, BL, OnHole(0)),
        Halfedge(None, 1, 6, 4, BR, OnHole(0)),
        Halfedge(None, 2, 7, 5, TR, OnHole(0)),
        Halfedge(None, 3, 4, 6, TL, OnHole(0)) ],
      [ Face(None, true, [0], []),
        Face(Some(0), true, [], []) ],
      [ Hole(UN_FACE) ],
      [])
  }

  function EmptyTopology<P, C>(): (t: Topology<P, C>)
    ensures t.dcel == EmptyDcel()
  {
    Topology(EmptyDcel(), BL, TL, BR, TR, 4, UN_FACE)
  }

  /** The empty DCEL's links all name existing records. */
  lemma EmptyDcelLinked<P, C>()
    ensures LinksInRange(EmptyDcel<P, C>())
  {
    var d := EmptyDcel<P, C>();
    forall h | 0 <= h < 8
      ensures d.halfedges[h].opposite < 8 && d.halfedges[h].prev < 8 && d.halfedges[h].next < 8
      ensures d.halfedges[h].vertex < 4
      ensures match d.halfedges[h].incidence
              case OnFace(f) => f < 2
              case OnHole(k) => k < 1
    {
      assert h in {0, 1, 2, 3, 4, 5, 6, 7};
    }
  }

  /** The empty DCEL satisfies the DCEL invariant. */
  lemma EmptyDcelValid<P, C>()
    ensures Valid(EmptyDcel<P, C>())
  {
    var d := EmptyDcel<P, C>();
    EmptyDcelLinked<P, C>();
    forall h | 0 <= h < 8
      ensures Opposite(d, h) != h && Opposite(d, Opposite(d, h)) == h
      ensures d.halfedges[Opposite(d, h)].curve == d.halfedges[h].curve
      ensures Prev(d, Next(d, h)) == h && Next(d, Prev(d, h)) == h
      ensures d.halfedges[Opposite(d, Next(d, h))].vertex == d.halfedges[h].vertex
      ensures d.halfedges[Next(d, h)].incidence == d.halfedges[h].incidence
    {
      assert h in {0, 1, 2, 3, 4, 5, 6, 7};
    }
  }

  /** Going once around the corner that h ends at meets h. */
  lemma EmptyRotationMeets<P, C>(h: nat)
    requires h < 8
    ensures LinksInRange(EmptyDcel<P, C>())
    ensures EmptyDcel<P, C>().vertices[Target(EmptyDcel<P, C>(), h)].isolated.None?
    ensures EmptyDcel<P, C>().vertices[Target(EmptyDcel<P, C>(), h)].halfedge.Some?
    ensures Around(EmptyDcel<P, C>(), EmptyDcel<P, C>().vertices[Target(EmptyDcel<P, C>(), h)].halfedge.value,
                   if h < 4 then 0 else 1) == h
  {
    EmptyDcelLinked<P, C>();
    assert h in {0, 1, 2, 3, 4, 5, 6, 7};
  }

  /** Going once around each corner meets both halfedges ending there. */
  lemma EmptyRotationsComplete<P, C>()
    ensures LinksInRange(EmptyDcel<P, C>())
    ensures RotationsComplete(EmptyDcel<P, C>())
  {
    var d := EmptyDcel<P, C>();
    EmptyDcelLinked<P, C>();
    forall h | 0 <= h < |d.halfedges|
      ensures d.vertices[Target(d, h)].isolated.None?
      ensures d.vertices[Target(d, h)].halfedge.Some?
      ensures exists k :: 0 <= k < |d.halfedges| && Around(d, d.vertices[Target(d, h)].halfedge.value, k) == h
    {
      EmptyRotationMeets<P, C>(h);
      var k := if h < 4 then 0 else 1;
      assert Around(d, d.vertices[Target(d, h)].halfedge.value, k) == h;
    }
  }

  /**
   * The inner face's outer halfedge lies on it, `un_face` lists its hole,
   * and there is no isolated vertex.
   */
  lemma EmptyFacesListContents<P, C>()
    ensures LinksInRange(EmptyDcel<P, C>())
    ensures FacesListContents(EmptyDcel<P, C>())
  {
    var d := EmptyDcel<P, C>();
    EmptyDcelLinked<P, C>();
    forall f | 0 <= f < 2 && d.faces[f].halfedge.Some?
      ensures d.faces[f].halfedge.value < 8
      ensures d.halfedges[d.faces[f].halfedge.value].incidence == OnFace(f)
    {
      assert f == INNER_FACE;
    }
    forall k | 0 <= k < 1
      ensures k in d.faces[d.holes[k].face].holes
    {
      assert k == 0;
    }
    forall v | 0 <= v < 4
      ensures d.vertices[v].isolated.None?
    {
      assert v in {0, 1, 2, 3};
    }
  }

  /** The empty DCEL satisfies the second DCEL invariant. */
  lemma EmptyDcelComplete<P, C>()
    ensures LinksInRange(EmptyDcel<P, C>())
    ensures Complete(EmptyDcel<P, C>())
  {
    EmptyRotationsComplete<P, C>();
    EmptyFacesListContents<P, C>();
  }

  /** Every vertex of the empty arrangement lies at infinity. */
  lemma EmptyAtInfinity<P, C>()
    ensures |AtInfinityIds(EmptyTopology<P, C>())| == 4
  {
    var t := EmptyTopology<P, C>();
    forall v: nat | v < 4
      ensures v in AtInfinityIds(t)
    {
    }
    assert AtInfinityIds(t) == RangeSet(4);
    RangeSetSize(4);
  }

  /** Every halfedge of the empty arrangement is fictitious. */
  lemma EmptyAllFictitious<P, C>()
    ensures |FictitiousHalfedgeIds(EmptyTopology<P, C>())| == 8
  {
    var t := EmptyTopology<P, C>();
    forall h: nat | h < 8
      ensures h in FictitiousHalfedgeIds(t)
    {
    }
    assert FictitiousHalfedgeIds(t) == RangeSet(8);
    RangeSetSize(8);
  }

  /** The only fictitious face of the empty arrangement is `un_face`. */
  lemma EmptyFictitiousFace<P, C>()
    ensures FictitiousFaceIds(EmptyTopology<P, C>()) == {UN_FACE}
  {
    var t := EmptyTopology<P, C>();
    assert UN_FACE in FictitiousFaceIds(t);
    assert INNER_FACE !in FictitiousFaceIds(t);
  }

  /** The empty arrangement satisfies the scaffold invariant. */
  lemma EmptyScaffoldValid<P, C>()
    ensures ScaffoldValid(EmptyTopology<P, C>())
  {
    EmptyDcelValid<P, C>();
    EmptyAtInfinity<P, C>();
    EmptyAllFictitious<P, C>();
    EmptyFictitiousFace<P, C>();
  }

  /**
   * The empty arrangement is what `is_empty` recognises, and it reports no
   * vertex, no vertex at infinity, no edge and no halfedge, but one face,
   * which is unbounded.
   */
  lemma EmptyArrangementReportsNothing<P, C>()
    ensures IsEmpty(EmptyTopology<P, C>())
    ensures NumberOfVertices(EmptyTopology<P, C>()) == 0
    ensures NumberOfVerticesAtInfinity(EmptyTopology<P, C>()) == 0
    ensures NumberOfHalfedges(EmptyTopology<P, C>()) == 0
    ensures NumberOfEdges(EmptyTopology<P, C>()) == 0
    ensures NumberOfFaces(EmptyTopology<P, C>()) == 1
    ensures UnboundedFaceIds(EmptyTopology<P, C>()) == {INNER_FACE}
  {
    var t := EmptyTopology<P, C>();
    assert UnboundedFaceIds(t) == {INNER_FACE} by {
      assert IsUnboundedFace(t.dcel.faces[INNER_FACE]);
      assert !IsUnboundedFace(t.dcel.faces[UN_FACE]);
    }
  }
}
