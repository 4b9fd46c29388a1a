/**
 * The doubly-connected edge list underneath an arrangement, as an arena of
 * records addressed by integer ids: the `next`, `prev`, `opposite`, target
 * vertex and incident face/hole of every halfedge, the optional point and
 * the incident halfedge or isolated-vertex record of every vertex, and the
 * outer halfedge, holes and isolated vertices of every face.
 *
 * On top of the records: the navigation of `Arrangement_2::Halfedge`
 * (source, target, face) and `Arrangement_2::Vertex::degree`.
 */
module Dcel {
  import opened Common

  /** How a halfedge knows its face: directly, or through the hole it lies on. */
  datatype Incidence = OnFace(face: nat) | OnHole(hole: nat)

  /**
   * A DCEL vertex. `point` is absent for vertices at infinity (including the
   * four fictitious corners); `halfedge` is an incoming incident halfedge;
   * `isolated` is the isolated-vertex record of an isolated vertex.
   */
  datatype Vertex<P> = Vertex(point: Option<P>, boundaryX: Boundary, boundaryY: Boundary,
                              halfedge: Option<nat>, isolated: Option<nat>)

  /** A DCEL halfedge; `curve` is absent for fictitious halfedges. */
  datatype Halfedge<C> = Halfedge(curve: Option<C>, opposite: nat, prev: nat, next: nat,
                                  vertex: nat, incidence: Incidence)

  /**
   * A DCEL face; `halfedge` (the outer boundary) is absent only for the
   * fictitious face. `holes` lists the hole records and `isolatedVertices`
   * the isolated vertices lying inside the face.
   */
  datatype Face = Face(halfedge: Option<nat>, unbounded: bool, holes: seq<nat>,
                       isolatedVertices: seq<nat>)

  /** A hole record: the face the hole lies in. */
  datatype Hole = Hole(face: nat)

  /** An isolated-vertex record: the face containing the isolated vertex. */
  datatype IsolatedVertex = IsolatedVertex(face: nat)

  datatype Dcel<P, C> = Dcel(vertices: seq<Vertex<P>>, halfedges: seq<Halfedge<C>>,
                             faces: seq<Face>, holes: seq<Hole>,
                             isolatedVertices: seq<IsolatedVertex>)

  /** Every id stored in a record names an existing record. */
  ghost predicate LinksInRange<P, C>(d: Dcel<P, C>)
  {
    && (forall v :: 0 <= v < |d.vertices| ==>
          (d.vertices[v].halfedge.Some? ==> d.vertices[v].halfedge.value < |d.halfedges|) &&
          (d.vertices[v].isolated.Some? ==> d.vertices[v].isolated.value < |d.isolatedVertices|))
    && (forall h :: 0 <= h < |d.halfedges| ==>
          && d.halfedges[h].opposite < |d.halfedges|
          && d.halfedges[h].prev < |d.halfedges|
          && d.halfedges[h].next < |d.halfedges|
          && d.halfedges[h].vertex < |d.vertices|
          && match d.halfedges[h].incidence
             case OnFace(f) => f < |d.faces|
             case OnHole(k) => k < |d.holes|)
    && (forall k :: 0 <= k < |d.holes| ==> d.holes[k].face < |d.faces|)
    && (forall k :: 0 <= k < |d.isolatedVertices| ==> d.isolatedVertices[k].face < |d.faces|)
  }

  /** The twin of halfedge h. */
  function Opposite<P, C>(d: Dcel<P, C>, h: nat): (r: nat)
    requires LinksInRange(d) && h < |d.halfedges|
    ensures r < |d.halfedges|
  {
    d.halfedges[h].opposite
  }

  /** The successor of halfedge h along its boundary cycle. */
  function Next<P, C>(d: Dcel<P, C>, h: nat): (r: nat)
    requires LinksInRange(d) && h < |d.halfedges|
    ensures r < |d.halfedges|
  {
    d.halfedges[h].next
  }

  /** The predecessor of halfedge h along its boundary cycle. */
  function Prev<P, C>(d: Dcel<P, C>, h: nat): (r: nat)
    requires LinksInRange(d) && h < |d.halfedges|
    ensures r < |d.halfedges|
  {
    d.halfedges[h].prev
  }

  /**
   * Twins come in pairs: `opposite` is an involution without fixed points,
   * and the two halfedges of an edge carry the edge's one curve.
   */
  ghost predicate TwinsPaired<P, C>(d: Dcel<P, C>)
    requires LinksInRange(d)
  {
    forall h {:trigger Opposite(d, h)} :: 0 <= h < |d.halfedges| ==>
      && Opposite(d, h) != h
      && Opposite(d, Opposite(d, h)) == h
      && d.halfedges[Opposite(d, h)].curve == d.halfedges[h].curve
  }

  /** `next` and `prev` are mutual inverses, so every boundary chain is a cycle. */
  ghost predicate NextPrevInverse<P, C>(d: Dcel<P, C>)
    requires LinksInRange(d)
  {
    && (forall h {:trigger Next(d, h)} :: 0 <= h < |d.halfedges| ==> Prev(d, Next(d, h)) == h)
    && (forall h {:trigger Prev(d, h)} :: 0 <= h < |d.halfedges| ==> Next(d, Prev(d, h)) == h)
  }

  /** A halfedge's successor leaves from the halfedge's target vertex. */
  ghost predicate ChainsConnect<P, C>(d: Dcel<P, C>)
    requires LinksInRange(d)
  {
    forall h {:trigger Next(d, h)} :: 0 <= h < |d.halfedges| ==>
      d.halfedges[Opposite(d, Next(d, h))].vertex == d.halfedges[h].vertex
  }

  /** All halfedges of one boundary cycle share one face or hole record. */
  ghost predicate CcbsShareIncidence<P, C>(d: Dcel<P, C>)
    requires LinksInRange(d)
  {
    forall h {:trigger Next(d, h)} :: 0 <= h < |d.halfedges| ==>
      d.halfedges[Next(d, h)].incidence == d.halfedges[h].incidence
  }

  /** The halfedge a vertex points to is incident to (ends at) that vertex. */
  ghost predicate VertexLinks<P, C>(d: Dcel<P, C>)
    requires LinksInRange(d)
  {
    forall v :: 0 <= v < |d.vertices| && d.vertices[v].halfedge.Some? ==>
      d.halfedges[d.vertices[v].halfedge.value].vertex == v
  }

  /**
   * The halfedges ending at a vertex form one rotation: each of them is met
   * going around from the vertex's own halfedge, and no halfedge ends at an
   * isolated vertex or at a vertex without a halfedge.
   */
  ghost predicate RotationsComplete<P, C>(d: Dcel<P, C>)
    requires LinksInRange(d)
  {
    forall h {:trigger Target(d, h)} :: 0 <= h < |d.halfedges| ==>
      && d.vertices[Target(d, h)].isolated.None?
      && d.vertices[Target(d, h)].halfedge.Some?
      && exists k :: 0 <= k < |d.halfedges| &&
           Around(d, d.vertices[Target(d, h)].halfedge.value, k) == h
  }

  /**
   * Every face's outer halfedge lies on that face, and every face lists the
   * holes and the isolated vertices whose records name it as their face.
   */
  ghost predicate FacesListContents<P, C>(d: Dcel<P, C>)
    requires LinksInRange(d)
  {
    && (forall f :: 0 <= f < |d.faces| && d.faces[f].halfedge.Some? ==>
          && d.faces[f].halfedge.value < |d.halfedges|
          && d.halfedges[d.faces[f].halfedge.value].incidence == OnFace(f))
    && (forall k :: 0 <= k < |d.holes| ==> k in d.faces[d.holes[k].face].holes)
    && (forall v :: 0 <= v < |d.vertices| && d.vertices[v].isolated.Some? ==>
          v in d.faces[d.isolatedVertices[d.vertices[v].isolated.value].face].isolatedVertices)
  }

  /** The combinatorial consistency of the DCEL that the navigation relies on. */
  ghost predicate Valid<P, C>(d: Dcel<P, C>)
  {
    && LinksInRange(d)
    && TwinsPaired(d)
    && NextPrevInverse(d)
    && ChainsConnect(d)
    && CcbsShareIncidence(d)
    && VertexLinks(d)
  }

  /**
   * The part of the DCEL invariant that ties records to the lists that
   * index them: rotations around vertices and the contents of faces.
   */
  ghost predicate Complete<P, C>(d: Dcel<P, C>)
    requires LinksInRange(d)
  {
    RotationsComplete(d) && FacesListContents(d)
  }

  // ---------------------------------------------------------------------
  // Halfedge navigation
  // ---------------------------------------------------------------------

  /** `Halfedge::target`: the vertex the halfedge points to. */
  function Target<P, C>(d: Dcel<P, C>, h: nat): (v: nat)
    requires LinksInRange(d) && h < |d.halfedges|
    ensures v < |d.vertices|
  {
    d.halfedges[h].vertex
  }

  /** `Halfedge::source`: the target of the twin. */
  function Source<P, C>(d: Dcel<P, C>, h: nat): (v: nat)
    requires LinksInRange(d) && h < |d.halfedges|
    ensures v < |d.vertices|
  {
    d.halfedges[d.halfedges[h].opposite].vertex
  }

  /** `Halfedge::face`: the incident face, looked up through the hole record for a halfedge on a hole. */
  function FaceOf<P, C>(d: Dcel<P, C>, h: nat): (f: nat)
    requires LinksInRange(d) && h < |d.halfedges|
    ensures f < |d.faces|
  {
    match d.halfedges[h].incidence
    case OnFace(g) => g
    case OnHole(k) => d.holes[k].face
  }

  /** A halfedge on a hole reports the face that lists that hole. */
  lemma HoleListedByItsFace<P, C>(d: Dcel<P, C>, h: nat)
    requires Valid(d) && Complete(d) && h < |d.halfedges| && d.halfedges[h].incidence.OnHole?
    ensures d.halfedges[h].incidence.hole in d.faces[FaceOf(d, h)].holes
  {
  }

  /**
   * A halfedge on the outer boundary of a face reports that face, and so does
   * every halfedge met walking `next` from it.
   */
  lemma OuterCcbReportsItsFace<P, C>(d: Dcel<P, C>, f: nat, k: nat)
    requires Valid(d) && Complete(d) && f < |d.faces| && d.faces[f].halfedge.Some?
    ensures d.faces[f].halfedge.value < |d.halfedges|
    ensures FaceOf(d, CcbWalk(d, d.faces[f].halfedge.value, k)) == f
  {
    CcbHasOneFace(d, d.faces[f].halfedge.value, k);
  }

  /**
   * `Vertex::face`: the face containing an isolated vertex, looked up
   * through its isolated-vertex record.
   */
  function IsolatedVertexFace<P, C>(d: Dcel<P, C>, v: nat): (f: nat)
    requires Valid(d) && Complete(d) && v < |d.vertices| && d.vertices[v].isolated.Some?
    ensures f < |d.faces|
    ensures v in d.faces[f].isolatedVertices
  {
    d.isolatedVertices[d.vertices[v].isolated.value].face
  }

  /** A twin runs the other way: its source is the halfedge's target and vice versa. */
  lemma TwinReversesEndpoints<P, C>(d: Dcel<P, C>, h: nat)
    requires Valid(d) && h < |d.halfedges|
    ensures Source(d, Opposite(d, h)) == Target(d, h)
    ensures Target(d, Opposite(d, h)) == Source(d, h)
    ensures Source(d, h) == Target(d, Prev(d, h))
  {
    assert Next(d, Prev(d, h)) == h;
  }

  /** The halfedge reached from h by k steps of `next` (a walk along h's boundary cycle). */
  function CcbWalk<P, C>(d: Dcel<P, C>, h: nat, k: nat): (r: nat)
    requires LinksInRange(d) && h < |d.halfedges|
    ensures r < |d.halfedges|
  {
    if k == 0 then h else Next(d, CcbWalk(d, h, k - 1))
  }

  /** Every halfedge met on a boundary cycle reports the same incident face. */
  lemma {:induction false} CcbHasOneFace<P, C>(d: Dcel<P, C>, h: nat, k: nat)
    requires Valid(d) && h < |d.halfedges|
    ensures FaceOf(d, CcbWalk(d, h, k)) == FaceOf(d, h)
    ensures d.halfedges[CcbWalk(d, h, k)].incidence == d.halfedges[h].incidence
  {
    if k > 0 {
      CcbHasOneFace(d, h, k - 1);
    }
  }

  // ---------------------------------------------------------------------
  // Going around a vertex
  // ---------------------------------------------------------------------

  /** One step around the target vertex of h: the twin of h's successor. */
  function AroundStep<P, C>(d: Dcel<P, C>, h: nat): (r: nat)
    requires LinksInRange(d) && h < |d.halfedges|
    ensures r < |d.halfedges|
  {
    Opposite(d, Next(d, h))
  }

  /** The halfedge reached from h by k steps around its target vertex. */
  function Around<P, C>(d: Dcel<P, C>, h: nat, k: nat): (r: nat)
    requires LinksInRange(d) && h < |d.halfedges|
    ensures r < |d.halfedges|
  {
    if k == 0 then h else AroundStep(d, Around(d, h, k - 1))
  }

  /** Every halfedge met going around a vertex still ends at that vertex. */
  lemma {:induction false} AroundStaysAtVertex<P, C>(d: Dcel<P, C>, h: nat, k: nat)
    requires Valid(d) && h < |d.halfedges|
    ensures Target(d, Around(d, h, k)) == Target(d, h)
  {
    if k > 0 {
      AroundStaysAtVertex(d, h, k - 1);
    }
  }

  /** Stepping around a vertex loses no information: distinct halfedges step to distinct ones. */
  lemma AroundStepInjective<P, C>(d: Dcel<P, C>, x: nat, y: nat)
    requires Valid(d) && x < |d.halfedges| && y < |d.halfedges|
    requires AroundStep(d, x) == AroundStep(d, y)
    ensures x == y
  {
    var nx, ny := Next(d, x), Next(d, y);
    assert Opposite(d, Opposite(d, nx)) == nx && Opposite(d, Opposite(d, ny)) == ny;
    assert Prev(d, nx) == x && Prev(d, ny) == y;
  }

  /** Equal positions on the walk stay equal when both are moved one step back. */
  lemma {:induction false} AroundShiftDown<P, C>(d: Dcel<P, C>, h: nat, i: nat, j: nat)
    requires Valid(d) && h < |d.halfedges|
    requires i <= j && Around(d, h, i) == Around(d, h, j)
    ensures Around(d, h, 0) == Around(d, h, j - i)
    decreases i
  {
    if i > 0 {
      AroundStepInjective(d, Around(d, h, i - 1), Around(d, h, j - 1));
      AroundShiftDown(d, h, i - 1, j - 1);
    }
  }

  /** The first m positions of the walk around a vertex. */
  ghost function Orbit<P, C>(d: Dcel<P, C>, h: nat, m: nat): (s: set<nat>)
    requires LinksInRange(d) && h < |d.halfedges|
    ensures forall i :: 0 <= i < m ==> Around(d, h, i) in s
    ensures forall x :: x in s ==> x < |d.halfedges|
  {
    if m == 0 then {} else Orbit(d, h, m - 1) + {Around(d, h, m - 1)}
  }

  /** Pairwise distinct positions fill an orbit of exactly m elements. */
  lemma {:induction false} OrbitSize<P, C>(d: Dcel<P, C>, h: nat, m: nat)
    requires LinksInRange(d) && h < |d.halfedges|
    requires forall i, j :: 0 <= i < j < m ==> Around(d, h, i) != Around(d, h, j)
    ensures |Orbit(d, h, m)| == m
  {
    if m > 0 {
      OrbitSize(d, h, m - 1);
      NotInOrbit(d, h, m - 1, Around(d, h, m - 1));
    }
  }

  /** A halfedge that none of the first m positions equals is not in the orbit. */
  lemma {:induction false} NotInOrbit<P, C>(d: Dcel<P, C>, h: nat, m: nat, y: nat)
    requires LinksInRange(d) && h < |d.halfedges|
    requires forall i :: 0 <= i < m ==> Around(d, h, i) != y
    ensures y !in Orbit(d, h, m)
  {
    if m > 0 {
      NotInOrbit(d, h, m - 1, y);
    }
  }

  /** Among the first |halfedges| + 1 positions of a walk two coincide (pigeonhole). */
  lemma AroundRepeats<P, C>(d: Dcel<P, C>, h: nat)
    requires LinksInRange(d) && h < |d.halfedges|
    ensures exists i, j :: 0 <= i < j <= |d.halfedges| && Around(d, h, i) == Around(d, h, j)
  {
    var n := |d.halfedges|;
    if forall i, j :: 0 <= i < j < n + 1 ==> Around(d, h, i) != Around(d, h, j) {
      OrbitSize(d, h, n + 1);
      assert Orbit(d, h, n + 1) <= RangeSet(n);
      SubsetSize(Orbit(d, h, n + 1), RangeSet(n));
      RangeSetSize(n);
      assert false;
    }
  }

  /** Going around a vertex of a valid DCEL returns to the start within |halfedges| steps. */
  lemma AroundReturns<P, C>(d: Dcel<P, C>, h: nat)
    requires Valid(d) && h < |d.halfedges|
    ensures exists k :: 1 <= k <= |d.halfedges| && Around(d, h, k) == h
  {
    AroundRepeats(d, h);
    var i, j :| 0 <= i < j <= |d.halfedges| && Around(d, h, i) == Around(d, h, j);
    AroundShiftDown(d, h, i, j);
    assert Around(d, h, j - i) == h;
  }

  /** The walk around a vertex visits pairwise distinct halfedges before it first returns. */
  lemma AroundDistinctBeforeReturn<P, C>(d: Dcel<P, C>, h: nat, n: nat, i: nat, j: nat)
    requires Valid(d) && h < |d.halfedges|
    requires forall k :: 0 < k < n ==> Around(d, h, k) != h
    requires i < j < n
    ensures Around(d, h, i) != Around(d, h, j)
  {
    if Around(d, h, i) == Around(d, h, j) {
      AroundShiftDown(d, h, i, j);
      assert false;
    }
  }

  /**
   * `Vertex::degree`: 0 for an isolated vertex or one without an incident
   * halfedge; otherwise the number of steps h := opposite(next(h)) needed to
   * come back to the vertex's halfedge. These are exactly the halfedges
   * ending at the vertex (see `DegreeIsIncidentCount`).
   */
  method Degree<P, C>(d: Dcel<P, C>, v: nat) returns (n: nat)
    requires Valid(d) && Complete(d) && v < |d.vertices|
    ensures n == |IncidentHalfedges(d, v)|
    ensures n == 0 <==> d.vertices[v].isolated.Some? || d.vertices[v].halfedge.None?
    ensures n > 0 ==> n <= |d.halfedges|
    ensures n > 0 ==> Around(d, d.vertices[v].halfedge.value, n) == d.vertices[v].halfedge.value
    ensures n > 0 ==> forall k :: 0 < k < n ==>
              Around(d, d.vertices[v].halfedge.value, k) != d.vertices[v].halfedge.value
  {
    if d.vertices[v].isolated.Some? {
      NoIncidentHalfedges(d, v);
      return 0;
    }
    n := 0;
    if d.vertices[v].halfedge.None? {
      NoIncidentHalfedges(d, v);
    } else {
      var first := d.vertices[v].halfedge.value;
      AroundReturns(d, first);
      ghost var back :| 1 <= back <= |d.halfedges| && Around(d, first, back) == first;
      var curr := AroundStep(d, first);
      n := 1;
      while curr != first
        invariant 1 <= n <= back
        invariant curr == Around(d, first, n)
        invariant forall k :: 0 < k < n ==> Around(d, first, k) != first
        decreases back - n
      {
        n := n + 1;
        curr := AroundStep(d, curr);
      }
      DegreeIsIncidentCount(d, v, n);
    }
  }

  /** The halfedges ending at vertex v: one per incident edge. */
  ghost function IncidentHalfedges<P, C>(d: Dcel<P, C>, v: nat): (s: set<nat>)
  {
    set h: nat | h < |d.halfedges| && d.halfedges[h].vertex == v
  }

  /** An isolated vertex, or one without a halfedge, has no incident halfedge. */
  lemma NoIncidentHalfedges<P, C>(d: Dcel<P, C>, v: nat)
    requires Valid(d) && Complete(d) && v < |d.vertices|
    requires d.vertices[v].isolated.Some? || d.vertices[v].halfedge.None?
    ensures IncidentHalfedges(d, v) == {}
  {
    forall h | 0 <= h < |d.halfedges|
      ensures d.halfedges[h].vertex != v
    {
      assert d.vertices[Target(d, h)].isolated.None? && d.vertices[Target(d, h)].halfedge.Some?;
    }
  }

  /** Walking a + b steps is walking a steps and then b more. */
  lemma {:induction false} AroundAdd<P, C>(d: Dcel<P, C>, h: nat, a: nat, b: nat)
    requires LinksInRange(d) && h < |d.halfedges|
    ensures Around(d, h, a + b) == Around(d, Around(d, h, a), b)
  {
    if b > 0 {
      AroundAdd(d, h, a, b - 1);
    }
  }

  /**
   * Once the walk is back at its start after n steps, every later position
   * repeats one of the first n.
   */
  lemma {:induction false} AroundStaysInOrbit<P, C>(d: Dcel<P, C>, h: nat, n: nat, k: nat)
    requires LinksInRange(d) && h < |d.halfedges|
    requires n > 0 && Around(d, h, n) == h
    ensures Around(d, h, k) in Orbit(d, h, n)
    decreases k
  {
    if k >= n {
      AroundAdd(d, h, n, k - n);
      AroundStaysInOrbit(d, h, n, k - n);
    }
  }

  /** The first m positions of the walk all end at the start's target. */
  lemma {:induction false} OrbitAtVertex<P, C>(d: Dcel<P, C>, h: nat, m: nat)
    requires Valid(d) && h < |d.halfedges|
    ensures Orbit(d, h, m) <= IncidentHalfedges(d, Target(d, h))
  {
    if m > 0 {
      OrbitAtVertex(d, h, m - 1);
      AroundStaysAtVertex(d, h, m - 1);
    }
  }

  /**
   * The n halfedges met going around v before the walk first returns are
   * exactly the halfedges ending at v, so n is the number of edges incident
   * to v.
   */
  lemma DegreeIsIncidentCount<P, C>(d: Dcel<P, C>, v: nat, n: nat)
    requires Valid(d) && Complete(d) && v < |d.vertices| && d.vertices[v].halfedge.Some?
    requires n > 0 && Around(d, d.vertices[v].halfedge.value, n) == d.vertices[v].halfedge.value
    requires forall k :: 0 < k < n ==>
               Around(d, d.vertices[v].halfedge.value, k) != d.vertices[v].halfedge.value
    ensures Orbit(d, d.vertices[v].halfedge.value, n) == IncidentHalfedges(d, v)
    ensures |IncidentHalfedges(d, v)| == n
  {
    var first := d.vertices[v].halfedge.value;
    forall i, j | 0 <= i < j < n
      ensures Around(d, first, i) != Around(d, first, j)
    {
      AroundDistinctBeforeReturn(d, first, n, i, j);
    }
    OrbitSize(d, first, n);
    OrbitAtVertex(d, first, n);
    forall h | h in IncidentHalfedges(d, v)
      ensures h in Orbit(d, first, n)
    {
      assert Target(d, h) == v;
      var k :| 0 <= k < |d.halfedges| && Around(d, first, k) == h;
      AroundStaysInOrbit(d, first, n, k);
    }
  }
}
