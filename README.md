# Arrangement_2 core, modelled in Dafny

This project models the read-only core and the observer registry of CGAL's
`Arrangement_2` class template (`Arrangement_2/include/CGAL/Arrangement_2.h`).
An arrangement is a planar subdivision stored in a doubly-connected edge list
(DCEL). Around the real vertices, edges and faces there is a fictitious
scaffold, which no public query shows:

- four corner vertices `v_bl`, `v_tl`, `v_br`, `v_tr` of a bounding rectangle;
- the fictitious halfedges that join the vertices at infinity;
- one fictitious face `un_face` outside the rectangle.

The modules are:

- `Common`: the option type used for nullable DCEL pointers, the
  `Comparison_result` and `Boundary_type` enumerations, and counting facts
  about sets of record ids.
- `Dcel`: the DCEL as an arena of vertex, halfedge, face, hole and
  isolated-vertex records addressed by integer ids. It holds the validity
  invariant the navigation relies on (twins pair up and share their curve,
  `next`/`prev` are inverse, chains connect at vertices, a boundary cycle
  shares one face), and a second invariant, `Dcel.Complete`: the halfedges
  ending at a vertex form one rotation around it, a face's outer halfedge
  lies on that face, and faces list their holes and isolated vertices.
  It also holds the navigation of `Arrangement_2::Halfedge` (source, target,
  face), `Vertex::face`, and `Vertex::degree`, which is an imperative loop
  going around the vertex.
- `Arrangement`: the fields of `Arrangement_2` that the queries read (the
  DCEL, the four corners, `n_inf_verts`, `un_face`). It holds the filter
  functors that decide what the public iterators show, `is_empty` and the
  `number_of_*` counters, and the scaffold invariant under which the counters
  equal the sizes of the filtered views.
- `BoundedComparators`: the `Tag_false` overloads (traits that support
  bounded curves only) of `_compare_x_imp`, `_compare_xy_imp`,
  `_compare_y_at_x_imp` and `_is_face_unbounded_imp`. The geometric traits
  are function parameters.
- `Scaffold`: the empty arrangement as `is_empty` (lines 1063-1066) and the
  `- 4` of `number_of_vertices_at_infinity` (lines 1086-1087) describe it:
  four corners, eight fictitious halfedges, `un_face` and one unbounded
  face. It is shown to satisfy the invariants the other modules assume.
- `Observers`: the `observers` list as a class with `_register_observer`,
  `_unregister_observer`, and the forward `_notify_before_*` and reverse
  `_notify_after_*` loops. Each callback an observer receives is appended to
  a trace, so the order of notifications is part of the state.

The header takes `Size` from the DCEL class (line 73), which is defined
elsewhere. The model assumes it is an unsigned 64-bit integer, so the
counters subtract modulo 2^64 (`Arrangement.SizeSub`). Under the scaffold
invariant no wrap-around happens.

The member comment on `v_br` (line 997) gives its position as (-oo,+oo), the
same as `v_tl`. The comparators return SMALLER for `v_br`, which puts it at
x = +oo, and the name says bottom. So the model places `v_br` at (+oo,-oo)
(`Arrangement.CornersPlaced`).

The doc comment of `_construct_empty_arrangement` (lines 1727-1731) says the
empty arrangement has two vertices at infinity joined by two edges. The code
of `is_empty` (lines 1063-1066) and `number_of_vertices_at_infinity` (lines
1086-1087) counts four vertices and eight halfedges in it. The model follows
the code (`Scaffold.EmptyDcel`).

## Model

| member | source | states |
|---|---|---|
| Dcel.Target | Arrangement_2/include/CGAL/Arrangement_2.h:774-783 | `target` returns the vertex the halfedge points to, and it is an existing vertex |
| Dcel.Source | Arrangement_2/include/CGAL/Arrangement_2.h:756-765 | `source` returns the target of the twin, and it is an existing vertex |
| Dcel.FaceOf | Arrangement_2/include/CGAL/Arrangement_2.h:792-808 | `face` reads the face directly, or through the hole record for a halfedge on a hole; the result is an existing face |
| Dcel.IsolatedVertexFace | Arrangement_2/include/CGAL/Arrangement_2.h:700-718 | `Vertex::face` of an isolated vertex is the face that contains it: an existing face whose list of isolated vertices holds the vertex |
| Dcel.HoleListedByItsFace | Arrangement_2/include/CGAL/Arrangement_2.h:792-808 | for a halfedge on a hole, `face` is the face that lists that hole among its holes |
| Dcel.OuterCcbReportsItsFace | Arrangement_2/include/CGAL/Arrangement_2.h:792-808 | for a face with an outer boundary, `face` reports that face for its outer halfedge and for every halfedge met walking `next` from it |
| Dcel.TwinReversesEndpoints | Arrangement_2/include/CGAL/Arrangement_2.h:756-783 | the twin's source is the halfedge's target and the twin's target is its source; the source is the target of `prev` |
| Dcel.CcbHasOneFace | Arrangement_2/include/CGAL/Arrangement_2.h:792-808 | `face` reports the same face for every halfedge met walking `next` along one boundary cycle |
| Dcel.AroundStaysAtVertex | Arrangement_2/include/CGAL/Arrangement_2.h:665-671 | each step `he := he->next()->opposite()` of the degree loop yields another halfedge ending at the same vertex |
| Dcel.AroundReturns | Arrangement_2/include/CGAL/Arrangement_2.h:665-671 | the do-while loop of `degree` terminates: the walk returns to the first halfedge within `|halfedges|` steps |
| Dcel.AroundDistinctBeforeReturn | Arrangement_2/include/CGAL/Arrangement_2.h:665-671 | before it first returns, the walk around a vertex never meets the same halfedge twice |
| Dcel.Degree | Arrangement_2/include/CGAL/Arrangement_2.h:654-674 | the degree is the number of halfedges ending at the vertex, i.e. of its incident edges; it is 0 exactly for an isolated vertex or one without an incident halfedge; otherwise it is the number of steps until the walk first returns, which is at most the number of halfedges |
| Dcel.NoIncidentHalfedges | Arrangement_2/include/CGAL/Arrangement_2.h:657-658 | no halfedge ends at an isolated vertex or at a vertex without a halfedge, so degree 0 is the right count |
| Dcel.AroundStaysInOrbit | Arrangement_2/include/CGAL/Arrangement_2.h:665-671 | once the walk is back at its first halfedge, it only ever meets the halfedges it met in its first round |
| Dcel.DegreeIsIncidentCount | Arrangement_2/include/CGAL/Arrangement_2.h:654-674 | the halfedges met in one round of the walk are exactly the halfedges ending at the vertex, and there are as many as the steps of the round |
| Arrangement.SizeSub | Arrangement_2/include/CGAL/Arrangement_2.h:1077-1117 | `Size` subtraction stays below 2^64 and is exact when no wrap-around happens |
| Arrangement.IsValidVertex | Arrangement_2/include/CGAL/Arrangement_2.h:118-124 | `_Is_valid_vertex` keeps a vertex exactly when it has a point; `VisibleVertexCount` shows the vertices it keeps are what `number_of_vertices` counts |
| Arrangement.IsValidHalfedge | Arrangement_2/include/CGAL/Arrangement_2.h:129-135 | `_Is_valid_halfedge` keeps a halfedge exactly when it carries a curve; `VisibleHalfedgeCount` and `ReportedHalfedgesPairUp` show the halfedges it keeps are what `number_of_halfedges` counts, two per edge |
| Arrangement.IsValidFace | Arrangement_2/include/CGAL/Arrangement_2.h:140-146 | `_Is_valid_face` keeps a face exactly when it has an outer halfedge; `FaceFiltersDropOnlyTheFictitiousFace` shows it drops `un_face` and nothing else |
| Arrangement.IsUnboundedFace | Arrangement_2/include/CGAL/Arrangement_2.h:151-157 | `_Is_unbounded_face` keeps a face that is unbounded and has an outer halfedge; `FaceFiltersDropOnlyTheFictitiousFace` shows it keeps only valid faces |
| Arrangement.IsNonFictitiousVertex | Arrangement_2/include/CGAL/Arrangement_2.h:456-482 | `_Is_non_fictitious_vertex` keeps a vertex with a point, or any vertex other than the four corners; `FictitiousVerticesAreCorners` shows it drops exactly the corners |
| Arrangement.FictitiousVerticesAreCorners | Arrangement_2/include/CGAL/Arrangement_2.h:456-482 | `_Is_non_fictitious_vertex` rejects a vertex if and only if it is one of the four corners; every vertex `_Is_valid_vertex` keeps passes it |
| Arrangement.FaceFiltersDropOnlyTheFictitiousFace | Arrangement_2/include/CGAL/Arrangement_2.h:140-157 | `_Is_valid_face` rejects a face if and only if it is `un_face`; a face `_Is_unbounded_face` keeps is also kept by `_Is_valid_face` |
| Arrangement.IsEmpty | Arrangement_2/include/CGAL/Arrangement_2.h:1061-1067 | `is_empty` holds when the DCEL has 4 vertices and 8 halfedges; `EmptyIffNothingReported` shows this is exactly "no vertex, no vertex at infinity, no edge reported" |
| Arrangement.NumberOfVertices | Arrangement_2/include/CGAL/Arrangement_2.h:1077-1081 | `number_of_vertices` is DCEL vertices minus `n_inf_verts`, a `Size` value (below 2^64, subtraction modulo 2^64); `VisibleVertexCount` shows it counts the vertices that have a point |
| Arrangement.NumberOfVerticesAtInfinity | Arrangement_2/include/CGAL/Arrangement_2.h:1084-1088 | `number_of_vertices_at_infinity` is `n_inf_verts` minus 4, a `Size` value; `VisibleAtInfinityCount` shows it counts the vertices at infinity other than the corners |
| Arrangement.NumberOfHalfedges | Arrangement_2/include/CGAL/Arrangement_2.h:1097-1102 | `number_of_halfedges` is DCEL halfedges minus twice `n_inf_verts`, a `Size` value; `VisibleHalfedgeCount` shows it counts the halfedges that carry a curve |
| Arrangement.NumberOfEdges | Arrangement_2/include/CGAL/Arrangement_2.h:1105-1110 | `number_of_edges` is half the DCEL halfedges minus `n_inf_verts`, a `Size` value; `ReportedHalfedgesPairUp` shows it is half the halfedges that carry a curve |
| Arrangement.NumberOfFaces | Arrangement_2/include/CGAL/Arrangement_2.h:1113-1117 | `number_of_faces` is DCEL faces minus one, a `Size` value; `VisibleFaceCount` shows it counts the faces other than `un_face` |
| Arrangement.NumberOfUnboundedFaces | Arrangement_2/include/CGAL/Arrangement_2.h:1120-1132 | the loop over the unbounded-face iterator counts exactly the faces `_Is_unbounded_face` keeps |
| Arrangement.HalfedgeCountEven | Arrangement_2/include/CGAL/Arrangement_2.h:1096-1102 | the DCEL holds an even number of halfedges, because `opposite` pairs them up |
| Arrangement.VisibleVertexCount | Arrangement_2/include/CGAL/Arrangement_2.h:1077-1081 | `number_of_vertices` equals the number of vertices `_Is_valid_vertex` keeps, which is the DCEL size minus `n_inf_verts`, with no wrap-around |
| Arrangement.VisibleAtInfinityCount | Arrangement_2/include/CGAL/Arrangement_2.h:1084-1088 | `n_inf_verts` is at least 4; `number_of_vertices_at_infinity` equals the number of vertices at infinity that are not corners |
| Arrangement.VisibleHalfedgeCount | Arrangement_2/include/CGAL/Arrangement_2.h:1097-1102 | `number_of_halfedges` equals the number of halfedges `_Is_valid_halfedge` keeps |
| Arrangement.HalfedgesTwiceEdges | Arrangement_2/include/CGAL/Arrangement_2.h:1096-1110 | when the DCEL halfedge count is even and nothing wraps, `number_of_halfedges` is twice `number_of_edges`, so it is even |
| Arrangement.ReportedHalfedgesPairUp | Arrangement_2/include/CGAL/Arrangement_2.h:1096-1110 | in every arrangement `number_of_halfedges` is twice `number_of_edges`, and the edges are half of the non-fictitious halfedges |
| Arrangement.VisibleFaceCount | Arrangement_2/include/CGAL/Arrangement_2.h:1113-1117 | `number_of_faces` equals the number of faces `_Is_valid_face` keeps, which is the DCEL size minus one |
| Arrangement.UnboundedFacesAmongFaces | Arrangement_2/include/CGAL/Arrangement_2.h:1113-1132 | every unbounded face is counted among the faces, so `number_of_unbounded_faces` is at most `number_of_faces` |
| Arrangement.EmptyIffNothingReported | Arrangement_2/include/CGAL/Arrangement_2.h:1061-1110 | `is_empty` (4 DCEL vertices and 8 DCEL halfedges) holds if and only if no vertex, no vertex at infinity and no edge is reported |
| BoundedComparators.CompareX | Arrangement_2/include/CGAL/Arrangement_2.h:1836-1846 | `_compare_x_imp` never answers EQUAL for a corner (no point lies at x = -oo or +oo); `CompareXFollowsBoundary` gives the corner rules |
| BoundedComparators.CompareXY | Arrangement_2/include/CGAL/Arrangement_2.h:1866-1876 | `_compare_xy_imp` never answers EQUAL for a corner; `CompareXYFollowsBoundary` and `CompareXYRefinesCompareX` give its meaning |
| BoundedComparators.CompareYAtX | Arrangement_2/include/CGAL/Arrangement_2.h:1897-1910 | `_compare_y_at_x_imp` never answers EQUAL for an edge at y = -oo or +oo; `RectangleSidesBoundEveryPoint` and `CompareYAtXIgnoresDirection` give its meaning |
| BoundedComparators.CompareXFollowsBoundary | Arrangement_2/include/CGAL/Arrangement_2.h:1836-1846 | `_compare_x_imp` returns LARGER for a corner at x = -oo and SMALLER for one at x = +oo; any other vertex goes to the traits |
| BoundedComparators.CompareXYFollowsBoundary | Arrangement_2/include/CGAL/Arrangement_2.h:1866-1876 | `_compare_xy_imp` decides the corners by their x-boundary alone; any other vertex goes to the traits |
| BoundedComparators.CompareXYRefinesCompareX | Arrangement_2/include/CGAL/Arrangement_2.h:1836-1876 | if the traits' xy-comparison is lexicographic, `_compare_xy_imp` agrees with `_compare_x_imp` whenever that one is not EQUAL |
| BoundedComparators.RectangleSidesBoundEveryPoint | Arrangement_2/include/CGAL/Arrangement_2.h:1897-1910 | `_compare_y_at_x_imp` puts every point above the bottom side of the rectangle (LARGER) and below the top side (SMALLER) |
| BoundedComparators.CompareYAtXIgnoresDirection | Arrangement_2/include/CGAL/Arrangement_2.h:1897-1910 | the assertion's condition holds for the twin as well, and `_compare_y_at_x_imp` gives the same answer for a halfedge and its twin |
| Scaffold.EmptyDcelValid | Arrangement_2/include/CGAL/Arrangement_2.h:1061-1067 | the DCEL of the empty arrangement as `is_empty` describes it (four corners, eight fictitious halfedges) satisfies the DCEL invariant |
| Scaffold.EmptyDcelComplete | Arrangement_2/include/CGAL/Arrangement_2.h:1061-1067 | in the empty arrangement the walk around each corner meets both halfedges ending there, the inner face's outer halfedge lies on it, and `un_face` lists its hole |
| Scaffold.EmptyScaffoldValid | Arrangement_2/include/CGAL/Arrangement_2.h:995-1000 | the empty arrangement satisfies the scaffold invariant: four corners at infinity, `n_inf_verts` = 4, eight fictitious halfedges, `un_face` the only fictitious face |
| Scaffold.EmptyArrangementReportsNothing | Arrangement_2/include/CGAL/Arrangement_2.h:1061-1132 | the empty arrangement passes `is_empty` and reports no vertex, no vertex at infinity, no halfedge and no edge, but one face, which is unbounded |
| Observers.ObserverList.constructor | Arrangement_2/include/CGAL/Arrangement_2.h:1005 | a new arrangement has no observers and no notification has been made |
| Observers.ObserverList.RegisterObserver | Arrangement_2/include/CGAL/Arrangement_2.h:2250-2253 | `_register_observer` appends the observer at the end of the list |
| Observers.ObserverList.UnregisterObserver | Arrangement_2/include/CGAL/Arrangement_2.h:2260-2277 | `_unregister_observer` returns true if and only if the observer was registered; the list becomes the old list with the first occurrence removed |
| Observers.ObserverList.NotifyBefore | Arrangement_2/include/CGAL/Arrangement_2.h:2283-2290 | every `_notify_before_*` calls each registered observer once, from first registered to last, and changes nothing else |
| Observers.ObserverList.NotifyAfter | Arrangement_2/include/CGAL/Arrangement_2.h:2292-2299 | every `_notify_after_*` calls each registered observer once, from last registered to first, and changes nothing else |
| Observers.RemoveFirstAt | Arrangement_2/include/CGAL/Arrangement_2.h:2265-2273 | erasing at the first matching position removes exactly that entry |
| Observers.RemoveFirstAbsent | Arrangement_2/include/CGAL/Arrangement_2.h:2275-2276 | unregistering an observer that is not registered leaves the list unchanged |
| Observers.FirstIndex | Arrangement_2/include/CGAL/Arrangement_2.h:2265-2268 | the loop stops at a position holding the observer, and none before it does |
| Observers.RemoveFirstRemovesOne | Arrangement_2/include/CGAL/Arrangement_2.h:2260-2277 | unregistering a registered observer removes its first occurrence only: the list shrinks by one and loses one copy of it |
| Observers.RegisterThenUnregisterNew | Arrangement_2/include/CGAL/Arrangement_2.h:2250-2277 | registering an observer that was not registered and then unregistering it restores the list |
| Observers.RegisterThenUnregisterAgain | Arrangement_2/include/CGAL/Arrangement_2.h:2250-2277 | registering an already registered observer again and then unregistering it removes the earlier registration and keeps the new one at the end |
| Observers.BeforeCallsInRegistrationOrder | Arrangement_2/include/CGAL/Arrangement_2.h:2283-2290 | the i-th before-callback goes to the i-th registered observer |
| Observers.AfterCallsInReverseOrder | Arrangement_2/include/CGAL/Arrangement_2.h:2292-2299 | the i-th after-callback goes to the i-th observer counted from the end |
| Observers.NotificationsNest | Arrangement_2/include/CGAL/Arrangement_2.h:2283-2751 | a before-notification followed by an after-notification nests the observers like scopes: each observer's pair of callbacks encloses those of every observer registered later |
| Observers.TwoObserversNest | Arrangement_2/include/CGAL/Arrangement_2.h:2283-2299 | with observers A then B, the callbacks run before(A), before(B), after(B), after(A) |

## Left out

- Insertion, removal, splitting, merging, hole and isolated-vertex relocation, `assign`, `clear`, `is_valid` and the other members declared here but defined elsewhere are not part of this model. Their bodies are not in this header. The model does not capture which notifications each of them sends; it keeps only the vocabulary of notifications (`Observers.BeforeEvent`, `Observers.AfterEvent`) and the loops that deliver one notification to every observer.
- The construction of the empty arrangement (`_construct_empty_arrangement`, line 1733) is defined elsewhere. `Scaffold.EmptyTopology` models the empty state that `is_empty` and `number_of_vertices_at_infinity` describe (not the two-vertex state of the doc comment at lines 1727-1731), and the `Scaffold` lemmas show that state satisfies `Arrangement.ScaffoldValid` and `Dcel.Complete`.
- Arrangement.ScaffoldValid: the counter lemmas assume it of an arbitrary state, i.e. they assume that every mutating operation keeps it (insertion, removal, split and merge, `_split_fictitious_edge`, `_remove_vertex_at_infinity`). Those operations are not part of this model, so that preservation is not proved.
- Arrangement.ScaffoldValid: three of its clauses come from the header's comments rather than from code: `n_inf_verts` counts every vertex at infinity, corners included (line 999); each vertex at infinity accounts for two fictitious halfedges (lines 1099-1100); the only fictitious face is `un_face` (lines 1271-1273, which say it contains all other valid faces, and line 1115, which drops exactly one face from the count). The member comment on `un_face` (lines 1000-1002) calls it fictitious only when the arrangement contains unbounded curves; the model follows the code, in which `un_face` always lies outside the bounding rectangle and is dropped by every filter.
- Dcel.Complete: assumed as an invariant of every state in the same way. The DCEL validity check that would establish it (`is_valid`) is defined elsewhere.
- BoundedComparators.IsFaceUnbounded: states no property. The flags' meaning (the halfedge lies on the unbounded face, its twin inside a bounded hole) is a guarantee given by the callers of `_is_face_unbounded`, and those callers are not part of this model.
- The `Tag_true` overloads (traits that support unbounded curves) are declared here but defined elsewhere, and are not modelled.
- The geometric traits are uninterpreted function parameters. No geometric property of points or curves is assumed.
- Iterators, circulators, handles, `non_const_handle`, the point and curve allocators and `get_traits` are not modelled. Records are addressed by integer ids, and the filtered iterators are modelled by the filters and the id sets they keep.
- `number_of_isolated_vertices` returns the raw size of the DCEL's isolated-vertex store. It is not modelled apart from that store.
- `is_fictitious`, `source_at_infinity`, `target_at_infinity`, `twin`, `curve` and `point` only read a record field or negate a filter, and have no members of their own.
- Arr_dcel_base.h is not part of this model. `is_isolated` is taken as "the vertex has an isolated-vertex record", and `is_on_hole` as a halfedge whose incidence is a hole record.
- Arrangement.NumberOfUnboundedFaces: counts with an unbounded integer. The faces number below 2^64, so the source's `Size` counter cannot wrap.
- BoundedComparators.CompareYAtX: the `CGAL_assertion` that both ends of the edge lie on the same y-boundary is a precondition. The curve is required only when the edge is not at y = -oo or +oo.
- Observers.ObserverList.constructor: the constructors of `Arrangement_2` (lines 1016-1022) are defined elsewhere. That a new arrangement has no observers rests on the `observers` member (line 1005) being a default-constructed `std::list`, which is empty.
- What an observer does inside its callbacks is not modelled; each callback is recorded as a call in the trace. The arrangement passed to `before_assign` is not recorded.
- The free functions declared after the class (insertion, removal and validity helpers) are not modelled.
- Combinatorial_map_dart.h is not part of this model.
