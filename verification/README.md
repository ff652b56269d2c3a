# A verified model of the `ray` ray tracer's core

`ray` is a small path tracer written twice: once in Rust (`src/**/*.rs`) and once in C++
(`src/**/*.cpp`, `include/*.h`). Both follow the "Ray Tracing in One Weekend" design.
This project models, in Dafny, the logic the two renderers are built from, and proves
what that logic promises:

- **Intervals and boxes.** `Range` is the half-line interval a ray is searched over. The
  Rust `BoundingBox` and the C++ `AxisBox` are axis-aligned boxes: union, the slab test
  and the surrounding box.
- **Collections of geometry.** There is the linear nearest-hit scan over a slice or a
  `World`. There are the two bounding-volume hierarchies: the Rust `BoundingHierarchy`
  with its random, longest-axis and surface-area-heuristic splits, and the C++ `BVH`.
  The Rust hierarchy is proved to find exactly the hit the linear scan finds when every
  object's hits lie inside its box (`HitsInBounds`) and the ray has no zero direction
  component; the as-written parallelogram breaks the first (see Findings). The C++
  one is proved to do so when the hit lies strictly inside every box on the way: its
  box test rejects a window that shrinks to a point, and a sphere of negative radius
  reports an inverted box that the test rejects (see Findings).
- **Primitives.** Spheres (both languages), planes, parallelograms and the Rust `Flat`.
  They are modelled as hit tests over real numbers, with face orientation.
- **Materials.** Lambertian (three Rust variants), glossy, metal and dielectric
  scattering in both languages, with Snell's law, total internal reflection and
  Schlick's reflectance.
- **Integrators.** `ray_color` / `getColor`, the per-pixel sampling loops, and how they
  write into the PNG tile (Rust) or the PPM canvas (C++).
- **Scheduling.** Splitting the image into horizontal bands, one per worker: the
  equal split of `determine_work`, the `step`-row split of `separate_lines` and the C++
  `launchThreads`. It also covers joining the finished tiles back in id order.

Floating point is modelled as `real`, and infinities as an extended-real type. Vector
operations that need square roots (`normalize`, `length`) are passed in as functions
with the properties the proofs need. Random numbers are parameters, as are the camera,
the material of a hit and the conversion of a colour to bytes. Threads are modelled by
what each worker computes and by how the results are combined.

## Model

| member | source | states |
|---|---|---|
| Types.Contains | src/utils/types.rs:43-46 | both endpoints belong to the range, and a range containing any point is ordered |
| Types.NotContains | src/utils/types.rs:48-51 | the source's strict comparisons give exactly the complement of `contains` |
| Types.UnionEmpty | src/utils/types.rs:15-18 | the reversed range contains no point and lies inside every range, so it is the neutral operand of union |
| Types.Union | src/utils/types.rs:36-41 | the union holds both operands and every point of either, and lies inside every range that holds both (the least upper bound) |
| Types.Intersect | src/utils/types.rs:20-30 | `None` exactly when the ranges are disjoint; otherwise an ordered range inside both whose points are exactly the common points |
| Types.Length | src/utils/types.rs:32-34 | `hi - lo` is undefined (NaN) exactly for `inf - inf` of equal infinities, and never negative for an ordered range |
| Types.UnionEmptyIsIdentity | src/utils/types.rs:15-18 | `union_empty` is a left and right identity of union |
| Types.UnionCommutes | src/utils/types.rs:36-41 | range union is commutative |
| Types.UnionAssociates | src/utils/types.rs:36-41 | range union is associative |
| Types.IntersectCommutes | src/utils/types.rs:20-30 | range intersection is commutative, including which pairs are disjoint |
| Bounding.EmptyBox | src/bounding/mod.rs:30-36 | the all-`union_empty` box contains no point and lies within every box |
| Bounding.FromExtrema | src/bounding/mod.rs:20-28 | the box from two opposite corners is ordered, holds both points, and lies within every box holding both |
| Bounding.FromExtremaSymmetric | src/bounding/mod.rs:20-28 | the order of the two corners does not matter |
| Bounding.Union | src/bounding/mod.rs:30-36 | the union box holds both boxes and all their points and lies within every box holding both |
| Bounding.UnionCommutes | src/bounding/mod.rs:30-36 | box union is commutative |
| Bounding.UnionAssociates | src/bounding/mod.rs:30-36 | box union is associative |
| Bounding.UnionEmptyIdentity | src/bounding/mod.rs:30-36 | the empty box is a left and right identity of box union |
| Bounding.CompareAxis | src/bounding/mod.rs:42-52 | an axis above 2 panics (`None`); otherwise Less, Equal, Greater exactly when the lower bound on that axis is smaller, equal, larger |
| Bounding.SlabRange | src/bounding/mod.rs:61-67 | the swapped pair of plane parameters is always ordered |
| Bounding.SlabRangeExact | src/bounding/mod.rs:61-67 | `t` is in the slab interval exactly when the ray coordinate at `t` lies between the two planes |
| Bounding.Slab | src/bounding/mod.rs:59-67 | the slab interval of one axis of a box is ordered: its entry is no later than its exit |
| Bounding.CheckFrom | src/bounding/mod.rs:57-75 | the loop from a given axis returns a sub-range of the running range holding exactly its parameters inside the remaining slabs, and `None` only when no such parameter exists; before the last axis the result is an ordered range within the current axis's slab |
| Bounding.CheckIntersection | src/bounding/mod.rs:54-76 | the result lies within the given range and holds exactly the parameters inside all three slabs; `None` means no parameter of the range is inside them; a result is an ordered range within the x slab |
| Bounding.CheckIntersectionWitness | src/bounding/mod.rs:54-76 | on an ordered box with finite x bounds, the test answers `Some` exactly when some parameter of the range puts the ray point inside the box |
| Bounding.CheckIntersectionExact | src/bounding/mod.rs:54-76 | for an ordered box, the result holds exactly the parameters of the range at which the ray point is inside the box, and `None` means the ray misses the box on that range |
| Bounding.PointInSlabs | src/bounding/mod.rs:59-73 | a parameter at which the ray is inside the box is inside every slab |
| AxisBoxes.DefaultBox | src/bounds/axis_box.cpp:5-9 | the default box is ordered and holds the origin and nothing else |
| AxisBoxes.SurroundingBox | src/bounds/axis_box.cpp:41-53 | the surrounding box encloses both boxes and all their points, and lies inside every box enclosing both |
| AxisBoxes.SurroundingCommutes | src/bounds/axis_box.cpp:41-53 | `surroundingBox` is commutative |
| AxisBoxes.SurroundingIdempotent | src/bounds/axis_box.cpp:41-53 | the box surrounding a box and itself is that box |
| AxisBoxes.SurroundingAssociates | src/bounds/axis_box.cpp:41-53 | `surroundingBox` is associative |
| AxisBoxes.EntryBeforeExit | src/bounds/axis_box.cpp:21-28 | after the swap on a negative inverse direction, the entry parameter of an ordered slab is no later than its exit |
| AxisBoxes.Narrow | src/bounds/axis_box.cpp:30-31 | one step narrows the window to the larger lower end and the smaller upper end, inside both the old window and the slab |
| AxisBoxes.HitFrom | src/bounds/axis_box.cpp:20-36 | a loop that succeeds from an axis below 3 started from a non-degenerate window, and every remaining slab interval has positive length |
| AxisBoxes.Hit | src/bounds/axis_box.cpp:17-39 | a hit needs `tMin < tMax` and a slab interval of positive length on every axis |
| AxisBoxes.HitFromOverlaps | src/bounds/axis_box.cpp:20-36 | the loop from any axis on succeeds exactly when every remaining slab interval and the running window overlap pairwise and strictly |
| AxisBoxes.OverlapsStep | src/bounds/axis_box.cpp:20-35 | one iteration keeps the overlap condition: the window overlaps the slabs from this axis on exactly when the narrowed window is not degenerate and overlaps the later slabs |
| AxisBoxes.OverlapsLast | src/bounds/axis_box.cpp:20-35 | on the last axis the window overlaps the slab exactly when narrowing leaves a non-degenerate window |
| AxisBoxes.HitExact | src/bounds/axis_box.cpp:17-39 | `hit` is true exactly when all slab intervals and `(tMin, tMax)` overlap pairwise and strictly |
| AxisBoxes.BetweenPlanes | src/bounds/axis_box.cpp:21-28 | a parameter between entry and exit puts the ray between the two planes of that slab |
| AxisBoxes.HitSound | src/bounds/axis_box.cpp:17-39 | when `hit` is true some parameter in `[tMin, tMax]` puts the ray inside the box |
| AxisBoxes.StrictlyBetweenPlanes | src/bounds/axis_box.cpp:21-28 | a ray strictly between the planes of a slab is there at a parameter strictly between entry and exit |
| AxisBoxes.InteriorHit | src/bounds/axis_box.cpp:17-39 | when the ray passes strictly inside the box at a parameter of a non-degenerate window, `hit` is true |
| Colors.ScaleRight | src/utils/color.cpp:19-29 | the member and the free `operator*(float)` agree, and each scales every channel |
| Colors.ShiftRight | src/utils/color.cpp:31-41 | the member and the free `operator+(float)` agree, and each shifts every channel by the same amount |
| Colors.ScaleComposes | src/utils/color.cpp:19-23 | scaling by `s` and then by `t` is scaling by `s * t` |
| Colors.ScaleInverse | src/utils/color.cpp:19-23 | scaling by `1 / s` is undone by scaling by a non-zero `s` |
| Colors.DivideInverse | src/utils/color.cpp:19-23 | dividing every channel by a non-zero `n` is undone by scaling by `n` |
| Colors.ScaleDistributes | src/utils/color.cpp:19-53 | scaling distributes over the channelwise sum `operator+(Color)` |
| Colors.ShiftComposes | src/utils/color.cpp:31-35 | shifting by `s` and then by `t` is shifting by `s + t`, and shifting by `-s` undoes a shift by `s` |
| Colors.MulCommutes | src/utils/color.cpp:43-47 | the channelwise product is commutative |
| Colors.MulAssociates | src/utils/color.cpp:43-47 | the channelwise product is associative, so attenuations compose in any grouping |
| Colors.PlusCommutes | src/utils/color.cpp:49-53 | the channelwise sum is commutative, so sample order does not matter |
| Colors.Lerp | src/render/mod.rs:94 | interpolation returns the first colour at 0 and the second at 1 |
| Colors.ClampChannel | src/utils/color.cpp:69-71 | a channel lands in [0, 1], is kept when already there, and goes to 0 below and 1 above |
| Colors.Clamp | src/utils/color.cpp:66-74 | every channel lands in [0, 1] and a colour already in the unit cube is unchanged |
| Colors.ClampIdempotent | src/utils/color.cpp:66-74 | clamping twice is clamping once |
| Vectors.At | src/render/mod.rs:110-112 | the point at parameter 0 is the origin, and every projection of the point grows linearly in the parameter |
| Scan.Nearest | src/geometry/mod.rs:21-34 | the scan finds nothing exactly when no element hits the whole range; with a sound oracle its hit lies in the range |
| Scan.ScanNone | src/geometry/mod.rs:26-33 | from any loop state, the loop ends without a hit exactly when no element hits at the bounds in use and none was found before |
| Scan.ScanFound | src/geometry/mod.rs:26-33 | with a sound oracle, a hit the loop keeps lies in the original range |
| Scan.ScanLast | src/geometry/mod.rs:26-33 | the loop returns the last hit reported: after it, no element hits below the shrunken bound |
| Scan.ScanNearest | src/geometry/mod.rs:26-33 | with a sound and consistent oracle the loop's hit is no farther than any element's own hit |
| Scan.NearestIsNearest | src/geometry/mod.rs:21-34 | with a sound and consistent oracle the scan's hit is no farther than the hit of any element on the whole range |
| Scan.ScanWitness | src/geometry/mod.rs:26-33 | with a sound oracle, the returned hit is one some element reported for a sub-range of the original range |
| Scan.NearestIsMinimum | src/geometry/mod.rs:21-34 | with a sound and consistent oracle, some element hits the whole range at exactly the scan's parameter, so it is the minimum |
| Scan.NearestSameElements | src/geometry/mod.rs:21-34 | with a sound and consistent oracle, the outcome and its parameter depend only on which elements are present, not their order |
| Geometry.SliceCollide | src/geometry/mod.rs:21-34 | the slice `collide` misses exactly when every element misses the whole range, and its hit lies in the range |
| Geometry.SliceCollideNearest | src/geometry/mod.rs:21-34 | the slice `collide` returns a hit no farther than any element's |
| Geometry.SliceBounds | src/geometry/mod.rs:36-45 | the folded `union` encloses every element's box and lies within every box that does; for no elements it is the empty box |
| Geometry.SliceBoundsPermutation | src/geometry/mod.rs:36-45 | the slice box does not depend on the order of the elements |
| Geometry.SliceBoundsAppend | src/geometry/mod.rs:36-45 | the box of a concatenation is the union of the parts' boxes |
| Geometry.SliceBoundsSingle | src/geometry/mod.rs:36-45 | the box of one element is its own box |
| Geometry.GetFace | src/geometry/mod.rs:75-83 | front-facing exactly when the direction does not run along the outward normal; the returned normal is the outward one or its negation, and always faces the ray |
| World.Hit | src/geometry/world.cpp:20-40 | `World::hit` finds nothing exactly when no object hits the whole range, and its hit lies in the range |
| World.HitIsLastAndNearest | src/geometry/world.cpp:20-40 | the returned observation is one an object reported, and with a sound and consistent oracle it is no farther than any object's hit |
| World.Gather | src/geometry/world.cpp:49-57 | the `isFirstBox` loop yields a box exactly when some object reports one, and then the smallest box enclosing every reported box |
| World.BoundingBox | src/geometry/world.cpp:42-60 | an empty world has no box; otherwise the box encloses every reported box, is the smallest such when any is reported, and is the default box when none is |
| World.BoundingBoxPermutation | src/geometry/world.cpp:42-60 | the world box does not depend on the order of the objects |
| Observable.SetFace | include/observable.h:19-23 | front-facing exactly when the ray runs against the outward normal; the stored normal faces the ray; point and parameter are kept |
| Observable.SetFaceAgreesWithGetFace | include/observable.h:19-23 | the C++ `setFace` and the Rust `get_face` agree except on a ray exactly parallel to the surface, where only the front-facing flag differs |
| Hierarchy.New | src/bounding/hierarchy.rs:25-30 | a leaf holding the object with the object's own box |
| Hierarchy.Pair | src/bounding/hierarchy.rs:32-39 | a tree of the two leaves, in order, whose bounds are the least box enclosing both objects |
| Hierarchy.JoinBuilt | src/bounding/hierarchy.rs:77-84 | joining trees built for the two halves of a reordering gives a tree built for the whole slice |
| Hierarchy.SortAndSplit | src/bounding/hierarchy.rs:124-132 | sorting by `compare_axis` and splitting keeps every object once, puts `mid` objects on the left, and no left object's lower bound exceeds a right one's |
| Hierarchy.FromVecWithRandom | src/bounding/hierarchy.rs:64-87 | panics exactly on an empty slice; one object gives a leaf, two a pair, more a tree split at the midpoint; the tree holds every object once and is bounded by their least enclosing box |
| Hierarchy.FromVecWithLongest | src/bounding/hierarchy.rs:89-114 | the same shape and bounds promises with the longest-axis order |
| Hierarchy.SearchSplits | src/bounding/hierarchy.rs:157-176 | the inner split loop ends with a valid candidate whenever it starts with one or starts from infinity with a split to try |
| Hierarchy.Consider | src/bounding/hierarchy.rs:171-175 | the candidate replaces the running best exactly when its cost is strictly smaller |
| Hierarchy.SearchAxes | src/bounding/hierarchy.rs:156-177 | the axis loop keeps every object once and ends with a valid candidate |
| Hierarchy.EvaluateBestAreaSplit | src/bounding/hierarchy.rs:151-180 | for three or more objects the split lies in [1, n-2] and the slice is left a permutation of its input |
| Hierarchy.ConsiderKeepsBest | src/bounding/hierarchy.rs:171-175 | one candidate step keeps the running best the first least-cost candidate so far |
| Hierarchy.NextAxisKeepsBest | src/bounding/hierarchy.rs:156-157 | finishing an axis's splits and starting the next axis keeps the best-so-far invariant |
| Hierarchy.SplitsArgmin | src/bounding/hierarchy.rs:157-176 | the split loop of one axis leaves the first least-cost candidate of all axes up to and including it |
| Hierarchy.AxisTable | src/bounding/hierarchy.rs:158-169 | the cost of each candidate of an axis is the split cost of the slice as sorted at that point |
| Hierarchy.AxisStep | src/bounding/hierarchy.rs:156-177 | one iteration of the axis loop extends the best-so-far invariant by that axis |
| Hierarchy.AxesArgmin | src/bounding/hierarchy.rs:156-177 | the axis loop from any axis ends with the first least-cost candidate over all axes |
| Hierarchy.BestSplitIsFirstMinimum | src/bounding/hierarchy.rs:151-180 | the chosen split costs no more than any candidate and strictly less than every earlier one in loop order |
| Hierarchy.FromVecWithSurfaceArea | src/bounding/hierarchy.rs:116-140 | panics exactly on an empty slice; one object gives a leaf, two a pair, more a tree split where the area search says; the tree holds every object once with the least enclosing box |
| Hierarchy.AreaTree | src/bounding/hierarchy.rs:121-137 | with three or more objects the result is a tree holding each object once under the least enclosing box, whose left subtree has as many leaves as the area search's split |
| Hierarchy.AreaHalves | src/bounding/hierarchy.rs:122-132 | the sorted slice is cut at the area search's split into a non-empty left part and a right part of at least two, together a permutation of the slice |
| Hierarchy.FromVecWithHeuristic | src/bounding/hierarchy.rs:46-62 | whichever heuristic is chosen, an empty slice panics and otherwise the tree holds every object once with the least enclosing box |
| Hierarchy.Collide | src/bounding/hierarchy.rs:184-205 | with a sound object oracle, a hit the traversal returns lies in the queried range |
| Hierarchy.LeafWithin | src/bounding/hierarchy.rs:134-136 | in a well-formed tree every leaf's box lies within the root's |
| Hierarchy.TreeNoFartherThanLeft | src/bounding/hierarchy.rs:193-202 | when the left child hits, the tree hits no farther than the left child |
| Hierarchy.CollideNearest | src/bounding/hierarchy.rs:184-205 | when any leaf hits the range, the traversal hits, no farther than that leaf |
| Hierarchy.CollideWitness | src/bounding/hierarchy.rs:184-205 | a hit the traversal returns is what some leaf reported for a sub-range of the query |
| Hierarchy.CollideMatchesScan | src/bounding/hierarchy.rs:184-205 | the traversal misses exactly when the linear scan of the leaves misses, and otherwise hits at the same parameter |
| Hierarchy.ScanHitFound | src/bounding/hierarchy.rs:184-205 | when the linear scan of the leaves hits, the traversal hits too and no farther |
| Hierarchy.TreeHitScanned | src/bounding/hierarchy.rs:184-205 | when the traversal hits, the linear scan of the leaves hits too and no farther |
| Hierarchy.BuiltCollideMatchesScan | src/bounding/hierarchy.rs:46-62 | a tree from any heuristic answers like the linear scan over the objects it was built from |
| Hierarchy.AsWrittenParallelogramMissed | src/bounding/hierarchy.rs:184-188 | an object answering like the as-written square of side below 1 breaks `HitsInBounds`: the one-leaf hierarchy over it misses the ray from (1/2, 1/2, 1) along (1/2, 1/2, -1), while the linear scan over the same object hits |
| Sorting.Insert | src/bounding/hierarchy.rs:124-129 | inserting into a key-sorted sequence keeps it sorted and adds exactly the new element |
| Sorting.SortBy | src/bounding/hierarchy.rs:124-129 | the result is sorted by the key and a permutation of the input |
| Sorting.SortCanonical | src/bounding/hierarchy.rs:158-163 | with a key that tells the elements apart, every permutation sorts to the same sequence |
| Sorting.SortedUnique | src/bounding/hierarchy.rs:158-163 | two key-sorted permutations of each other with a distinguishing key are equal |
| Sorting.SortSortedIdentity | src/bounding/hierarchy.rs:158-163 | sorting an already key-sorted sequence leaves it unchanged, so the repeated sorts of the split loop change nothing |
| Bvh.CompareBox | src/bounds/bvh.cpp:6-24 | an object without a box compares as if its box sat at the origin |
| Bvh.CompareBoxStrictWeak | src/bounds/bvh.cpp:6-24 | the comparator is irreflexive, asymmetric and transitive, and incomparability is transitive: the strict weak order `std::sort` demands |
| Bvh.SortRange | src/bounds/bvh.cpp:48 | sorting `[start, end)` leaves the rest of the list untouched and the range a key-sorted permutation of itself |
| Bvh.Build | src/bounds/bvh.cpp:26-70 | every node's box surrounds its children's and the node holds exactly the objects of the range; a span of one doubles its object, two are ordered by the comparator, longer spans split with no left object starting above a right one |
| Bvh.SplitFacts | src/bounds/bvh.cpp:48-53 | the two halves of the sorted range hold exactly its objects, and the left half starts no higher on the axis |
| Bvh.SplitMembers | src/bounds/bvh.cpp:48-53 | the two halves of a permuted range hold exactly the range's objects |
| Bvh.SplitOrdered | src/bounds/bvh.cpp:48-53 | in a range sorted on the axis, every object of the left half starts no higher than every object of the right half |
| Bvh.FromWorld | include/bvh.h:12-14 | the tree over a non-empty world is tight and holds exactly the world's objects |
| Bvh.NodeHit | src/bounds/bvh.cpp:72-99 | with a sound object oracle, a hit the traversal returns lies in the queried range |
| Bvh.NoFartherThanLeft | src/bounds/bvh.cpp:80-89 | once the box is hit, a node's answer is no farther than its left child's |
| Bvh.LeafEnclosed | src/bounds/bvh.cpp:56-69 | in a tight tree every box an object reports lies inside the root box |
| Bvh.NodeNearest | src/bounds/bvh.cpp:72-99 | when some object below the node hits a non-degenerate range, the traversal hits, no farther away |
| Bvh.NodeWitness | src/bounds/bvh.cpp:72-99 | a hit the traversal returns is what some object below the node reported for a sub-range of the query |
| Bvh.NodeMatchesWorld | src/bounds/bvh.cpp:72-99 | the traversal misses exactly when `World::hit` over the node's objects misses, and otherwise hits at the same parameter |
| Bvh.FromWorldMatchesWorld | include/bvh.h:12-14 | the hierarchy built over a world answers like the world's own linear scan |
| Bvh.TightBoxIsLeast | src/bounds/bvh.cpp:56-69 | when every object reports a box, a tight tree's box lies within every box enclosing all of them |
| Bvh.FromWorldBoxIsWorldBox | src/bounds/bvh.cpp:101-105 | when every object reports a box, the hierarchy's box equals `World::boundingBox` of the same objects |
| SphereCpp.Observe | src/geometry/sphere.cpp:42-48 | the observation sits at the root's point with the root as parameter, is front-facing exactly when the ray runs against the outward normal, and its normal faces the ray |
| SphereCpp.Hit | src/geometry/sphere.cpp:13-51 | a negative discriminant misses; a hit lies in the range at the point the ray reaches, with a normal facing the ray |
| SphereCpp.SurfaceQuadratic | src/geometry/sphere.cpp:16-20 | the quadratic with coefficients `a`, `halfB`, `c` evaluated at `t` is the squared distance from the centre minus the squared radius |
| SphereCpp.RootsAreTheTwo | src/geometry/sphere.cpp:22-31 | a surface crossing exists only for a non-negative discriminant and is one of the two roots the code computes |
| SphereCpp.RootsOrdered | src/geometry/sphere.cpp:28-40 | the root tried first is the nearer one |
| SphereCpp.HitOnSurface | src/geometry/sphere.cpp:13-51 | every hit lies on the sphere's surface |
| SphereCpp.HitNearest | src/geometry/sphere.cpp:27-40 | whenever the ray crosses the surface inside the range, `hit` reports a crossing no farther away |
| SphereCpp.BoundingBox | src/geometry/sphere.cpp:53-60 | for a non-negative radius the cube is ordered and holds every point of the surface |
| SphereCpp.InvertedHit | src/geometry/sphere.cpp:13-51 | `hit` on the sphere of radius -1 at the origin finds the ray from `(-2, -1, -2)` along `(2, 1, 2)` at `t = 2/3` |
| SphereCpp.InvertedPointOutside | src/geometry/sphere.cpp:53-60 | that hit point lies outside the box as written for radius -1 |
| SphereCpp.InvertedBoxRejects | src/bounds/axis_box.cpp:17-39 | the slab test rejects that ray on the box as written for radius -1 |
| SphereCpp.NegativeRadiusEscapesBox | src/geometry/sphere.cpp:53-60 | as written, a sphere of radius -1 is hit at `t = 2/3` at a point outside its box, and `AxisBox::hit` rejects the ray, so no hierarchy over the box finds the hit |
| SphereCpp.BoundingBoxCorrected | src/geometry/sphere.cpp:53-60 | corrected, the cube `center -+ abs(radius)` is ordered, holds every surface point whatever the sign of the radius, and is the box as written for a non-negative radius |
| SphereCpp.HitInsideCorrectedBox | src/geometry/sphere.cpp:13-60 | corrected, every hit `hit` reports lies inside the sphere's box |
| SphereCpp.CubeAdmits | src/bounds/axis_box.cpp:17-39 | the slab test passes that ray through the cube from `(-1, -1, -1)` to `(1, 1, 1)` |
| SphereCpp.CorrectedBoxAdmitsInverted | src/bounds/axis_box.cpp:17-39 | corrected, the slab test passes that ray through the box of the sphere of radius -1 |
| SphereRs.Collide | src/geometry/sphere.rs:16-51 | a negative discriminant misses; a hit lies in the range at the point the ray reaches, with the outward normal kept or negated as `is_front_face` says |
| SphereRs.CoefficientsAgree | src/geometry/sphere.rs:17-23 | the Rust coefficients are the C++ ones with the middle term's sign flipped, so both discriminants are equal |
| SphereRs.AgreesWithCpp | src/geometry/sphere.rs:28-35 | the Rust and C++ spheres hit or miss together, at the same parameter and point |
| SphereRs.NormalFacesRay | src/geometry/sphere.rs:37-43 | under the shared orientation rule the recorded normal faces the ray |
| Planes.New | src/geometry/plane.rs:10-15 | the plane stores the normalised normal and the given point |
| Planes.Crossing | src/geometry/plane.rs:20-29 | a ray parallel to the plane misses; a crossing lies in the range and on the plane |
| Planes.CrossingComplete | src/geometry/plane.rs:20-29 | a ray not parallel to the plane is found exactly when its unique crossing lies in the range, and at that parameter |
| Planes.CollideAsWritten | src/geometry/plane.rs:19-45 | hits exactly at the crossing, front-facing exactly when the normal runs along the ray, with the normal kept when front-facing and negated otherwise |
| Planes.AsWrittenNormalAlongRay | src/geometry/plane.rs:32-37 | as written, every recorded normal points along the ray |
| Planes.Collide | src/geometry/plane.rs:19-45 | the corrected collide hits at the same crossing, front-facing exactly when the ray runs against the normal, with the normal facing the ray |
| Planes.CollideReversesAsWritten | src/geometry/plane.rs:32-37 | the corrected and the as-written collide hit together at the same parameter, with opposite normals |
| Parallelograms.CornerBox | src/geometry/parallelogram.rs:57-62 | the box is ordered, holds all four vertices, and lies within every box holding them |
| Parallelograms.New | src/geometry/parallelogram.rs:19-34 | the assertion fails exactly for zero-length or (within the tolerance) parallel sides; otherwise the parallelogram stores the corner, the sides, their box and the normalised cross product |
| Parallelograms.FromVertices | src/geometry/parallelogram.rs:37-55 | the sides lead from the corner to the adjacent vertex and on to the opposing one, and the box is the vertices' box |
| Parallelograms.CollideWith | src/geometry/parallelogram.rs:66-99 | a near-parallel ray misses; a hit lies in the range on the plane, with both side coordinates in [0, 1] and the normal oriented by `get_face` |
| Parallelograms.AcceptanceExact | src/geometry/parallelogram.rs:73-88 | a crossing at `corner + a u + b v` is accepted exactly when both side coordinates measured with the chosen vector are in [0, 1] |
| Parallelograms.CollideAsWritten | src/geometry/parallelogram.rs:66-99 | as written, a hit lies in the range, faces the ray, and has side coordinates in [0, 1] measured with the unit normal |
| Parallelograms.AsWrittenExact | src/geometry/parallelogram.rs:81-88 | as written, a crossing at `corner + a u + b v` is accepted exactly when `a` and `b`, each scaled by `normal . (u x v)` (the area of the parallelogram, not 1), are in [0, 1] |
| Parallelograms.SquareMadeByNew | src/geometry/parallelogram.rs:19-34 | `new` builds the axis-aligned square of side `s` in the floor with the upward unit normal |
| Parallelograms.AsWrittenRejectsCentre | src/geometry/parallelogram.rs:81-88 | as written, a ray straight down onto the centre of a square of side at least 2 is rejected |
| Parallelograms.Collide | src/geometry/parallelogram.rs:66-99 | the corrected collide measures with the reciprocal vector: a hit lies in the range, faces the ray and has true side coordinates in [0, 1] |
| Parallelograms.ReciprocalCoordinates | src/geometry/parallelogram.rs:81-83 | measured with the reciprocal vector, the side coordinates of `a u + b v` are exactly `a` and `b` |
| Parallelograms.CrossingParameter | src/geometry/parallelogram.rs:73-74 | a ray reaching a point of the plane does so at the parameter the code computes |
| Parallelograms.CollideExact | src/geometry/parallelogram.rs:66-99 | corrected, a crossing at `corner + a u + b v` is a hit exactly when `a` and `b` are in [0, 1], at that parameter |
| Parallelograms.CollideAcceptsCentre | src/geometry/parallelogram.rs:81-88 | corrected, the ray straight down onto the square's centre hits at the height it starts from |
| Parallelograms.PointInCornerBox | src/geometry/parallelogram.rs:57-62 | every point `corner + a u + b v` with `a` and `b` in [0, 1] lies in the box `get_bounding_box` builds |
| Parallelograms.CollideInBox | src/geometry/parallelogram.rs:57-99 | corrected, a hit at a crossing `corner + a u + b v` lies in the box `new` stores, so the corrected primitive keeps its hits inside its bounds |
| Parallelograms.AsWrittenAcceptsOutside | src/geometry/parallelogram.rs:81-88 | as written, a square of side `s` below 1 accepts the ray from (1/2, 1/2, 1) along (1/2, 1/2, -1) at `t = 1`, at the point (1, 1, 0), which lies outside the square's box |
| Parallelograms.OutwardsBoxRejects | src/bounding/mod.rs:54-76 | the box test of that square's box rejects the same ray over any range |
| Flats.New | src/geometry/flat.rs:17-25 | the stored box holds the four vertices |
| Flats.FromVertices | src/geometry/flat.rs:28-43 | the stored box holds the three given vertices |
| Flats.Signum | src/geometry/flat.rs:73 | `signum` is 1 or -1 and turns its argument into its absolute value |
| Flats.Crossing | src/geometry/flat.rs:57-71 | a local ray within the tolerance of parallel misses; a crossing lies in the range on `z = 0` inside the unit square |
| Flats.CrossingExact | src/geometry/flat.rs:57-71 | a ray not too close to parallel is found exactly when its unique crossing of `z = 0` lies in the range and the unit square |
| Flats.LocalCollideAsWritten | src/geometry/flat.rs:54-85 | as written, hits exactly at the crossing, with the `signum`-turned normal or its negation, facing the ray |
| Flats.AsWrittenNeverFront | src/geometry/flat.rs:73-74 | as written, no hit is ever front-facing |
| Flats.LocalCollide | src/geometry/flat.rs:54-85 | corrected, hits at the same crossing, front-facing exactly when the ray comes down onto the `+z` side, with the normal facing the ray |
| Flats.CorrectedKeepsNormal | src/geometry/flat.rs:73-74 | both versions hit together with the same normal; only the face flag differs |
| Flats.DownOntoCentre | src/geometry/flat.rs:57-71 | a ray straight down onto the centre of the unit square crosses it at its starting height |
| Flats.AsWrittenDownIsBack | src/geometry/flat.rs:73-74 | as written, that ray is reported as a back-face hit |
| Flats.CollideDownIsFront | src/geometry/flat.rs:73-74 | corrected, that ray is reported as a front-face hit |
| Flats.Collide | src/geometry/flat.rs:54-85 | as written, the ray is decided in local space: a miss exactly when the transformed ray misses, otherwise the as-written local hit mapped back by `apply`, which is never front-facing |
| Flats.CollideCorrected | src/geometry/flat.rs:54-85 | corrected, the same composition over the corrected local hit, which is front-facing exactly when the transformed ray comes down onto the `+z` side |
| Flats.IdentityDownOntoCentre | src/geometry/flat.rs:54-85 | with the identity transform, a ray straight down onto the centre is a back-face hit as written and a front-face hit corrected |
| RustMaterials.Fallback | src/material/lambertian.rs:19-22 | a candidate below the tolerance is replaced by the normal and any other is kept, so the result is the normal or not near zero |
| RustMaterials.Diffuse | src/material/lambertian.rs:18-28 | the bounce starts at the hit point with the albedo as attenuation, towards the normal or `normal + sample`, never near zero unless it is the normal |
| RustMaterials.LambertianScatter | src/material/lambertian.rs:17-29 | `Lambertian` always scatters from the hit point with its albedo, towards `normal + sample`, or the normal when that is below `NEAR_ZERO_TOLERANCE` |
| RustMaterials.NewLambertianProb | src/material/lambertian.rs:38-47 | the assertion passes exactly for a probability in [0, 1], and the material keeps both fields |
| RustMaterials.LambertianProbScatter | src/material/lambertian.rs:49-65 | absorbs exactly when the uniform sample is below the probability, and otherwise bounces like `Lambertian` |
| RustMaterials.ProbabilityExtremes | src/material/lambertian.rs:38-65 | with a sample in [0, 1), probability 0 never absorbs and probability 1 always does |
| RustMaterials.LambertianApproximationScatter | src/material/lambertian.rs:78-91 | the hemisphere variant always scatters, exactly like `Lambertian` with the hemisphere sample |
| RustMaterials.DiffuseLambertianScatter | src/material/diffuse.rs:17-29 | the diffuse.rs `Lambertian` always scatters from the hit point with its albedo, falling back to the normal below `ZERO_TOL` |
| RustMaterials.LambertiansAgree | src/material/diffuse.rs:17-29 | the two `Lambertian` materials agree when their thresholds are equal |
| RustMaterials.GlossyScatter | src/material/diffuse.rs:43-62 | `Glossy` always scatters from the hit point with its albedo, reflecting exactly when the sample is below the reflection probability, with the fallback applied to either candidate |
| RustMaterials.GlossyHeadOnIsDiffuse | src/material/diffuse.rs:45-51 | a head-on ray never reflects off `Glossy`: it bounces like the diffuse `Lambertian` |
| RustMaterials.NewMetal | src/material/metal.rs:10-15 | the assertion passes exactly for a non-negative fuzziness |
| RustMaterials.Polished | src/material/metal.rs:17-22 | the polished metal has no fuzz and is one `new` accepts |
| RustMaterials.MetalScatter | src/material/metal.rs:25-35 | `Metal` always scatters from the hit point with its albedo, off the reflection by the fuzziness times the sample |
| RustMaterials.PolishedReflectsExactly | src/material/metal.rs:17-35 | a polished metal reflects exactly, whatever the sample |
| RustMaterials.Ratio | src/material/dielectric.rs:38-41 | the ratio is the index on a back-facing hit; on a front-facing hit it is the inverse of the index, and `+inf` exactly for index 0 |
| RustMaterials.ReflectInvolution | src/material/dielectric.rs:16-18 | about a unit normal, reflection reverses the normal component and undoes itself |
| RustMaterials.CosTheta | src/material/dielectric.rs:21 | the cosine is capped at 1 and is the dot product when that is at most 1 |
| RustMaterials.Refract | src/material/dielectric.rs:20-33 | total internal reflection returns the mirror image; otherwise the result is the ratio-scaled perpendicular part minus a multiple of the normal |
| RustMaterials.SineInUnit | src/material/dielectric.rs:22 | for a cosine in [-1, 1] the sine lies in [0, 1] |
| RustMaterials.EnteringRefracts | src/material/dielectric.rs:20-41 | entering a medium with index at least 1 never meets total internal reflection |
| RustMaterials.DielectricScatter | src/material/dielectric.rs:36-51 | `Dielectric` always scatters from the hit point, unattenuated, along the normalised refraction with a finite face-dependent ratio; an infinite ratio (front face, index 0) reflects when the sine is positive and yields NaN (`NotANumber`) exactly when it is 0 |
| RustMaterials.ZeroIndexActsAsTotalReflection | src/material/dielectric.rs:20-41 | entering index 0 at a positive sine scatters exactly like any medium meeting total internal reflection there |
| CppMaterials.Reflect | src/materials/material.cpp:15-19 | the C++ `reflect` is the Rust one, and about a unit normal it reverses the normal component |
| CppMaterials.Refract | src/materials/material.cpp:4-13 | the result is the ratio-scaled part of the ray perpendicular to the normal plus some multiple of the normal |
| CppMaterials.RefractAgreesWithRust | src/materials/material.cpp:4-13 | where the Rust code refracts, the C++ `refract` (cosine measured against the reversed ray) gives the same direction |
| CppMaterials.LambertianScatter | src/materials/lambertian.cpp:10-23 | always scatters from the hit point with the albedo, towards `normal + sample`, or the normal when that is near zero |
| CppMaterials.NewMetal | src/materials/metal.cpp:6-10 | the one-argument metal has no fuzz |
| CppMaterials.NewFuzzyMetal | src/materials/metal.cpp:12-22 | the fuzz is clamped into [0, 1] and kept when already there |
| CppMaterials.FuzzClampStable | src/materials/metal.cpp:12-22 | re-clamping a clamped fuzz changes nothing, and fuzz 0 gives the one-argument metal |
| CppMaterials.MetalScatter | src/materials/metal.cpp:24-34 | always scatters from the hit point with the sheen, off the reflection of the normalised direction by the fuzz times the sample |
| CppMaterials.PlainMetalReflects | src/materials/metal.cpp:6-34 | an unfuzzed metal reflects exactly, reversing the normal component of the direction |
| CppMaterials.NewDielectric | src/materials/dielectric.cpp:6-10 | the one-argument dielectric is untinted (white) |
| CppMaterials.Reflectance | src/materials/dielectric.cpp:18-25 | Schlick's reflectance at unit cosine is the normal-incidence reflectance `r0` |
| CppMaterials.ReflectanceBounds | src/materials/dielectric.cpp:18-25 | for a positive ratio `r0` lies in [0, 1), and for a cosine in [0, 1] the reflectance lies between `r0` and 1 |
| CppMaterials.RefractionRatio | src/materials/dielectric.cpp:32-33 | the ratio is the Rust one: the index on a back-facing hit, the inverse of the index on a front-facing hit, `+inf` exactly for index 0 |
| CppMaterials.CosTheta | src/materials/dielectric.cpp:37 | the cosine measured against the reversed direction is capped at 1 and is that dot product when it is at most 1 |
| CppMaterials.DielectricScatter | src/materials/dielectric.cpp:27-50 | scatters from the hit point with the tint, reflecting when refraction is impossible or a finite reflectance beats the sample, refracting with a finite ratio otherwise; NaN (`NotANumber`) exactly when it does not reflect and the ratio is infinite |
| CppMaterials.TotalReflectionIgnoresSample | src/materials/dielectric.cpp:40-46 | under total internal reflection, with any ratio including `+inf`, the outcome does not depend on the sample and is the mirror image |
| CppMaterials.NaNReflectanceIgnoresSample | src/materials/dielectric.cpp:18-46 | at ratio -1 or at the infinite ratio of index 0, where Schlick's reflectance is NaN, only total internal reflection decides and the sample never matters |
| CppMaterials.ZeroIndexEntering | src/materials/dielectric.cpp:32-46 | a front-facing hit on index 0 gives a direction exactly when the sine is positive, and that direction is the mirror image |
| CppMaterials.HighSampleRefracts | src/materials/dielectric.cpp:42-46 | for a positive index, when refraction is possible, a sample at or above 1 always refracts along `refract` with the finite ratio |
| Threads.DetermineWork | src/threads.rs:14-37 | one band per core; band `k` spans the full image width, is `height / n` rows tall plus one extra row while the remainder lasts, and starts where the previous band ended |
| Threads.OffsetStep | src/threads.rs:28-31 | the next band's corner is the current corner moved down by the current band's height |
| Threads.WorkTiles | src/threads.rs:13-37 | the bands tile the image rows exactly (consecutive, non-overlapping, adding up to the height); every band is `height / n` or `height / n + 1` rows tall, the taller ones being exactly the first `height % n`, and heights never increase ("difference of 1 at most") |
| Threads.JoinCanvases | src/threads.rs:41-54 | no tiles is the `unwrap` panic (`None`); otherwise the result joins, top to bottom, the tiles in some ordering that is a permutation of the input sorted by id |
| Threads.JoinOrderIndependent | src/threads.rs:47-53 | when ids are distinct, the joined image does not depend on the order in which the threads delivered their tiles |
| Threads.JoinSortedInput | src/threads.rs:47-53 | tiles already in id order are joined in exactly that order |
| Partition.SpansOrdered | src/threads.rs:28-31 | of two row spans that tile the image, the earlier one ends before the later one starts |
| Partition.RowCovered | src/threads.rs:28-31 | every image row lies in some span of a tiling |
| Partition.CoversExactlyOnce | src/utils/parallel.cpp:42-44 | a tiling covers every row exactly once and nothing past the height, which is what makes the threads' shared writes non-overlapping |
| Partition.TilesLength | src/threads.rs:31 | the lengths of the spans of a tiling add up to the image height |
| Parallelization.SeparateLines | src/utils/parallelization.rs:16-41 | the loop produces exactly the bands of the recursive definition: full `step`-row bands while more than `step` rows remain, then one band with the rest if any |
| Parallelization.LinesFromCount | src/utils/parallelization.rs:24-38 | there are no bands iff there are no rows; otherwise `ceil(total / step)` bands |
| Parallelization.LinesFromOffsets | src/utils/parallelization.rs:24-32 | band `k` spans the full width with its corner at `y + k * step`, and every band but the last is `step` rows tall |
| Parallelization.LinesFromLast | src/utils/parallelization.rs:34-38 | the last band holds between 1 and `step` rows and ends at the bottom of the image |
| Parallelization.SeparateLinesTiles | src/utils/parallelization.rs:16-41 | the bands tile the image rows exactly and are empty iff the image has no rows |
| Parallelization.RenderBands | src/utils/parallelization.rs:76-83 | every band is rendered with its own id, dimensions and corner, and keeps its id |
| Parallelization.GlueCanvases | src/utils/parallelization.rs:45-53 | an empty list is the `expect` panic (`None`); otherwise the tiles are joined in id order exactly as the threaded join does |
| Parallelization.Render | src/utils/parallelization.rs:68-86 | a zero step (the `assert_ne!`) or an image without rows (the `expect` on no canvases) panics; otherwise the image is the band renders joined top to bottom in band order |
| Parallelization.RenderSingleThreaded | src/utils/parallelization.rs:56-62 | an image without rows panics; otherwise the image is the single band covering the whole image at the origin |
| ParallelCpp.GetNumThreadsAsWritten | src/utils/parallel.cpp:6-18 | as written: an unknown processor count gives one thread, otherwise one less than the processor count, which is 0 on a single processor |
| ParallelCpp.LaunchAsWritten | src/utils/parallel.cpp:26-56 | the launch divides the height by the thread count, so it fails (`None`) exactly when that count is not positive, and otherwise starts the scanners of the split |
| ParallelCpp.AsWrittenOneProcessorFails | src/utils/parallel.cpp:14-31 | on a machine reporting one processor the thread count is 0 and the launch divides by zero |
| ParallelCpp.GetNumThreads | src/utils/parallel.cpp:6-18 | corrected: at least one thread, and one less than the processor count whenever that leaves a thread |
| ParallelCpp.LaunchAlwaysSucceeds | src/utils/parallel.cpp:26-31 | with the corrected count the launch never divides by zero and starts one scanner per thread |
| ParallelCpp.Scanners | src/utils/parallel.cpp:33-56 | one scanner per thread |
| ParallelCpp.FirstRowStep | src/utils/parallel.cpp:54-55 | the next scanner starts `height / n` rows after the current one, plus the remainder after the first |
| ParallelCpp.LaunchThreads | src/utils/parallel.cpp:29-56 | the loop builds exactly the scanners of the split |
| ParallelCpp.ScannersTile | src/utils/parallel.cpp:29-56 | the scanners' row spans tile the image rows exactly and add up to the height |
| ParallelCpp.ScannersShape | src/utils/parallel.cpp:33-55 | the first scanner takes `height / n + height % n` rows and every other one `height / n`; each carries its own id and the image's width, height and sample count |
| Grids.FlatIndexBound | src/utils/ppm.cpp:38-42 | a pixel of a `width x height` grid has a row-major index below `width * height` |
| Grids.FlatIndexInjective | src/io.rs:37-42 | distinct pixels of a row have distinct row-major indices |
| Grids.RowsInside | src/render/mod.rs:58-61 | the row-by-row loops make `width * height` visits, all inside the rectangle |
| Grids.RowsDistinct | src/render/mod.rs:58-61 | the row-by-row loops never visit a pixel twice |
| Grids.RowsIndex | src/render/mod.rs:58-61 | pixel `(i, j)` is visited at its row-major position relative to the corner |
| Grids.RowsExactlyOnce | src/render/mod.rs:58-72 | the loops visit every pixel of the rectangle exactly once and nothing outside it |
| PngTiles.WithOffset | src/io.rs:25-33 | a tile at the given corner, of the given size, with three zero bytes per pixel |
| PngTiles.New | src/io.rs:20-22 | the same black tile at the origin |
| PngTiles.Index | src/io.rs:37-42 | every pixel starts on a multiple of three bytes, and for a pixel of the tile the pixel number `index / 3` lies inside the tile and decodes back to its column and row |
| PngTiles.IndexInBounds | src/io.rs:37-42 | the three bytes of every pixel of the tile lie inside its buffer |
| PngTiles.WindowsDisjoint | src/io.rs:37-42 | distinct pixels of the tile own disjoint three-byte windows |
| PngTiles.Set | src/io.rs:48-56 | fails exactly when the pixel is left of or above the corner (the debug assertion) or its window runs past the buffer (the slice check); otherwise writes the three bytes at the pixel's index and keeps every other byte |
| PngTiles.SetInTile | src/io.rs:48-56 | setting a pixel of the tile succeeds, keeps the tile well formed, reads back as written and leaves every other pixel of the tile unchanged |
| Ppms.New | src/utils/ppm.cpp:4-9 | a canvas of the given size with `width * height` black pixels |
| Ppms.GetIndex | src/utils/ppm.cpp:38-42 | a pixel of the canvas indexes inside a buffer of `width * height` entries, and the index decodes back to it: column is the remainder, row the quotient by the width |
| Ppms.GetColor | src/utils/ppm.cpp:24-29 | the colour read is one stored in the buffer; with `Ppms.SetColor` it reads back what was stored |
| Ppms.GetIndexInRange | src/utils/ppm.cpp:38-42 | a pixel of the canvas indexes inside its buffer, at its row-major position |
| Ppms.GetIndexInjective | src/utils/ppm.cpp:38-42 | distinct pixels of the canvas have distinct indices |
| Grids.FlatIndexDecode | src/io.rs:41 | the flat index of a pixel with column below the width decodes back to its column and row |
| Grids.RowMajor | src/utils/ppm.cpp:41 | an in-range pixel lands inside a buffer of `width * height` entries and decodes back to its column and row |
| Ppms.SetColor | src/utils/ppm.cpp:24-36 | `getColor` reads back what `setColor` stored, and every other buffer entry is kept |
| Ppms.SetColorFrame | src/utils/ppm.cpp:24-36 | setting one pixel of a well-formed canvas leaves every other pixel's colour unchanged |
| RustRender.Sky | src/render/mod.rs:90-95 | the background is white straight down, sky blue straight up, and inside the unit colour cube in between |
| RustRender.RayColor | src/render/mod.rs:78-97 | depth 0 is black after no bounce; a miss shows the sky; an absorbed ray is black; the number of bounces never exceeds the depth and is zero only at depth 0 |
| RustRender.OnlySceneRangeMatters | src/render/mod.rs:83 | the colour depends on the world only through collisions in `[0.001, inf)` |
| RustRender.PixelColor | src/render/mod.rs:62-69 | the pixel colour is the mean of its samples: scaled back up by the count it is their sum |
| RustRender.OneSampleIsRayColor | src/render/mod.rs:64-69 | with one sample per pixel the pixel colour is the colour of its single ray |
| RustRender.ShadePixel | src/render/mod.rs:62-69 | the sample loop computes the average of the sampled ray colours |
| RustRender.DoneStep | src/render/mod.rs:70 | writing a pixel's colour succeeds and extends the finished part of the tile by that pixel |
| RustRender.RenderRow | src/render/mod.rs:61-71 | one row is written left to right, finishing that row and keeping the tile's shape |
| RustRender.Render | src/render/mod.rs:49-75 | the tile has the band's size and corner, is written pixel by pixel in row-major order, and every pixel holds the bytes of its own averaged colour |
| CppScene.Background | src/scene.cpp:129-132 | the C++ background gradient is the same colour as the Rust sky |
| CppScene.GetColor | src/scene.cpp:111-133 | depth at most 0 is black; a miss shows the background; an absorbed ray is black |
| CppScene.GetColorAgreesWithRust | src/scene.cpp:111-133 | given materials that scatter alike, the C++ integrator and the Rust one compute the same colour |
| CppScene.PixelColor | src/scene.cpp:155-165 | the stored colour is the mean of the samples: scaled back up by the count it is their sum |
| CppScene.ShadePixel | src/scene.cpp:155-165 | the sample loop computes the average of the sampled ray colours |
| CppScene.InBounds | src/utils/ppm.cpp:38-42 | a pixel of a well-formed canvas indexes inside its buffer |
| CppScene.ScanStep | src/scene.cpp:165 | writing one pixel extends the scanned part and leaves every other pixel unchanged |
| CppScene.ScanRow | src/scene.cpp:154-166 | one pass over a row writes its pixels left to right; afterwards every pixel of the row holds its averaged colour and every pixel outside the scanned part keeps its original colour |
| CppScene.Scan | src/scene.cpp:135-168 | the loops visit the scanner's rows in row-major order; every pixel in its band holds its own averaged colour and every other pixel is unchanged |
| CppScene.ScannersPartitionCanvas | src/utils/parallel.cpp:33-56 | every pixel of the canvas belongs to exactly one scanner, so the threads' writes never overlap |

## Left out

- Floating point: IEEE `f32`/`f64`/`float` arithmetic is modelled as exact `real` arithmetic. Rounding and NaN are not modelled. The infinities used as range ends are the `ExtReals` values.
- Square roots and normalisation: `normalize`, `length`, `sqrt`, `reflect`, `is_near_zero` and the random unit vectors are parameters of the operations that use them. They are constrained only by the properties each proof states in its requires.
- Matrix transforms (`transform`/`apply`), `join_vertical`, `surface_area` and `longest_axis` are parameters. So are the camera's `cast` and `jitter` and the colour-to-byte conversion (`255.999 * value`). Each is an opaque function, because its floating-point or image-buffer details are outside the logic proved here.
- Randomness: `rand` and `random_float` are parameters. These cover the random split axis (`reorder`/`axisOf`), the probabilistic Lambertian draw and the dielectric's reflect-or-refract draw.
- Concurrency: `std::thread`, `rayon`'s `par_iter` and `join` are not modelled. Each worker is its band's pure computation, and the model proves that the bands do not overlap.
- I/O: `export`, `dump`, the progress messages on standard error and the scene files are not modelled.
- `estimate_cores` is not modelled. It reads the machine, and its result is never 0, which `Threads.DetermineWork` requires.
- `src/utils/math.rs` (the free `schlick` helper) and the camera constructors are not part of this model.
- `std::sort` and `sort_unstable_by` may order equal keys either way. The model uses a stable insertion sort as one admissible order, and `Threads.JoinOrderIndependent` shows the order does not matter when the ids differ.
- Threads.DetermineWork: requires `n > 0`. The source panics on the division by zero, and its caller never passes 0.
- Parallelization.SeparateLines: requires `step > 0`. A zero step loops forever in the source, and `render` asserts it is not zero before calling.
- Bvh.FromWorld: requires a non-empty world. The source recurses on an empty range without end.
- Bvh.Build: requires a non-empty range, for the same reason.
- RustRender.Render: requires at least one sample per pixel. The division by a zero sample count is floating point and yields NaN, which is not modelled.
- CppScene.Scan: requires at least one sample per pixel, as for the Rust renderer. It also requires that the scanner fit inside the canvas. The source only needs the indices it writes to lie inside the buffer.
- PngTiles.Set: release-build `usize` wrap-around of `x - x0` is not modelled. The debug assertion's failure is the model's error path.
- ParallelCpp.LaunchAsWritten: negative `int` widths and heights are not modelled. The sizes are natural numbers.
- Ppms.New: negative `int` sizes are not modelled.
- RustMaterials.Refract: the inner `normalize` of an already-normalised direction is taken as the identity.
- SphereCpp.Hit: requires a non-zero direction and a non-zero radius. The source divides by the quadratic's leading coefficient and by the radius, and division by zero is floating point, which is not modelled.
- SphereRs.Collide: requires a non-zero direction and a non-zero radius, for the same reason as `SphereCpp.Hit`.
- Bounding.Slab: requires every direction component to be non-zero. The source divides by them and relies on IEEE infinities, which are not modelled.
- AxisBoxes.Narrow: requires non-zero direction components, for the same reason as `Bounding.Slab`.
- Parallelograms.New: the tolerance `ZERO_TOL` is a parameter.
- CppMaterials.Reflectance: requires a refraction index other than -1, where Schlick's formula divides by zero. `CppMaterials.Reflects` never calls it there: it treats the NaN comparison as false.
- RustMaterials.DielectricScatter: a result with a NaN or infinite component is the single value `NotANumber`; which components are NaN is not modelled. Negative zero is not modelled, so `1 / 0` is always `+inf`.
- CppMaterials.DielectricScatter: NaN results are `NotANumber` as in the Rust model. A negative index, whose front-face ratio is finite and negative, is modelled with exact reals.
- Bvh.NodeNearest: requires that every object hit by the ray reports a box and that the hit lies strictly inside it (`HitsInside`). `AxisBox::hit` rejects a window that shrinks to one point, so a hit that only grazes a box's boundary is not covered. Nor are an object without a box and a sphere of negative radius, whose box is inverted (see Findings).
- Bvh.NodeMatchesWorld: requires `HitsInside`, for the same reason as `Bvh.NodeNearest`.
- Bvh.FromWorldMatchesWorld: requires `HitsInside`, for the same reason as `Bvh.NodeNearest`.
- Hierarchy.HitInsideBox: requires `HitsInBounds`: every hit an object reports lies inside that object's own box. It also inherits the `NoZeroComponent` requirement of `Bounding.Slab`. The as-written parallelogram breaks `HitsInBounds` (see Findings and `Hierarchy.AsWrittenParallelogramMissed`). The corrected one keeps it for every crossing of its plane that is a combination of its sides (`Parallelograms.CollideInBox`). No other Rust primitive's hits are proved to lie in its box.
- Hierarchy.CollideNearest: requires `HitsInBounds` and a ray with no zero direction component, for the same reasons as `Hierarchy.HitInsideBox`. Without them the traversal can miss a hit that a leaf reports.
- Hierarchy.ScanHitFound: requires `HitsInBounds` and a ray with no zero direction component, for the same reasons as `Hierarchy.HitInsideBox`.
- Hierarchy.CollideMatchesScan: requires `HitsInBounds` and a ray with no zero direction component, for the same reasons as `Hierarchy.HitInsideBox`. Only the direction "the traversal hits, so the scan hits no farther" (`Hierarchy.TreeHitScanned`) holds without `HitsInBounds`.
- Hierarchy.BuiltCollideMatchesScan: requires `HitsInBounds` and a ray with no zero direction component, for the same reasons as `Hierarchy.HitInsideBox`.

## Findings

| source | as written | input that shows it | evidently intended | confidence | as-written member | corrected member |
|---|---|---|---|---|---|---|
| src/geometry/plane.rs:32-37 | the hit is front-facing when the direction has a positive component along the normal, and the normal is flipped to point along the ray | a ray from (0,0,1) straight down onto the floor `z = 0` with normal +z is reported back-facing with normal -z | front-facing when the ray travels against the normal, with the reported normal opposing the ray | not executed | Planes.CollideAsWritten, Planes.AsWrittenNormalAlongRay | Planes.Collide, Planes.CollideReversesAsWritten |
| src/geometry/parallelogram.rs:81-88 | the plane coordinates alpha and beta are computed with the unit normal, so they come out scaled by the parallelogram's area: too large for sides longer than 1, too small for sides shorter than 1 | a ray straight down onto the centre of a square at the origin with sides of length 2 (or any length of at least 2) is rejected; conversely, for a square at the origin of side `s` below 1, the ray from (1/2, 1/2, 1) along (1/2, 1/2, -1) is accepted at (1, 1, 0), outside the square and its box, so a `BoundingHierarchy` leaf over it misses the hit that the linear scan reports | alpha and beta measured with `w = n / (n . n)` for the unnormalised normal, so that the centre sits at (1/2, 1/2) | not executed | Parallelograms.CollideAsWritten, Parallelograms.AsWrittenRejectsCentre, Parallelograms.AsWrittenAcceptsOutside, Hierarchy.AsWrittenParallelogramMissed | Parallelograms.Collide, Parallelograms.CollideAcceptsCentre, Parallelograms.CollideInBox |
| src/geometry/flat.rs:73-74 | the normal's sign is taken from the direction itself, so it always points along the ray, and no hit is ever front-facing | a ray straight down onto a horizontal flat is a back-face hit with its normal pointing down | the normal opposes the incoming ray, and a ray from the normal's side is front-facing | not executed | Flats.LocalCollideAsWritten, Flats.Collide, Flats.AsWrittenNeverFront, Flats.IdentityDownOntoCentre | Flats.LocalCollide, Flats.CollideCorrected, Flats.CollideDownIsFront |
| src/utils/parallel.cpp:14-17 | `processorCount - 1` threads when the count is known | a machine reporting one processor gets 0 threads, and `height / numThreads` then divides by zero | at least one thread | not executed | ParallelCpp.GetNumThreadsAsWritten, ParallelCpp.AsWrittenOneProcessorFails | ParallelCpp.GetNumThreads, ParallelCpp.LaunchAlwaysSucceeds |
| src/geometry/sphere.cpp:53-60 | the box is `center - (radius, radius, radius)` to `center + (radius, radius, radius)`, so a negative radius (which `hit` accepts, since it only uses the radius squared and divides by it) gives an inverted box | the sphere at the origin with radius -1 and the ray from (-2, -1, -2) along (2, 1, 2): `hit` finds it at `t = 2/3`, at a point outside the box, and `AxisBox::hit` rejects the ray, so a `BVH` over the sphere misses it | the box `center -+ abs(radius)`, which holds the whole surface | not executed | SphereCpp.BoundingBox, SphereCpp.NegativeRadiusEscapesBox | SphereCpp.BoundingBoxCorrected, SphereCpp.HitInsideCorrectedBox, SphereCpp.CorrectedBoxAdmitsInverted |
