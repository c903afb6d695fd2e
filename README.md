# A verified model of the GameEngine core

This project models, in Dafny, the core of a small C# 2D game engine:

- the `GameEngine.Math2D` value types `Vector2`, `Matrix2`, `Aabb` and `BoundingCircle`;
- the `IDProvider` id allocator;
- the `GameEngine.ECS` scene graph of entities and components, with its deferred structural
  requests while a node is traversing;
- the transform, movement-controller, physics-controller and collider components;
- the collider geometry `ColliderData` and `ColliderAsset`;
- the physics resolver and the physics scene step;
- the older `GameEngine.Entity` / `GameEngine.Component` graph API.

Each property is proved about the model.

Modelling choices:

- **Numbers.** Scalars are `real`, with no float rounding.
- **Functions the model cannot compute.** Square root, the matrix-vector product and
  `Vector2.Unit` are supplied by the caller as function parameters. A property that depends on
  square-root laws assumes them through the `IsSqrt` predicate.
- **Object graphs.** Both graphs live in map-based heaps: one `World` (ECS) or `LegacyWorld`
  (legacy) object holds a record per node, keyed by a handle that stands for the reference, and
  `null` is `None`.
- **The ECS `Id` and live-object tables.** The static `ActiveEntities` and `ActiveComponents`
  tables become the `World`'s own maps. Their two `IDProvider`s are fields of the `World`.
- **Termination.** The source's recursive walks over `Children` and its loops up the `Parent`
  chain only terminate on an acyclic graph. Every such operation takes a ghost `rank` map whose
  order those links respect. The model states and proves which operations keep that order.
- **Imperative code.**
  - Each imperative member of the source is a `method` that updates the world's maps.
  - It is proved to compute a specification function, e.g.
    `w.State() == AddComponent(old(w.State()), ...)`.
  - The lemmas state the properties of that function.
- **Defects.** Defects in the source are modelled as written; see "## Findings".

Module map:

| module | models |
|---|---|
| `FloatUtils`, `Vectors` | `Math2D/Vector2.cs` |
| `Matrices` | `Math2D/Matrix2.cs` |
| `Aabbs` | `Math2D/Aabb.cs` |
| `BoundingCircles` | `Math2D/BoundingCircle.cs` |
| `Lists`, `Sequences`, `Outcomes` | `List<T>`, its `Remove`, the filtering loops, results and exceptions |
| `IdProviders` | `Containers/IDProvider.cs` |
| `Resolver` | `Physics/PhysicsResolver.cs` |
| `ColliderDatas`, `ColliderAssets` | `Physics/ColliderData.cs`, `Physics/ColliderAsset.cs` |
| `EcsNodes`, `Worlds` | the ECS heap, ids and live-object tables |
| `EcsLinks`, `ComponentOps`, `EntityComponents`, `EntityTree` | the ECS `Component.cs` and `Entity.cs` as specification functions |
| `ComponentMethods`, `EntityMethods` | the same members as methods on a `World` |
| `Kinds`, `KindMethods` | `Transform.cs`, `MovementController.cs`, `PhysicsController.cs`, `Collider.cs` |
| `PhysicsStep`, `PhysicsScenes` | `Physics/PhysicsScene.cs` |
| `LegacyNodes`, `LegacyLinks`, `LegacyEntities` | `GameEngine/Component.cs`, `GameEngine/Entity.cs` as functions |
| `LegacyComponentMethods`, `LegacyEntityMethods` | the same members as methods on a `LegacyWorld` |

## Model

| member | source | states |
|---|---|---|
| `FloatUtils.IsFloatZero` | GameEngine/Math2D/Vector2.cs:15-18 | holds exactly when the absolute value is strictly below the tolerance, so both bounds are exclusive |
| `FloatUtils.IsFloatClose` | GameEngine/Math2D/Vector2.cs:20-23 | holds exactly when the absolute difference is strictly below the tolerance |
| `FloatUtils.IsDoubleZero` | GameEngine/Math2D/Vector2.cs:29-32 | the double version agrees with the float version, since both are reals here |
| `FloatUtils.IsDoubleClose` | GameEngine/Math2D/Vector2.cs:34-37 | the double closeness test agrees with the float one |
| `FloatUtils.IsFloatCloseSymmetric` | GameEngine/Math2D/Vector2.cs:20-23 | closeness is symmetric, and a value is close to itself exactly when the tolerance is positive |
| `Vectors.Vector2.Scale` | GameEngine/Math2D/Vector2.cs:63-66 | the component-wise product keeps the receiver's z |
| `Vectors.Vector2.At` | GameEngine/Math2D/Vector2.cs:156-165 | the indexer succeeds exactly for keys 0, 1 and 2, and throws `IndexOutOfRangeException` for every other key |
| `Vectors.AtRoundTrip` | GameEngine/Math2D/Vector2.cs:156-165 | keys 0, 1 and 2 read back x, y and z, so the three keys determine the vector |
| `Vectors.Vector2.Equals` | GameEngine/Math2D/Vector2.cs:120-123 | true exactly when x and z are within the precise epsilon and y is exactly equal |
| `Vectors.Vector2.EqualsWithin` | GameEngine/Math2D/Vector2.cs:125-128 | holds exactly when all three components are within the tolerance |
| `Vectors.EqualsLaws` | GameEngine/Math2D/Vector2.cs:120-128 | `Equals` is reflexive and symmetric, `EqualsWithin` is symmetric, and vectors with different y are never `Equals` |
| `Vectors.AddSubLaws` | GameEngine/Math2D/Vector2.cs:80-88 | binary `+` is commutative and associative, `a - b == a + (-b)`, subtraction undoes addition, and negation is an involution with inverse `-a` |
| `Vectors.ScalarSides` | GameEngine/Math2D/Vector2.cs:95-103 | scalar multiplication from the left and from the right agree, compose by multiplying the scalars, and multiplying by -1 is unary minus |
| `Vectors.DotLaws` | GameEngine/Math2D/Vector2.cs:58-61 | the dot product is symmetric and equals `Vector2 * Vector2`; it ignores z, is linear in its first argument, and gives a non-negative squared length |
| `Matrices.IndexOfBijection` | GameEngine/Math2D/Matrix2.cs:260-263 | `IndexOf(x, y) = x + 3y` maps [0,3)x[0,3) into [0,9); every index in [0,9) is hit by `(i % 3, i / 3)`, and only by that pair |
| `Matrices.At` | GameEngine/Math2D/Matrix2.cs:255-258 | `this[x, y]` is `Data[x + 3y]` when that index is in the array, and throws `IndexOutOfRangeException` otherwise |
| `Matrices.Translation` | GameEngine/Math2D/Matrix2.cs:15 | the translation is always returned as a point: its z is 1, whatever `Data[8]` holds |
| `Matrices.Scale2` | GameEngine/Math2D/Matrix2.cs:16 | the scale is the square roots of the squared lengths of `Right` and `Up`, with z 0 |
| `Matrices.Default` | GameEngine/Math2D/Matrix2.cs:22-27 | the default constructor sets entries 0, 3 and 6: `Right` and `Up` are both (1, 0), the translation is (1, 0), and the determinant is 0, so it is not the identity |
| `Matrices.FromArray` | GameEngine/Math2D/Matrix2.cs:28-34 | the array constructor succeeds exactly on nine entries and adopts them unchanged; otherwise it throws `RankException` |
| `Matrices.FromPosition` | GameEngine/Math2D/Matrix2.cs:35-43 | the position constructor has unit `Right` and `Up`, the given translation and determinant 1 |
| `Matrices.FromBasis` | GameEngine/Math2D/Matrix2.cs:44-55 | the basis constructor stores `Right`, `Up` and the translation, with column z entries 0, 0 and 1 |
| `Matrices.FromScale` | GameEngine/Math2D/Matrix2.cs:56-64 | the scale constructor puts the scale on the diagonal, stores the translation, and has determinant `sx * sy` |
| `Matrices.ConstructorLayouts` | GameEngine/Math2D/Matrix2.cs:35-64 | the position constructor lays out {1,0,0,0,1,0,px,py,1} and the scale constructor {sx,0,0,0,sy,0,px,py,1}; unit scale gives the position matrix |
| `Matrices.Translate` | GameEngine/Math2D/Matrix2.cs:111-114 | `Translate(x, y)` keeps `Right`, `Up` and the determinant, and adds (x, y) to the translation |
| `Matrices.TranslateBy` | GameEngine/Math2D/Matrix2.cs:116-119 | the vector overload is `Translate(offset.X, offset.Y)` |
| `Matrices.TranslateComposes` | GameEngine/Math2D/Matrix2.cs:111-114 | two translations compose by adding the offsets, and a translation leaves the squared scale alone |
| `Matrices.Scale` | GameEngine/Math2D/Matrix2.cs:131-134 | `Scale(x, y)` keeps the translation, multiplies `Right` by x and `Up` by y, and multiplies the determinant by `x * y` |
| `Matrices.ScaleUniform` | GameEngine/Math2D/Matrix2.cs:126-129 | the one-argument overload scales both axes by the same factor |
| `Matrices.ScaleBy` | GameEngine/Math2D/Matrix2.cs:136-139 | the vector overload is `Scale(s.X, s.Y)` |
| `Matrices.Extensionality` | GameEngine/Math2D/Matrix2.cs:255-263 | two matrices that agree at every row and column are equal |
| `Matrices.TransposedAt` | GameEngine/Math2D/Matrix2.cs:96-109 | row x, column y of the transpose is row y, column x of the matrix |
| `Matrices.TransposeInvolution` | GameEngine/Math2D/Matrix2.cs:96-109 | transposing twice gives back the matrix |
| `Matrices.Transpose` | GameEngine/Math2D/Matrix2.cs:96-109 | the loop that fills a fresh array computes the transpose, entry by entry |
| `Matrices.Sum` | GameEngine/Math2D/Matrix2.cs:160-170 | the sum is element-wise |
| `Matrices.Plus` | GameEngine/Math2D/Matrix2.cs:160-170 | the loop behind `operator+` computes the element-wise sum |
| `Matrices.Negated` | GameEngine/Math2D/Matrix2.cs:184-194 | negation is element-wise |
| `Matrices.UnaryPlus` | GameEngine/Math2D/Matrix2.cs:184-194 | unary `operator+` as written negates every entry; kept on purpose, since `Matrix2` has no unary `operator-` and which operator was meant cannot be told |
| `Matrices.PartialEntryComplete` | GameEngine/Math2D/Matrix2.cs:202-209 | the inner accumulation over all three terms is the product entry `sum over j of left[j, y] * right[x, j]` |
| `Matrices.ProductAt` | GameEngine/Math2D/Matrix2.cs:196-212 | row x, column y of the product is `sum over j of left[j, y] * right[x, j]` |
| `Matrices.Multiply` | GameEngine/Math2D/Matrix2.cs:196-212 | the nested loops of `operator*` compute that product |
| `Matrices.ProductIdentity` | GameEngine/Math2D/Matrix2.cs:196-212 | the position matrix of the origin is a two-sided identity of the product |
| `Matrices.ProductAssociative` | GameEngine/Math2D/Matrix2.cs:196-212 | the product is associative |
| `Matrices.TransposeProduct` | GameEngine/Math2D/Matrix2.cs:96-212 | transposing a product reverses the order of its factors |
| `Matrices.Equals` | GameEngine/Math2D/Matrix2.cs:224-235 | `Equals` is true exactly when all nine entries are within the precise tolerance |
| `Matrices.EqualsWithin` | GameEngine/Math2D/Matrix2.cs:237-248 | the tolerance overload is true exactly when all nine entries are within `epsilon` |
| `Matrices.Minus` | GameEngine/Math2D/Matrix2.cs:172-182 | `operator-` as written computes the element-wise sum |
| `Matrices.Difference` | GameEngine/Math2D/Matrix2.cs:172-182 | the intended `operator-` is the element-wise difference |
| `Matrices.DifferenceUndoesSum` | GameEngine/Math2D/Matrix2.cs:160-182 | the intended difference undoes the sum, and adding again (as the written `operator-` does) never undoes it when the right operand is non-zero |
| `Matrices.GetInverse` | GameEngine/Math2D/Matrix2.cs:141-158 | the source's inverse has no value exactly when the determinant is 0, and otherwise is built from the reciprocal of the determinant, with the second basis vector computed from the already-replaced first |
| `Matrices.GetInverseIsNotInverse` | GameEngine/Math2D/Matrix2.cs:141-158 | for every invertible scale matrix diag(sx, sy), at any position, the source's inverse exists and does not compose with the matrix to the identity |
| `Matrices.Inverse` | GameEngine/Math2D/Matrix2.cs:141-158 | the intended inverse, through the adjugate of the linear block, is affine |
| `Matrices.InverseIsInverse` | GameEngine/Math2D/Matrix2.cs:141-158 | the intended inverse of an affine matrix with non-zero determinant is a two-sided inverse |
| `Aabbs.Aabb.Area` | GameEngine/Math2D/Aabb.cs:9 | the area is the product of the size's two components |
| `Aabbs.Aabb.Perimeter` | GameEngine/Math2D/Aabb.cs:10 | the perimeter is twice the sum of the size's components |
| `Aabbs.FromCorners` | GameEngine/Math2D/Aabb.cs:14-26 | the two-point constructor orders the corners per axis (min below max), and makes both corners points with z 1 |
| `Aabbs.FromOrderedCorners` | GameEngine/Math2D/Aabb.cs:14-26 | corners that are already ordered pass through unchanged apart from z |
| `Aabbs.ConstructedContains` | GameEngine/Math2D/Aabb.cs:7-34 | the inclusive `Contains` holds for both given corners and for the box's own centre |
| `Aabbs.NormalisedMeasures` | GameEngine/Math2D/Aabb.cs:8-10 | a normalised box has a non-negative size, area and perimeter |
| `Aabbs.IntersectsIsOverlap` | GameEngine/Math2D/Aabb.cs:36-39 | for normalised boxes, the `Expand`-and-`Contains` test of `Intersects` is exactly `Min <= o.Max and o.Min <= Max` on both axes |
| `Aabbs.IntersectsSymmetric` | GameEngine/Math2D/Aabb.cs:36-39 | intersection of normalised boxes is symmetric |
| `Aabbs.SharedPointIntersects` | GameEngine/Math2D/Aabb.cs:28-39 | two boxes that share a point, including one on an edge or a corner, intersect |
| `Aabbs.ExpandProperties` | GameEngine/Math2D/Aabb.cs:41-44 | growing by a positive amount gives a box that holds the old corners; the old box holds neither new corner; the area becomes (w+2a)(h+2a) and the perimeter grows by 8a |
| `Aabbs.Hull` | GameEngine/Math2D/Aabb.cs:121-141 | the min/max fold gives a normalised box whose corners are points |
| `Aabbs.HullContainsAll` | GameEngine/Math2D/Aabb.cs:121-141 | every point of the list lies in the computed box |
| `Aabbs.HullAttained` | GameEngine/Math2D/Aabb.cs:121-141 | each of the four bounds is the coordinate of some point of the list |
| `Aabbs.HullIsSmallest` | GameEngine/Math2D/Aabb.cs:121-141 | any box holding all the points holds both corners of the computed box |
| `Aabbs.Compute` | GameEngine/Math2D/Aabb.cs:121-141 | the default box for an empty list, else the hull computed by the loop from index 1 |
| `Aabbs.BoundsExpanded` | GameEngine/Math2D/Aabb.cs:46-79 | each transformed bound on axis i is the translation plus the two ordered products of column j with the box's extent on axis j |
| `Aabbs.OrderedProducts` | GameEngine/Math2D/Aabb.cs:58-70 | the swap of two products leaves the smaller as the lower term and the larger as the upper term |
| `Aabbs.Transform` | GameEngine/Math2D/Aabb.cs:46-79 | the span loops compute the box whose axis-i bounds are `Translation[i] + sum over j of min(M[i,j]*Min[j], M[i,j]*Max[j])`, and the same with max for the upper bound |
| `Aabbs.TermBetween` | GameEngine/Math2D/Aabb.cs:58-70 | each term of a point's affine image lies between the matching lower and upper terms |
| `Aabbs.TransformSound` | GameEngine/Math2D/Aabb.cs:46-79 | the transformed box holds the affine image of every point of the original box |
| `Aabbs.EqualsLaws` | GameEngine/Math2D/Aabb.cs:91-99 | exact `Equals` is equality of the corners, the tolerance test is symmetric, and reflexive for a positive tolerance |
| `BoundingCircles.BoundingCircle.Transform` | GameEngine/Math2D/BoundingCircle.cs:29-36 | the centre goes through the supplied matrix-vector product; the radius is the old radius times one of the two scale factors, at least both products for a non-negative radius and at most both for a non-positive one, hence the larger factor; it stays non-negative under a lawful square root |
| `BoundingCircles.DistanceSquared` | GameEngine/Math2D/BoundingCircle.cs:17-20 | the squared distance is never negative |
| `BoundingCircles.FarthestIsMaximum` | GameEngine/Math2D/BoundingCircle.cs:53-58 | the running maximum seeded with 0 is at least every point's squared distance, and is attained by some point when there is one |
| `BoundingCircles.Compute` | GameEngine/Math2D/BoundingCircle.cs:48-61 | the default circle for no points; otherwise the circle about the given centre with radius `sqrt(max squared distance) + LooseEpsilonF` |
| `BoundingCircles.CircleHoldsAll` | GameEngine/Math2D/BoundingCircle.cs:48-61 | a circle whose radius is the root of the farthest squared distance plus the loose epsilon holds every point |
| `BoundingCircles.HoldsPoint` | GameEngine/Math2D/BoundingCircle.cs:17-20 | a point no farther than that root lies in the inclusive circle |
| `BoundingCircles.ComputeContainsAll` | GameEngine/Math2D/BoundingCircle.cs:48-61 | with a lawful square root the computed circle holds every point and has radius at least `LooseEpsilonF` |
| `BoundingCircles.ComputeFromPoints` | GameEngine/Math2D/BoundingCircle.cs:38-46 | the default circle for no points, else the circle centred on the centre of the points' bounding box |
| `BoundingCircles.CenterInsideBox` | GameEngine/Math2D/BoundingCircle.cs:43-45 | the centre chosen by `Compute(points)` lies inside the points' bounding box |
| `BoundingCircles.DistanceSymmetric` | GameEngine/Math2D/BoundingCircle.cs:17-27 | the squared distance does not depend on the order of the two points |
| `BoundingCircles.IntersectsSymmetric` | GameEngine/Math2D/BoundingCircle.cs:22-27 | intersection is symmetric, and a circle with non-negative radius intersects itself |
| `BoundingCircles.ContainsCenter` | GameEngine/Math2D/BoundingCircle.cs:17-20 | every circle contains its own centre |
| `IdProviders.CountUsed` | GameEngine/Containers/IDProvider.cs:9 | the number of allocated ids never exceeds the capacity |
| `IdProviders.CountUsedUpdate` | GameEngine/Containers/IDProvider.cs:9 | rewriting one node changes the count by the difference of the two `Used` bits |
| `IdProviders.CountUsedSameBits` | GameEngine/Containers/IDProvider.cs:9 | two lists with the same `Used` bits hold the same number of ids |
| `IdProviders.CountUsedFull` | GameEngine/Containers/IDProvider.cs:15-24 | the count reaches the capacity exactly when every node is `Used`: the condition under which `Allocate` appends |
| `IdProviders.FullFromRoot` | GameEngine/Containers/IDProvider.cs:28-48 | under the flag invariant, a root that is `AllUsed` makes every node `AllUsed` |
| `IdProviders.RootNotFull` | GameEngine/Containers/IDProvider.cs:26-30 | while some id is free the root is not `AllUsed`, so the descent can start |
| `IdProviders.DescentStep` | GameEngine/Containers/IDProvider.cs:28-48 | a used node whose subtree is not full has a child whose subtree is not full, so the "something went seriously wrong" throw is unreachable |
| `IdProviders.UpdateFrame` | GameEngine/Containers/IDProvider.cs:50-78 | rewriting a node without changing its `ChildrenUsed` bit can leave only the node's parent inconsistent |
| `IdProviders.RepairStep` | GameEngine/Containers/IDProvider.cs:56-77 | recomputing a node's `ChildrenUsed` from its two children makes it consistent; only its parent may be left unrepaired |
| `IdProviders.ClearStep` | GameEngine/Containers/IDProvider.cs:104-116 | clearing `ChildrenUsed` at the parent of a child that is not full makes the parent consistent and not full; only its own parent may be left unrepaired |
| `IdProviders.AppendFull` | GameEngine/Containers/IDProvider.cs:15-24 | appending an `AllUsed` node to a consistent list keeps it consistent |
| `IdProviders.Determined` | GameEngine/Containers/IDProvider.cs:6-177 | the `Used` bits determine a consistent flag list completely, so `Allocate` and `Free` fix the whole new list |
| `IdProviders.IdProvider.constructor` | GameEngine/Containers/IDProvider.cs:6-9 | a new provider has no nodes and count 0, and satisfies the invariant |
| `IdProviders.IdProvider.IsAllocated` | GameEngine/Containers/IDProvider.cs:152-160 | false outside [0, `Capacity`), else the node's `Used` flag |
| `IdProviders.IdProvider.Descend` | GameEngine/Containers/IDProvider.cs:28-48 | the left-first descent ends at a node that is not `Used` |
| `IdProviders.IdProvider.Allocate` | GameEngine/Containers/IDProvider.cs:11-81 | returns an id that was free and is now allocated; `Count` grows by one and no other id changes; capacity grows by one, to the new id, exactly when every id was taken, and is otherwise unchanged; the invariant is kept |
| `IdProviders.IdProvider.RepairAncestors` | GameEngine/Containers/IDProvider.cs:50-78 | the bottom-up repair makes every node consistent and changes no `Used` bit |
| `IdProviders.IdProvider.Free` | GameEngine/Containers/IDProvider.cs:83-117 | throws `IndexOutOfRange` outside [0, `Capacity`) and `InvalidOperation` for a free id, changing nothing; otherwise frees exactly that id, decrements `Count`, keeps `Capacity` and every other id, and keeps the invariant |
| `IdProviders.IdProvider.AllocateInto` | GameEngine/Containers/IDProvider.cs:119-138 | allocates as `Allocate` does, then throws if the id is past the container's end, appends if it is the end, and overwrites slot id otherwise |
| `IdProviders.IdProvider.FreeFrom` | GameEngine/Containers/IDProvider.cs:140-150 | frees as `Free` does: `IndexOutOfRange` outside `[0, Capacity)` and `InvalidOperation` for a free id, changing nothing; then throws if the container has no slot id, and otherwise writes `nullValue` there |
| `IdProviders.AllocateSequentially` | GameEngine/Containers/IDProvider.cs:11-24 | k allocations from a new provider, with no frees, return 0, 1, ..., k-1 and leave a valid provider with `Capacity == Count == k` in which an id is allocated exactly when it lies in 0..k-1 |
| `Lists.List.constructor` | GameEngine/Containers/IDProvider.cs:119-150 | a new list is empty |
| `Lists.List.Add` | GameEngine/Containers/IDProvider.cs:129-132 | `Add` appends at the end |
| `Lists.List.Clear` | GameEngine/Physics/ColliderAsset.cs:107 | `Clear` empties the list |
| `Lists.List.Set` | GameEngine/Containers/IDProvider.cs:134-137 | the indexer's setter replaces exactly one slot |
| `Sequences.RemoveFirst` | GameEngine/Physics/PhysicsScene.cs:23-26 | `List.Remove` leaves a list without the element unchanged, and otherwise drops one element and adds none |
| `Sequences.FirstIndex` | GameEngine/Physics/PhysicsScene.cs:23-26 | the removed position holds the element, and no earlier position does |
| `Sequences.RemoveFirstCutsFirst` | GameEngine/Physics/PhysicsScene.cs:23-26 | removal cuts out exactly the first occurrence, and the other elements keep their order |
| `Sequences.RemoveFirstMultiset` | GameEngine/Physics/PhysicsScene.cs:23-26 | removal takes one copy of the element out of the multiset, which for an absent element is no change |
| `Sequences.Filter` | GameEngine/ECS/Component.cs:262-275 | the filtering loops keep at most as many elements as the list has |
| `Sequences.Rejected` | GameEngine/ECS/Component.cs:247-256 | the counting loops count at most as many elements as the list has |
| `Sequences.FilterLength` | GameEngine/ECS/Component.cs:240-276 | the filtering loops' result has the list's length minus the number of rejected elements |
| `Sequences.FilterNoneRejected` | GameEngine/ECS/Component.cs:240-276 | with nothing rejected the filter is the list itself |
| `Sequences.FilterMembers` | GameEngine/ECS/Component.cs:240-276 | an element is in the filter exactly when it is in the list and satisfies the predicate |
| `Sequences.FilterAppend` | GameEngine/ECS/Component.cs:240-276 | the filter works element by element in order: filtering a concatenation concatenates the filtered parts |
| `Sequences.DropDepartedCounts` | GameEngine/ECS/Component.cs:187-195 | the queued-removal loop takes one copy of each queued element that left out of the list, and adds nothing |
| `Sequences.AppendArrivalsShape` | GameEngine/ECS/Component.cs:197-205 | the queued-add loop keeps the list as a prefix; it adds every queued element that stayed, only those, and none that is already listed or added twice |
| `Sequences.DropDepartedKeepsStaying` | GameEngine/ECS/Component.cs:187-195 | an element that stays keeps every occurrence through the removals |
| `Sequences.DropDepartedRemovesDeparted` | GameEngine/ECS/Component.cs:187-195 | a queued element that left, and was listed at most once, is gone after the removals |
| `Resolver.ResolveCircleToMesh` | GameEngine/Physics/PhysicsResolver.cs:66-69 | the unimplemented circle/mesh resolver never interacts |
| `Resolver.ResolveMeshToMesh` | GameEngine/Physics/PhysicsResolver.cs:71-74 | the unimplemented mesh/mesh resolver never interacts |
| `Resolver.ResolveCircleToCircle` | GameEngine/Physics/PhysicsResolver.cs:45-64 | `NoInteraction` exactly when the squared centre distance exceeds the squared radius sum; otherwise `Resolution`, except for no value when the root of the distance is 0 (the division by zero); the translation's direction and amount are stated by `TranslationPointsAway` and `DepthLength` |
| `Resolver.Resolve` | GameEngine/Physics/PhysicsResolver.cs:25-43 | dispatches mesh/mesh and circle/circle to their resolvers, circle-then-mesh to `ResolveCircleToMesh(c1, c2)`, and mesh-then-circle to `ResolveCircleToMesh(c2, c1)` with the translation negated |
| `Resolver.TouchingResolves` | GameEngine/Physics/PhysicsResolver.cs:47-63 | touching circles at distinct centres resolve, since the test is strict |
| `Resolver.TranslationPointsAway` | GameEngine/Physics/PhysicsResolver.cs:52-60 | the translation is `k * (c1 - c2)` with `k >= 0` and `k * distance == max(0, r1 + r2 - distance)`, so it pushes collider 1 away from collider 2 by the overlap depth along the unit offset |
| `Resolver.DepthLength` | GameEngine/Physics/PhysicsResolver.cs:52-60 | a translation `k * offset` with `k` times the offset's length equal to `depth` has squared length `depth * depth`; with `TranslationPointsAway`, the circle/circle translation is exactly as long as the overlap depth |
| `Resolver.CircleResolutionAntisymmetric` | GameEngine/Physics/PhysicsResolver.cs:45-64 | swapping the circles keeps the kind of outcome and negates the translation |
| `Resolver.MeshPairsNeverInteract` | GameEngine/Physics/PhysicsResolver.cs:25-43 | every pair involving a mesh, in either order, gives `NoInteraction` |
| `ColliderDatas.Remainder` | GameEngine/Physics/ColliderData.cs:103 | C#'s `%` truncates: the remainder has the dividend's sign and is smaller than the divisor |
| `ColliderDatas.Placed` | GameEngine/Physics/ColliderData.cs:22-33 | the stored list has the input's length; it is the input itself without a matrix, and the transformed input entry by entry with one |
| `ColliderDatas.LastIndexOfY` | GameEngine/Physics/ColliderData.cs:43-57 | -1, or the last index whose vertex has the given Y |
| `ColliderDatas.ColliderData.constructor` | GameEngine/Physics/ColliderData.cs:7-14 | a new value has no vertices or normals, no extremal vertex, and the default volumes |
| `ColliderDatas.ColliderData.FromVertices` | GameEngine/Physics/ColliderData.cs:15-18 | the vertex constructor leaves the value `SetVertices` produces: the placed vertices, both volumes from the caller's list, the extremal indices and one edge normal per vertex |
| `ColliderDatas.ColliderData.SetVertices` | GameEngine/Physics/ColliderData.cs:20-60 | stores the placed list; computes the box and then the circle from the caller's list, not the placed one; the extremal vertices are the last indices on the box's bottom and top; there is one normal per vertex |
| `ColliderDatas.PlaceVertices` | GameEngine/Physics/ColliderData.cs:22-33 | the copy-and-transform loop produces the placed list |
| `ColliderDatas.ExtremalVertices` | GameEngine/Physics/ColliderData.cs:43-57 | the scan finds the last index at the bottom and the last at the top of the box |
| `ColliderDatas.ExtremalVerticesExist` | GameEngine/Physics/ColliderData.cs:43-57 | with a non-empty list and no matrix, both extremal vertices are valid indices |
| `ColliderDatas.StoredVerticesBounded` | GameEngine/Physics/ColliderData.cs:35-36 | with no matrix, every stored vertex lies in the bounding box and, with a lawful square root, in the bounding circle |
| `ColliderDatas.ColliderData.IsClockwise` | GameEngine/Physics/ColliderData.cs:62-72 | fewer than three vertices count as clockwise |
| `ColliderDatas.ColliderData.FlipDirection` | GameEngine/Physics/ColliderData.cs:74-84 | swapping i with n-i for every i in 1..n-1 swaps each pair twice, so the list and everything else come back unchanged |
| `ColliderDatas.ColliderData.ComputeNormals` | GameEngine/Physics/ColliderData.cs:86-94 | replaces the normals by one edge normal per vertex, in order, and changes nothing else |
| `ColliderDatas.ColliderData.Wrap` | GameEngine/Physics/ColliderData.cs:96-111 | -1 for an empty mesh; otherwise the index reduced into [0, n), congruent to it modulo n, negative indices included |
| `ColliderDatas.WrapIsModulo` | GameEngine/Physics/ColliderData.cs:103-108 | adding n to a negative truncating remainder gives the mathematical remainder |
| `ColliderDatas.ColliderData.VertexAt` | GameEngine/Physics/ColliderData.cs:113-121 | throws `ArgumentException` on an empty mesh, else the vertex at the wrapped index |
| `ColliderDatas.ColliderData.NormalAt` | GameEngine/Physics/ColliderData.cs:123-131 | throws on an empty normal list, throws from the list indexer when there are normals but no vertices, else the normal at the index wrapped by the vertex count |
| `ColliderAssets.ColliderAsset.constructor` | GameEngine/Physics/ColliderAsset.cs:8-13 | a new asset has two fresh, distinct, empty lists, no extremal vertex, and the default volumes |
| `ColliderAssets.ColliderAsset.SetVertices` | GameEngine/Physics/ColliderAsset.cs:16-30 | adopts the caller's list itself (aliasing it) and a fresh normal list; the box and circle come from the list's old contents; the final `ComputeNormals` empties the adopted list, so the caller's list comes back empty |
| `ColliderAssets.ColliderAsset.Adopt` | GameEngine/Physics/ColliderAsset.cs:16-20 | the first half of `SetVertices`: the caller's list becomes `Vertices` itself, `Normals` is a fresh empty list, and the box and then the circle about the new box's centre are those of the adopted list |
| `ColliderAssets.ColliderAsset.ComputeAabb` | GameEngine/Physics/ColliderAsset.cs:32-53 | the default box for no vertices, else the min/max fold; nothing else changes |
| `ColliderAssets.ColliderAsset.ComputeBoundingCircle` | GameEngine/Physics/ColliderAsset.cs:55-79 | the circle about the box centre through the farthest vertex, with no epsilon; nothing else changes |
| `ColliderAssets.TightCircleHoldsAll` | GameEngine/Physics/ColliderAsset.cs:55-79 | with a lawful square root the circle is centred as given, has a non-negative radius, and holds every vertex |
| `ColliderAssets.VolumesFromCallerList` | GameEngine/Physics/ColliderAsset.cs:21-22 | the circle is centred on the box centre, which lies in the box, and the box holds every vertex |
| `ColliderAssets.ColliderAsset.IsClockwise` | GameEngine/Physics/ColliderAsset.cs:81-91 | true for fewer than three vertices, else the sign test `(v1 - v0) . (v0 - center) > 0` |
| `ColliderAssets.ColliderAsset.FlipDirection` | GameEngine/Physics/ColliderAsset.cs:93-103 | the double swap on the adopted list leaves it exactly as it was |
| `ColliderAssets.ColliderAsset.ComputeNormals` | GameEngine/Physics/ColliderAsset.cs:105-113 | clears the vertex list, and the loop bounded by the now-zero count never runs |
| `Worlds.World.constructor` | GameEngine/ECS/Component.cs:22-23 | a new scene has no live component or entity and fresh allocators, and satisfies the invariant |
| `Worlds.World.NewComponent` | GameEngine/ECS/Component.cs:26-29 | the `Component` constructor registers a fresh record under a handle not in use, leaving the rest of the graph as it was and the allocators consistent |
| `Worlds.World.NewEntity` | GameEngine/ECS/Entity.cs:74-94 | the first part of the `Entity` constructors registers a fresh entity record under a handle not in use |
| `Worlds.World.SetComponent` | GameEngine/ECS/Component.cs:16-18 | a field write of a live component replaces that one record, and a dead handle is not written |
| `Worlds.World.SetEntity` | GameEngine/ECS/Entity.cs:74-94 | a field write of a live entity replaces that one record |
| `EcsLinks.Tally` | GameEngine/ECS/Transform.cs:71-79 | `AddMovementController` and `RemoveMovementController` change only the counter of the transform they run on, keeping every link and owner |
| `EcsLinks.ParentObjectChanged` | GameEngine/ECS/MovementController.cs:11-15 | the hook changes only movement-controller counts, and no link or owner |
| `EcsLinks.Owned` | GameEngine/ECS/Component.cs:295-302 | the first step of `AttachToInternal` sets the owner of that one component, and otherwise only counters change |
| `EcsLinks.Attach` | GameEngine/ECS/Component.cs:293-308 | `AttachToInternal` changes only owners and counters |
| `EcsLinks.AttachOwners` | GameEngine/ECS/Component.cs:293-308 | after `AttachToInternal(e)` every component of the subtree is owned by e, and no other component's owner changes |
| `EcsLinks.AttachAll` | GameEngine/ECS/Component.cs:304-307 | the loop over the children changes no link |
| `EcsLinks.AttachAllOwners` | GameEngine/ECS/Component.cs:304-307 | the loop over the children gives the owner to exactly the union of their subtrees |
| `EcsLinks.AttachAllStep` | GameEngine/ECS/Component.cs:304-307 | one more turn of the loop attaches the next child's subtree to the result so far |
| `EcsLinks.Detach` | GameEngine/ECS/Component.cs:311-321 | `DetatchInternal(p)` does nothing at a node whose owner is not p, and otherwise clears its owner; no node with a different owner changes; owners are only kept or cleared; no link, kind or counter changes |
| `EcsLinks.DetachAll` | GameEngine/ECS/Component.cs:317-320 | the loop over the children keeps the same frame as `Detach` |
| `EcsLinks.DetachAllStep` | GameEngine/ECS/Component.cs:317-320 | one more turn of the loop detaches the next child's subtree |
| `EcsLinks.OnParentChainIsMembership` | GameEngine/ECS/Component.cs:136-149 | the loop up the `Parent` chain answers true exactly when the target is one of the ancestors |
| `EcsLinks.ClearChildren` | GameEngine/ECS/Component.cs:101-129 | while traversing: `Deferred`, with nothing changed but this node's flags. Otherwise: `Succeeded`, the child list is empty, and every former child has no parent and no owner. Either way links are only cleared, and any ranking is kept |
| `EcsLinks.ClearEach` | GameEngine/ECS/Component.cs:111-124 | the loop leaves each visited child without parent and owner, and only clears links |
| `EcsLinks.ClearEachStep` | GameEngine/ECS/Component.cs:111-124 | one more turn of the loop clears the next child |
| `EcsLinks.ClearOne` | GameEngine/ECS/Component.cs:113-123 | one turn leaves the child without parent and owner, and only clears links |
| `EcsLinks.OnlyClearsRanked` | GameEngine/ECS/Component.cs:101-129 | a step that only clears links keeps every ranking, so the clearing recursion is well founded |
| `ComponentOps.RemoveChild` | GameEngine/ECS/Component.cs:81-99 | `Failed` with nothing changed unless the component's parent is this node. Otherwise it nulls the component's parent and owner. Then either it removes the first occurrence from `Children` (`Succeeded`), or, while traversing, it leaves `Children` alone, queues the component and returns `Deferred`. No other record changes |
| `ComponentOps.RemoveChildShrinks` | GameEngine/ECS/Component.cs:81-99 | a removal never adds a child anywhere, never changes a traversing node's child list, and keeps every traversal flag and kind |
| `ComponentOps.Unparented` | GameEngine/ECS/Component.cs:44-47 | taking the component out of its old parent leaves it with no parent, and changes no other parent or owner and no traversing child list |
| `ComponentOps.AddChild` | GameEngine/ECS/Component.cs:31-62 | `Failed`, with nothing changed, exactly for a `ShouldBeReplicated` component or one on this node's parent chain. Otherwise: `Deferred` when traversing, with the component queued and left without a parent; else `Succeeded`, with the component's parent this node, appended to `Children`, and its whole subtree owned by this node's owner |
| `ComponentOps.Reparented` | GameEngine/ECS/Component.cs:56 | `component.Parent = this` writes only that field |
| `ComponentOps.AdoptLinks` | GameEngine/ECS/Component.cs:56-61 | an immediate add makes this node the parent, appends the component as the last child, and changes no other child list |
| `ComponentOps.AdoptOwners` | GameEngine/ECS/Component.cs:56-61 | an immediate add gives this node's owner to the component's whole subtree, and changes no other owner |
| `ComponentOps.AddSelfBreaksEveryRanking` | GameEngine/ECS/Component.cs:41-61 | the cycle guard looks only at proper ancestors, so adding a root component to itself succeeds and leaves a child list that loops, which no ranking orders |
| `ComponentOps.UpdateBegin` | GameEngine/ECS/Component.cs:164 | `Update` first sets `QueueRemovals` and changes nothing else |
| `ComponentOps.ReconciledSameParents` | GameEngine/ECS/Component.cs:185-205 | the reconciliation depends only on this node's record and on every component's parent |
| `ComponentOps.UpdateEnd` | GameEngine/ECS/Component.cs:171-205 | after the child loop, `QueueRemovals` and both clear flags are off and both queues empty. A pending clear empties `Children` and unlinks the former children. Otherwise only this node changes, and its children are the result of the queued removals followed by the queued adds |
| `ComponentOps.DeferredAddIsLost` | GameEngine/ECS/Component.cs:49-54 | a deferred add never sets the parent, so the next reconciliation discards it and the component ends up in no child list of the node |
| `ComponentOps.ChildrenView` | GameEngine/ECS/Component.cs:240-276 | outside traversal a copy of `Children`; while traversing, exactly the children whose parent is still this node, in order |
| `ComponentOps.ContainsIsReach` | GameEngine/ECS/Component.cs:279-290 | outside any traversal, `Contains` holds exactly for the components of the proper subtree |
| `ComponentOps.ContainsAnyIsReach` | GameEngine/ECS/Component.cs:281-287 | the loop over a list of children finds the target exactly when it lies in one of their subtrees |
| `ComponentOps.Visit` | GameEngine/ECS/Component.cs:212-227 | the loop over the children returns `Stop` or `Continue`, never `Skip` |
| `ComponentOps.Walk` | GameEngine/ECS/Component.cs:210-228 | `ForEachChild` returns `Stop` or `Continue`, never `Skip` |
| `ComponentOps.VisitStopsOnStop` | GameEngine/ECS/Component.cs:214-216 | a `Stop` from the callback on any listed child aborts the whole walk |
| `ComponentOps.RecursiveVisitStops` | GameEngine/ECS/Component.cs:212-227 | a recursive walk returns `Stop` exactly when, for some child, the callback says `Stop` there or says `Continue` and the walk of that child's children stops; a `Skip` hides only that child's subtree |
| `ComponentOps.RecursiveWalkStops` | GameEngine/ECS/Component.cs:210-228 | `ForEachChild(true, callback)` stops exactly when one of the children stops it, directly or through its own walk |
| `ComponentOps.SkippedVisitContinues` | GameEngine/ECS/Component.cs:212-227 | when the callback answers `Skip` on every child, the walk returns `Continue`, whatever the callback answers below them |
| `ComponentOps.FlatVisitStops` | GameEngine/ECS/Component.cs:212-227 | a non-recursive walk returns `Stop` exactly when the callback says `Stop` on some child |
| `ComponentOps.WalkStopIsWitnessed` | GameEngine/ECS/Component.cs:210-228 | a walk that stops was stopped by the callback on some component of the walked subtrees |
| `ComponentOps.VisitStopWitness` | GameEngine/ECS/Component.cs:212-225 | the component whose callback stopped the loop lies in the subtree of one listed child |
| `ComponentOps.OwnedBy` | GameEngine/ECS/Component.cs:151-154 | `IsDescendantOf(entity)` holds exactly when the component's owner is that entity |
| `ComponentOps.AttachMakesDescendants` | GameEngine/ECS/Component.cs:151-154 | after `AttachToInternal(entity)`, `IsDescendantOf(entity)` holds for every live component of the subtree, and its answer is unchanged for every other component |
| `ComponentOps.TryGetComponent` | GameEngine/ECS/Component.cs:69-79 | the lookup finds a record exactly for a live handle, and returns that record |
| `EntityComponents.RemoveComponent` | GameEngine/ECS/Entity.cs:137-164 | `Failed`, with nothing changed, for a component the entity does not own. A nested component's request goes to its parent's `RemoveComponent`. Every ranking is kept, and no other entity changes |
| `EntityComponents.RemoveOwnedComponent` | GameEngine/ECS/Entity.cs:147-163 | for a directly owned component: the owner is cleared; the `Transform` reference is dropped when it was this component; the component is either removed from the list (`Succeeded`) or queued for removal while traversing (`Deferred`); no kind changes |
| `EntityComponents.NestedRemovalFails` | GameEngine/ECS/Entity.cs:142-145 | the forwarded call passes the parent as its own child, so it fails and changes nothing (unless the parent is its own parent) |
| `EntityComponents.Released` | GameEngine/ECS/Entity.cs:118-121 | the release step changes no entity except the previous owner, and none at all for a nested component |
| `EntityComponents.AddComponent` | GameEngine/ECS/Entity.cs:113-135 | re-adding a directly owned component is a `Succeeded` that changes nothing; every ranking is kept |
| `EntityComponents.AddForeignComponent` | GameEngine/ECS/Entity.cs:118-134 | otherwise, after the release step, the component's subtree is owned by the entity. The component is appended to the list (`Succeeded`), or queued while traversing (`Deferred`), and the `Transform` reference is unchanged |
| `EntityComponents.AddTransform` | GameEngine/ECS/Entity.cs:166-171 | recording the transform and then adding it keeps every ranking |
| `EntityComponents.AddTransformSetsTransform` | GameEngine/ECS/Entity.cs:166-171 | afterwards the entity's transform is the given component, whatever the add returned |
| `EntityComponents.Spawned` | GameEngine/ECS/Entity.cs:74-94 | registering the entity and its new childless transform and then adding the transform keeps every ranking |
| `EntityComponents.SpawnedShape` | GameEngine/ECS/Entity.cs:74-84 | a new entity owns exactly its transform and lists it as its only component; it has no parent and no children; no other entity changes |
| `EntityComponents.SpawnedAttach` | GameEngine/ECS/Entity.cs:80-83 | inside the constructor the add has no release step: it attaches the transform and lists it |
| `EntityComponents.RemoveDetached` | GameEngine/ECS/Entity.cs:173-213 | `RemoveComponentShallow` and `RemoveComponentDeep` fail, with nothing changed, for a component the entity does not own; every ranking is kept; no other entity changes |
| `EntityComponents.RemoveDetachedEffects` | GameEngine/ECS/Entity.cs:173-213 | for an owned component, nested or not: the owner is cleared and the `Transform` reference kept; the component is removed from the list (`Succeeded`) or queued (`Deferred`); on the immediate path, with the component not traversing, its child list empties and its children lose parent and owner |
| `EntityComponents.DetachEach` | GameEngine/ECS/Entity.cs:440-443 | the first loop of `ClearComponents` changes only owners, and only by clearing them; each listed component the entity owned loses its owner |
| `EntityComponents.DetachEachStep` | GameEngine/ECS/Entity.cs:440-443 | one more turn of that loop detaches the next component |
| `EntityComponents.ClearEachDeep` | GameEngine/ECS/Entity.cs:453-459 | the deep-clear loop only clears links and keeps every ranking |
| `EntityComponents.ClearEachDeepStep` | GameEngine/ECS/Entity.cs:453-459 | one more turn of that loop deep-clears the next component |
| `EntityComponents.ClearComponents` | GameEngine/ECS/Entity.cs:438-464 | every listed component the entity owned loses its owner. While traversing: `Deferred`, with only the clear flags set (the deep flag only ever turns on). Otherwise: `Succeeded`, with an empty list. No other entity changes, no kind changes, and every ranking is kept |
| `EntityComponents.UpdateComponents` | GameEngine/ECS/Entity.cs:502-537 | the flags and both component queues reset and the entity's tree side is untouched. Without a recorded clear the components are unchanged and the list is the reconciliation of the queues; with one (and not traversing) the list is empty |
| `EntityComponents.ComponentsView` | GameEngine/ECS/Entity.cs:314-350 | `GetComponents` copies the list outside traversal; while traversing it keeps exactly the components still owned directly, in order |
| `EntityComponents.ForEachComponent` | GameEngine/ECS/Entity.cs:390-408 | the walk returns `Stop` or `Continue`, never `Skip` |
| `EntityComponents.RecursiveForEachComponent` | GameEngine/ECS/Entity.cs:392-407 | a recursive walk stops exactly when some listed component stops it, directly or through the walk of its children; a `Skip` hides only that component's subtree |
| `EntityComponents.SkippedForEachComponent` | GameEngine/ECS/Entity.cs:392-407 | a callback that answers `Skip` on every listed component makes the walk return `Continue`, whatever it answers below them |
| `EntityComponents.FlatForEachComponent` | GameEngine/ECS/Entity.cs:392-407 | a non-recursive walk stops exactly when the callback stops on some listed component |
| `EntityComponents.ContainsComponentIsReach` | GameEngine/ECS/Entity.cs:411-421 | outside any traversal, `Contains(component)` holds exactly for the components in the subtree of a listed component |
| `EntityTree.OnEntityChainIsMembership` | GameEngine/ECS/Entity.cs:225-238 | `IsDescendantOf` answers whether the target is on the entity's ancestor chain |
| `EntityTree.Unparent` | GameEngine/ECS/Entity.cs:304 | dropping the parent changes that one field of that one entity |
| `EntityTree.DeepRemove` | GameEngine/ECS/Entity.cs:302-312 | `DeepRemove` only wipes entities (parent and child list dropped), leaves components alone, and keeps every ranking |
| `EntityTree.DeepRemoveAll` | GameEngine/ECS/Entity.cs:306-309 | its loop over the children only wipes entities |
| `EntityTree.DeepRemoveAllStep` | GameEngine/ECS/Entity.cs:306-309 | one more turn of the loop deep-removes the next child |
| `EntityTree.DeepRemoveWipesSubtree` | GameEngine/ECS/Entity.cs:302-312 | `DeepRemove` wipes exactly the subtree of the entity, itself included, and changes nothing else |
| `EntityTree.Remove` | GameEngine/ECS/Entity.cs:272-300 | `Failed` with nothing changed for an entity without a parent; otherwise it is `Deferred` exactly when the parent traverses, and it leaves the entity without a parent. No traversal mark changes, no component changes, and every ranking is kept |
| `EntityTree.Queued` | GameEngine/ECS/Entity.cs:277-288 | the deferred path changes no child list and leaves the entity without a parent |
| `EntityTree.Unlisted` | GameEngine/ECS/Entity.cs:291-292 | the immediate path only removes entries from child lists and leaves the entity without a parent |
| `EntityTree.RemoveImmediate` | GameEngine/ECS/Entity.cs:291-299 | with an idle parent, the first occurrence of the entity leaves the parent's list and nothing else changes; a deep removal then wipes exactly the entity's subtree |
| `EntityTree.RemoveDeferred` | GameEngine/ECS/Entity.cs:277-288 | with a traversing parent, the entity is queued in the parent's removals and loses its parent. The entity's clear flags are set exactly when it is itself traversing and the removal is deep. No other entity changes |
| `EntityTree.SetParent` | GameEngine/ECS/Entity.cs:241-270 | a null parent is a removal. A new parent already below the entity is refused (`Failed`, `Failed`, nothing changed). Otherwise the entity leaves its old parent (if any); the new parent's answer is `Deferred` exactly when it traverses; and the entity's parent becomes the new one |
| `EntityTree.Joined` | GameEngine/ECS/Entity.cs:258-269 | the entity takes the new parent and goes at the end of its child list, or of its queued adds while it traverses; no other entity changes |
| `EntityTree.SetParentAppends` | GameEngine/ECS/Entity.cs:251-269 | an orphan moved under an idle parent is listed last there, and nothing else changes |
| `EntityTree.SelfParentBreaksEveryRanking` | GameEngine/ECS/Entity.cs:248-269 | the descendant check looks at proper ancestors only, so `SetParent(this)` succeeds. The entity then lists itself as a child, and no ranking orders the tree |
| `EntityTree.ClearChildren` | GameEngine/ECS/Entity.cs:466-489 | while traversing, `Deferred` with only the clear flags set. Otherwise `Succeeded`: an empty list, and every former child without a parent. Links are only cleared, and every ranking is kept |
| `EntityTree.ClearEach` | GameEngine/ECS/Entity.cs:476-484 | the loop leaves every visited child without a parent, and only clears links |
| `EntityTree.ClearEachStep` | GameEngine/ECS/Entity.cs:476-484 | one more turn of the loop clears the next child |
| `EntityTree.ClearOne` | GameEngine/ECS/Entity.cs:478-483 | one turn leaves the child without a parent and sets no parent anywhere |
| `EntityTree.ChildrenView` | GameEngine/ECS/Entity.cs:352-388 | `GetChildren` copies the list outside traversal; while traversing it keeps exactly the children whose parent is still this entity, in order |
| `EntityTree.DeepRemoveAllWipes` | GameEngine/ECS/Entity.cs:306-309 | the loop wipes exactly the union of the subtrees of the visited children |
| `EntityTree.ContainsAnyEntityIsReach` | GameEngine/ECS/Entity.cs:427-433 | the loop over a list of children finds the target exactly when it lies in one of their subtrees |
| `EntityTree.ContainsEntityIsReach` | GameEngine/ECS/Entity.cs:425-436 | outside any traversal, `Contains(entity)` holds exactly for the entities strictly below |
| `EntityTree.RemovalsAsWritten` | GameEngine/ECS/Entity.cs:555-563 | the removal loop as written removes only entries of the list, and none at all when the entity does not list itself, since it removes `this` rather than the child |
| `EntityTree.AddsAsWritten` | GameEngine/ECS/Entity.cs:565-573 | the add loop as written keeps the list as a prefix and appends only the entity itself, never a queued child |
| `EntityTree.DeferredChildIsLost` | GameEngine/ECS/Entity.cs:565-573 | a child queued during traversal and still parented by the entity is not listed by the reconciliation, and the entity lists itself instead |
| `EntityTree.UpdateChildren` | GameEngine/ECS/Entity.cs:539-574 | the flags and both queues reset. Without a recorded clear, only this entity changes, and its list is both loops as written |
| `EntityTree.UpdateChildrenKeepsComponents` | GameEngine/ECS/Entity.cs:539-574 | reconciling children keeps an idle entity idle and keeps every component ranking |
| `EntityTree.UpdateBegin` | GameEngine/ECS/Entity.cs:578 | `Update` first marks the entity as traversing and changes nothing else |
| `EntityTree.Idle` | GameEngine/ECS/Entity.cs:590 | dropping the mark adds no child anywhere |
| `EntityTree.UpdateEnd` | GameEngine/ECS/Entity.cs:590-593 | after the child walks, the mark, all four clear flags and all four queues are reset |
| `EntityTree.TryGetEntity` | GameEngine/ECS/Entity.cs:101-111 | the lookup finds a record exactly for a live handle, and returns that record |
| `ComponentMethods.AttachToInternal` | GameEngine/ECS/Component.cs:293-308 | the method computes `EcsLinks.Attach` |
| `ComponentMethods.SetOwner` | GameEngine/ECS/Component.cs:295-302 | the owner write and its hook compute `EcsLinks.Owned` |
| `ComponentMethods.AttachChildren` | GameEngine/ECS/Component.cs:304-307 | the loop computes `EcsLinks.AttachAll` over the captured child list |
| `ComponentMethods.DetatchInternal` | GameEngine/ECS/Component.cs:311-321 | the method computes `EcsLinks.Detach` |
| `ComponentMethods.DetachChildren` | GameEngine/ECS/Component.cs:317-320 | the loop computes `EcsLinks.DetachAll` over the captured child list |
| `ComponentMethods.IsDescendantOf` | GameEngine/ECS/Component.cs:136-149 | the loop up the parent chain answers whether the target is a proper ancestor |
| `ComponentMethods.TryGetComponent` | GameEngine/ECS/Component.cs:69-79 | the lookup computes `ComponentOps.TryGetComponent`, and a hit is an allocated handle |
| `ComponentMethods.RemoveComponent` | GameEngine/ECS/Component.cs:81-99 | the method's status and new state are `ComponentOps.RemoveChild` |
| `ComponentMethods.AddComponent` | GameEngine/ECS/Component.cs:31-62 | the method's status and new state are `ComponentOps.AddChild` |
| `ComponentMethods.Adopt` | GameEngine/ECS/Component.cs:56-61 | the immediate part computes `ComponentOps.Adopt` |
| `ComponentMethods.ClearChildren` | GameEngine/ECS/Component.cs:101-129 | the method's status and new state are `EcsLinks.ClearChildren` |
| `ComponentMethods.ClearKids` | GameEngine/ECS/Component.cs:111-124 | the loop computes `EcsLinks.ClearEach` over the captured child list |
| `ComponentMethods.ClearOne` | GameEngine/ECS/Component.cs:113-123 | one turn of the loop computes `EcsLinks.ClearOne` |
| `ComponentMethods.UpdateBegin` | GameEngine/ECS/Component.cs:164 | the start of `Update` computes `ComponentOps.UpdateBegin` |
| `ComponentMethods.UpdateEnd` | GameEngine/ECS/Component.cs:171-206 | the end of `Update` computes `ComponentOps.UpdateEnd` |
| `ComponentMethods.Reconcile` | GameEngine/ECS/Component.cs:185-205 | both reconciliation loops replace only this node's child list and empty both queues |
| `ComponentMethods.ApplyRemovals` | GameEngine/ECS/Component.cs:187-195 | the removal loop drops one occurrence of each queued child that has left, and empties the removal queue |
| `ComponentMethods.ApplyAdds` | GameEngine/ECS/Component.cs:197-205 | the add loop appends each queued child parented here and not yet listed, and empties the add queue |
| `ComponentMethods.GetChildren` | GameEngine/ECS/Component.cs:240-276 | the two loops compute `ComponentOps.ChildrenView` |
| `ComponentMethods.CountDeparted` | GameEngine/ECS/Component.cs:247-256 | the counting loop counts the children no longer parented here |
| `ComponentMethods.CopyParented` | GameEngine/ECS/Component.cs:263-275 | the copying loop yields the children still parented here, in order |
| `ComponentMethods.CopyKept` | GameEngine/ECS/Component.cs:263-275 | filling an array of the counted size yields exactly the kept members, in order |
| `ComponentMethods.Contains` | GameEngine/ECS/Component.cs:279-290 | the recursive loop computes `ComponentOps.Contains` |
| `ComponentMethods.ForEachChild` | GameEngine/ECS/Component.cs:210-228 | the loop computes `ComponentOps.Walk` |
| `EntityMethods.RemoveComponent` | GameEngine/ECS/Entity.cs:137-164 | the method's status and new state are `EntityComponents.RemoveComponent` |
| `EntityMethods.AddComponent` | GameEngine/ECS/Entity.cs:113-135 | the method's status and new state are `EntityComponents.AddComponent` |
| `EntityMethods.AddTransform` | GameEngine/ECS/Entity.cs:166-171 | the method's status and new state are `EntityComponents.AddTransform` |
| `EntityMethods.RemoveDetached` | GameEngine/ECS/Entity.cs:173-213 | the shared body computes `EntityComponents.RemoveDetached` |
| `EntityMethods.RemoveComponentShallow` | GameEngine/ECS/Entity.cs:173-192 | the shallow removal computes `EntityComponents.RemoveDetached` with `deep` false |
| `EntityMethods.RemoveComponentDeep` | GameEngine/ECS/Entity.cs:194-213 | the deep removal computes `EntityComponents.RemoveDetached` with `deep` true |
| `EntityMethods.ClearComponents` | GameEngine/ECS/Entity.cs:438-464 | the method's status and new state are `EntityComponents.ClearComponents` |
| `EntityMethods.DetachComponents` | GameEngine/ECS/Entity.cs:440-443 | the detach loop computes `EntityComponents.DetachEach` |
| `EntityMethods.ClearComponentsDeep` | GameEngine/ECS/Entity.cs:453-459 | the deep-clear loop computes `EntityComponents.ClearEachDeep` |
| `EntityMethods.UpdateComponents` | GameEngine/ECS/Entity.cs:502-537 | the method computes `EntityComponents.UpdateComponents` |
| `EntityMethods.DropDisowned` | GameEngine/ECS/Entity.cs:518-526 | the removal loop drops one occurrence of each queued component the entity no longer owns directly |
| `EntityMethods.AppendOwned` | GameEngine/ECS/Entity.cs:528-536 | the add loop appends each queued component owned directly and not yet listed |
| `EntityMethods.GetComponents` | GameEngine/ECS/Entity.cs:314-350 | the two loops compute `EntityComponents.ComponentsView` |
| `EntityMethods.CountDisowned` | GameEngine/ECS/Entity.cs:321-329 | the counting loop counts the listed components no longer owned directly |
| `EntityMethods.CopyOwned` | GameEngine/ECS/Entity.cs:336-349 | the copying loop yields the components still owned directly, in order |
| `EntityMethods.ForEachComponent` | GameEngine/ECS/Entity.cs:390-408 | the loop computes `EntityComponents.ForEachComponent` |
| `EntityMethods.ContainsComponent` | GameEngine/ECS/Entity.cs:411-421 | the loop computes `EntityComponents.ContainsComponent` |
| `EntityMethods.TryGetEntity` | GameEngine/ECS/Entity.cs:101-111 | the lookup computes `EntityTree.TryGetEntity`, and a hit is an allocated handle |
| `EntityMethods.Construct` | GameEngine/ECS/Entity.cs:74-94 | the constructor takes a handle not in use and keeps the world valid. Without a transform it registers a fresh entity record and nothing else. With one, it adds a fresh transform, as `EntityComponents.Spawned` describes |
| `EntityMethods.IsDescendantOf` | GameEngine/ECS/Entity.cs:225-238 | the loop answers whether the target is on the ancestor chain |
| `EntityMethods.Remove` | GameEngine/ECS/Entity.cs:272-300 | the method's status and new state are `EntityTree.Remove` |
| `EntityMethods.DeepRemove` | GameEngine/ECS/Entity.cs:302-312 | the method computes `EntityTree.DeepRemove` |
| `EntityMethods.DeepRemoveChildren` | GameEngine/ECS/Entity.cs:306-309 | the loop computes `EntityTree.DeepRemoveAll` |
| `EntityMethods.SetParent` | GameEngine/ECS/Entity.cs:241-270 | the two statuses and the new state are `EntityTree.SetParent` |
| `EntityMethods.Join` | GameEngine/ECS/Entity.cs:258-269 | the second half computes `EntityTree.Joined` and answers `Deferred` exactly when the new parent traverses |
| `EntityMethods.ClearChildren` | GameEngine/ECS/Entity.cs:466-489 | the method's status and new state are `EntityTree.ClearChildren` |
| `EntityMethods.ClearOne` | GameEngine/ECS/Entity.cs:478-483 | one turn of the loop computes `EntityTree.ClearOne` |
| `EntityMethods.GetChildren` | GameEngine/ECS/Entity.cs:352-388 | the two loops compute `EntityTree.ChildrenView` |
| `EntityMethods.CountStrays` | GameEngine/ECS/Entity.cs:359-367 | the counting loop counts the listed children whose parent is no longer this entity |
| `EntityMethods.ContainsEntity` | GameEngine/ECS/Entity.cs:425-436 | the loop computes `EntityTree.ContainsEntity` |
| `EntityMethods.UpdateChildren` | GameEngine/ECS/Entity.cs:539-574 | the method computes `EntityTree.UpdateChildren` |
| `EntityMethods.RemoveSelfForStrays` | GameEngine/ECS/Entity.cs:555-563 | the removal loop as written computes `EntityTree.RemovalsAsWritten` |
| `EntityMethods.AppendSelfForArrivals` | GameEngine/ECS/Entity.cs:565-573 | the add loop as written computes `EntityTree.AddsAsWritten` |
| `EntityMethods.UpdateBegin` | GameEngine/ECS/Entity.cs:578 | the start of `Update` computes `EntityTree.UpdateBegin` |
| `EntityMethods.UpdateEnd` | GameEngine/ECS/Entity.cs:590-593 | the end of `Update` computes `EntityTree.UpdateEnd` |
| `Kinds.NewTransform` | GameEngine/ECS/Transform.cs:62-69 | a new transform is named "Transform", holds the default matrix, has no controllers, is not stale, and has no links |
| `Kinds.WithMatrix` | GameEngine/ECS/Transform.cs:38-46 | the `Matrix` setter stores the matrix and marks the transform stale, keeping the controller count |
| `Kinds.Position` | GameEngine/ECS/Transform.cs:52-54 | the `Position` getter is the translation, a point whose z is 1 |
| `Kinds.WithPositionMoves` | GameEngine/ECS/Transform.cs:52-56 | the `Position` setter moves the translation to the given x and y, keeps `Right`, `Up` and the controller count, and marks the transform stale |
| `Kinds.ShiftIsTranslate` | GameEngine/ECS/Transform.cs:52-56 | `Position += offset` is `Matrix2.Translate` by the offset |
| `Kinds.MarkStale` | GameEngine/ECS/Transform.cs:81-84 | `MarkStale` sets the stale flag and changes nothing else |
| `Kinds.Updated` | GameEngine/ECS/Transform.cs:86-94 | `Updated`, and so `Transform.Update`, drops the stale flag and keeps the matrix and the controller count |
| `Kinds.CountControllers` | GameEngine/ECS/Transform.cs:71-79 | adding or removing a movement controller changes the count by one, and nothing else |
| `Kinds.ControllerCounting` | GameEngine/ECS/Transform.cs:62-79 | add then remove restores the transform; one added controller makes a static transform dynamic; with no lower bound, removing from a static transform leaves the count at -1, and the transform no longer static |
| `Kinds.OwnerTransformOf` | GameEngine/Physics/Collider.cs:17 | `ParentObject?.Transform` exists exactly when the owner has a transform that is a live `Transform`, and then it is that transform |
| `Kinds.Shifted` | GameEngine/Physics/Collider.cs:17-19 | moving the owner's transform by an offset changes only that transform, through the `Position` setter, and nothing when there is no owner transform |
| `Kinds.ShiftedMoves` | GameEngine/Physics/Collider.cs:19 | the position moves by exactly the offset, the basis and the controller count are kept, and the transform is stale |
| `Kinds.UpdatePhysics` | GameEngine/Physics/PhysicsController.cs:15-20 | `UpdatePhysics` changes no entity and registers or removes no component |
| `Kinds.UpdatePhysicsMoves` | GameEngine/Physics/PhysicsController.cs:15-20 | a `PhysicsController` whose owner has a transform moves it by exactly `delta * Velocity` and leaves it stale, keeping its basis; every other case is a no-op, which is the default of GameEngine/ECS/MovementController.cs:17 |
| `Kinds.CollidedWith` | GameEngine/Physics/Collider.cs:15-20 | `CollidedWith` changes no entity and registers or removes no component |
| `Kinds.ColliderUpdate` | GameEngine/Physics/Collider.cs:22-29 | `Collider.Update` changes only this collider. It changes nothing without an owner transform, with a transform that is not stale, or without an asset; otherwise it rebuilds the collider data from the asset and the transform's matrix |
| `Kinds.TransformUpdate` | GameEngine/ECS/Transform.cs:91-94 | `Transform.Update` changes only this transform's stale flag |
| `Kinds.OnlyTransformsReplicate` | GameEngine/ECS/Transform.cs:35 | `ShouldBeReplicated` holds exactly for transforms; GameEngine/Physics/Collider.cs:13 makes colliders false |
| `KindMethods.SetMatrix` | GameEngine/ECS/Transform.cs:38-46 | the setter writes only this transform: its matrix is the given one and it is stale |
| `KindMethods.SetPosition` | GameEngine/ECS/Transform.cs:52-56 | the setter writes only this transform: the new translation, the old basis, stale |
| `KindMethods.MarkStale` | GameEngine/ECS/Transform.cs:81-84 | only the stale flag of this transform is set |
| `KindMethods.Updated` | GameEngine/ECS/Transform.cs:86-94 | the method computes `Kinds.TransformUpdate` |
| `KindMethods.AddMovementController` | GameEngine/ECS/Transform.cs:71-74 | one more controller on this transform only; a static transform becomes dynamic |
| `KindMethods.RemoveMovementController` | GameEngine/ECS/Transform.cs:76-79 | one controller fewer on this transform only |
| `KindMethods.Tally` | GameEngine/ECS/MovementController.cs:13-14 | the null-conditional call computes `EcsLinks.Tally` |
| `KindMethods.ParentObjectChanged` | GameEngine/ECS/MovementController.cs:11-15 | the hook computes `EcsLinks.ParentObjectChanged` |
| `KindMethods.UpdatePhysics` | GameEngine/Physics/PhysicsController.cs:15-20 | the method computes `Kinds.UpdatePhysics` |
| `KindMethods.CollidedWith` | GameEngine/Physics/Collider.cs:15-20 | the method computes `Kinds.CollidedWith` |
| `KindMethods.ColliderUpdate` | GameEngine/Physics/Collider.cs:22-29 | the method computes `Kinds.ColliderUpdate` |
| `PhysicsStep.ClampDelta` | GameEngine/Physics/PhysicsScene.cs:42 | the step is the smaller of `delta` and 1/30: no more than either, and equal to whichever is smaller |
| `PhysicsStep.OnlyMovesKeeps` | GameEngine/Physics/PhysicsScene.cs:49-60 | a step that only moves transforms keeps everything the pair filter reads: owners, transforms, collider data and the static flags |
| `PhysicsStep.ShiftedOnlyMoves` | GameEngine/Physics/Collider.cs:19 | moving an owner transform only moves |
| `PhysicsStep.IntegrateStep` | GameEngine/Physics/PhysicsScene.cs:44-47 | one more turn of the controller loop runs `UpdatePhysics` on the next controller |
| `PhysicsStep.IntegrateOnlyMoves` | GameEngine/Physics/PhysicsScene.cs:44-47 | the controller pass only moves transforms |
| `PhysicsStep.IntegrateWithoutPhysics` | GameEngine/Physics/PhysicsScene.cs:44-47 | a pass over controllers none of which is a `PhysicsController` changes nothing |
| `PhysicsStep.PairsFrom` | GameEngine/Physics/PhysicsScene.cs:49-57 | every visited pair of positions is ordered and in range |
| `PhysicsStep.PairsFromMembers` | GameEngine/Physics/PhysicsScene.cs:49-57 | from row i, column j on, the loops visit exactly the rest of that row and the part above the diagonal of every later row |
| `PhysicsStep.PairsFromDistinct` | GameEngine/Physics/PhysicsScene.cs:49-57 | no pair is visited twice |
| `PhysicsStep.AllPairsExactlyOnce` | GameEngine/Physics/PhysicsScene.cs:49-57 | over n colliders each pair i < j < n is visited exactly once, and no other pair is |
| `PhysicsStep.Weights` | GameEngine/Physics/PhysicsScene.cs:70-77 | with a static side the weights are 0 for static and 1 for dynamic. The normalisation divides the second weight by an already-updated sum, which would give 1/2 and 2/3 for two dynamic sides; that case never gets this far |
| `PhysicsStep.PairStep` | GameEngine/Physics/PhysicsScene.cs:51-85 | a visit that completes only moves transforms |
| `PhysicsStep.Interaction` | GameEngine/Physics/PhysicsScene.cs:68-85 | the weighted correction only moves transforms |
| `PhysicsStep.InteractionIsShifts` | GameEngine/Physics/PhysicsScene.cs:79-85 | the correction moves the first owner's transform by the MTV times the first weight, then the second's by the MTV times the negated second weight |
| `PhysicsStep.InteractionShifts` | GameEngine/Physics/PhysicsScene.cs:53-85 | a pair that passes the filters and interacts is exactly those two weighted shifts |
| `PhysicsStep.WeightedOffsets` | GameEngine/Physics/PhysicsScene.cs:70-83 | with one static side the static offset is zero, the first collider's dynamic offset is the MTV, and the second's is its negation |
| `PhysicsStep.StaticDynamicCorrection` | GameEngine/Physics/PhysicsScene.cs:60-85 | in a mixed pair only the dynamic transform moves, by the whole MTV (negated for the second collider) |
| `PhysicsStep.TwoShifts` | GameEngine/Physics/Collider.cs:19 | two shifts of different owner transforms move each by its own offset and touch nothing else |
| `PhysicsStep.ZeroShiftStays` | GameEngine/Physics/PhysicsScene.cs:79-85 | a shift by an offset with no x and no y part keeps every position |
| `PhysicsStep.StaticPairsStay` | GameEngine/Physics/PhysicsScene.cs:70-85 | two static colliders that interact both get the zero translation, so no position changes, even when both belong to the same transform |
| `PhysicsStep.FoldPairs` | GameEngine/Physics/PhysicsScene.cs:49-87 | a pair pass that completes only moves transforms |
| `PhysicsStep.SkipRow` | GameEngine/Physics/PhysicsScene.cs:53 | a row whose collider has no owner transform contributes nothing |
| `PhysicsStep.FoldPairsStep` | GameEngine/Physics/PhysicsScene.cs:55-86 | one turn of the inner loop is the visit of (i, j) followed by the rest, and it keeps the row's owner transform and the collider list |
| `PhysicsStep.RowAdvance` | GameEngine/Physics/PhysicsScene.cs:55-86 | the inner loop's invariant carries over a visit that completed |
| `PhysicsStep.RowStops` | GameEngine/Physics/PhysicsScene.cs:55-86 | a visit that stops the scene stops the whole pair pass |
| `PhysicsStep.SceneUpdate` | GameEngine/Physics/PhysicsScene.cs:40-88 | a scene update that completes only moves transforms |
| `PhysicsScenes.PhysicsScene.constructor` | GameEngine/Physics/PhysicsScene.cs:15-16 | a new scene has nothing registered |
| `PhysicsScenes.PhysicsScene.AddCollide` | GameEngine/Physics/PhysicsScene.cs:18-21 | the collider is registered last, and the other lists are kept |
| `PhysicsScenes.PhysicsScene.RemoveCollide` | GameEngine/Physics/PhysicsScene.cs:23-26 | its first registration is dropped, if any, and the other lists are kept |
| `PhysicsScenes.PhysicsScene.AddPhysicsController` | GameEngine/Physics/PhysicsScene.cs:28-31 | the controller is registered last, and the other lists are kept |
| `PhysicsScenes.PhysicsScene.RemovePhysicsController` | GameEngine/Physics/PhysicsScene.cs:33-36 | its first registration is dropped, if any, and the other lists are kept |
| `PhysicsScenes.PhysicsScene.Update` | GameEngine/Physics/PhysicsScene.cs:40-88 | the method computes `PhysicsStep.SceneUpdate` when that completes, and it keeps both registration lists |
| `PhysicsScenes.PhysicsScene.RunControllers` | GameEngine/Physics/PhysicsScene.cs:44-47 | the controller loop computes `PhysicsStep.Integrate` |
| `PhysicsScenes.PhysicsScene.RunPairs` | GameEngine/Physics/PhysicsScene.cs:49-87 | the outer loop computes the pair pass over every pair |
| `PhysicsScenes.PhysicsScene.RunRow` | GameEngine/Physics/PhysicsScene.cs:55-86 | the inner loop over row i carries the scene to a state from which the pass over the pairs of the following rows reaches the same final graph as the whole pass; when it stops early, the whole pass has no result |
| `PhysicsScenes.PhysicsScene.RowTurn` | GameEngine/Physics/PhysicsScene.cs:57-85 | one turn of the inner loop keeps the rest of the pass's result unchanged and the row's collider attached to its transform, or stops only where the whole pass has no result |
| `PhysicsScenes.PhysicsScene.Visit` | GameEngine/Physics/PhysicsScene.cs:57-85 | one turn of the inner loop computes `PhysicsStep.PairStep` |
| `PhysicsScenes.RegisterThenRemove` | GameEngine/Physics/PhysicsScene.cs:18-26 | registering a collider that was not registered and then removing it restores the list |
| `LegacyNodes.LegacyWorld.constructor` | GameEngine/Component.cs:8-13 | a new legacy scene has no component and no entity |
| `LegacyNodes.LegacyWorld.SetComponent` | GameEngine/Component.cs:11-13 | a field write replaces the record of that one component |
| `LegacyNodes.LegacyWorld.SetEntity` | GameEngine/Entity.cs:6-8 | a field write replaces the record of that one entity |
| `LegacyNodes.OwnersOnlyRanked` | GameEngine/Component.cs:50-71 | a walk that writes only owners keeps every child list and so every ranking |
| `LegacyLinks.Attach` | GameEngine/Component.cs:50-58 | `AttachToInternal` writes only owners |
| `LegacyLinks.AttachAll` | GameEngine/Component.cs:54-57 | its loop over the children writes only owners |
| `LegacyLinks.AttachAllStep` | GameEngine/Component.cs:54-57 | one more turn of the loop attaches the next child's subtree |
| `LegacyLinks.AttachOwners` | GameEngine/Component.cs:50-58 | after `AttachToInternal(e)` every component of the subtree is owned by e, and no other owner changes |
| `LegacyLinks.AttachAllOwners` | GameEngine/Component.cs:54-57 | the loop gives the owner to exactly the union of the children's subtrees |
| `LegacyLinks.Detach` | GameEngine/Component.cs:61-71 | `DetatchInternal` writes only owners, and only by clearing them |
| `LegacyLinks.DetachAll` | GameEngine/Component.cs:67-70 | its loop writes only owners, and only by clearing them |
| `LegacyLinks.DetachAllStep` | GameEngine/Component.cs:67-70 | one more turn of the loop detaches the next child's subtree |
| `LegacyLinks.DetachEffect` | GameEngine/Component.cs:61-71 | a component without an owner is left as it is. Otherwise it ends without an owner, and nothing outside its subtree changes |
| `LegacyLinks.DetachAllOutside` | GameEngine/Component.cs:67-70 | the loop changes nothing outside the subtrees it walks |
| `LegacyLinks.DetachAllKeepsNone` | GameEngine/Component.cs:63 | a component that has no owner keeps having none |
| `LegacyLinks.AddComponent` | GameEngine/Component.cs:15-21 | `AddComponent` registers and removes no handle and changes no entity |
| `LegacyLinks.AddComponentLinks` | GameEngine/Component.cs:15-21 | the component takes the node as parent and goes last in its children; no other parent, child list or name changes |
| `LegacyLinks.AddComponentOwners` | GameEngine/Component.cs:18-19 | the component's subtree takes the node's owner, and no other owner changes |
| `LegacyLinks.RemoveComponent` | GameEngine/Component.cs:23-31 | nothing changes unless the component's parent is this node. Then the component leaves the node's children and loses its parent and its owner, and no other record changes |
| `LegacyLinks.AddThenRemove` | GameEngine/Component.cs:15-31 | removing a component just added restores the node's child list and leaves the component without parent and owner; the rest of its subtree keeps the owner the add gave it |
| `LegacyLinks.RemoveAfterAppend` | GameEngine/Component.cs:20-28 | `List.Remove` after `List.Add` of an element not yet held restores the list |
| `LegacyLinks.OnlyClearsRanked` | GameEngine/Component.cs:33-47 | a step that only clears links keeps every ranking |
| `LegacyLinks.ClearChildren` | GameEngine/Component.cs:33-47 | links are only cleared. The child list ends empty, and every former child has neither parent nor owner |
| `LegacyLinks.ClearEach` | GameEngine/Component.cs:35-44 | the loop leaves every visited child without parent and owner, and only clears links |
| `LegacyLinks.ClearEachStep` | GameEngine/Component.cs:35-44 | one more turn of the loop clears the next child |
| `LegacyLinks.ClearOne` | GameEngine/Component.cs:37-43 | one turn leaves the child without parent and owner |
| `LegacyLinks.ClearShallowFrame` | GameEngine/Component.cs:35-44 | a shallow clear writes only the former children |
| `LegacyLinks.ClearFrame` | GameEngine/Component.cs:33-47 | a clear, deep or shallow, changes nothing outside the subtree |
| `LegacyLinks.SubtreeUnderClear` | GameEngine/Component.cs:33-47 | clearing never adds to a subtree |
| `LegacyEntities.AddComponent` | GameEngine/Entity.cs:10-22 | the answer is true exactly for a component already owned directly, or one with no owner. A refusal, or a component already there, changes nothing |
| `LegacyEntities.AddComponentAttaches` | GameEngine/Entity.cs:15-21 | an ownerless component goes last in the entity's list and its whole subtree is owned by the entity. Nothing but those owners and that list changes |
| `LegacyEntities.AddComponentIdempotent` | GameEngine/Entity.cs:10-22 | a component with no owner and no parent that is added becomes directly owned, and a second add is accepted without change |
| `LegacyEntities.RemoveComponent` | GameEngine/Entity.cs:24-38 | the answer is true exactly for a directly owned component, and a refusal changes nothing |
| `LegacyEntities.RemoveComponentDetaches` | GameEngine/Entity.cs:28-37 | on acceptance the component leaves the list and ends without an owner. `Transform` no longer names it, and nothing outside its subtree changes |
| `LegacyEntities.AddThenRemoveComponent` | GameEngine/Entity.cs:10-38 | a component added and then removed leaves the entity's list as it was |
| `LegacyEntities.AddTransform` | GameEngine/Entity.cs:40-60 | accepted exactly for a component owned directly or one with no owner; a refusal changes nothing; on acceptance it is the entity's transform |
| `LegacyEntities.AddTransformEffect` | GameEngine/Entity.cs:42-59 | a directly owned component only becomes the transform; an ownerless one is first added exactly as `AddComponent` adds it |
| `LegacyEntities.RemoveComponentTree` | GameEngine/Entity.cs:62-80 | the shallow and deep removals change nothing for a component the entity does not own |
| `LegacyEntities.RemoveComponentTreeEffect` | GameEngine/Entity.cs:62-80 | otherwise the component leaves the list and ends without owner and children. Its former children lose parent and owner. `Transform`, the other entities and everything outside its subtree are kept |
| `LegacyEntities.GetComponents` | GameEngine/Entity.cs:82-85 | the view holds exactly the listed components, as many of them |
| `LegacyEntities.GetComponentsInOrder` | GameEngine/Entity.cs:18 | accepting a new component lists it last |
| `LegacyComponentMethods.AttachToInternal` | GameEngine/Component.cs:50-58 | the method computes `LegacyLinks.Attach` |
| `LegacyComponentMethods.DetatchInternal` | GameEngine/Component.cs:61-71 | the method computes `LegacyLinks.Detach` |
| `LegacyComponentMethods.AddComponent` | GameEngine/Component.cs:15-21 | the method computes `LegacyLinks.AddComponent` |
| `LegacyComponentMethods.RemoveComponent` | GameEngine/Component.cs:23-31 | the method computes `LegacyLinks.RemoveComponent` |
| `LegacyComponentMethods.ClearChildren` | GameEngine/Component.cs:33-47 | the method computes `LegacyLinks.ClearChildren` |
| `LegacyComponentMethods.ClearOne` | GameEngine/Component.cs:37-43 | one turn of the loop computes `LegacyLinks.ClearOne` |
| `LegacyEntityMethods.AddComponent` | GameEngine/Entity.cs:10-22 | the answer and the new state are `LegacyEntities.AddComponent` |
| `LegacyEntityMethods.RemoveComponent` | GameEngine/Entity.cs:24-38 | the answer and the new state are `LegacyEntities.RemoveComponent` |
| `LegacyEntityMethods.AddTransform` | GameEngine/Entity.cs:40-60 | the answer and the new state are `LegacyEntities.AddTransform` |
| `LegacyEntityMethods.RemoveComponentTree` | GameEngine/Entity.cs:62-80 | the shared body computes `LegacyEntities.RemoveComponentTree` |
| `LegacyEntityMethods.RemoveComponentShallow` | GameEngine/Entity.cs:62-70 | the shallow removal computes `LegacyEntities.RemoveComponentTree` with `deep` false |
| `LegacyEntityMethods.RemoveComponentDeep` | GameEngine/Entity.cs:72-80 | the deep removal computes `LegacyEntities.RemoveComponentTree` with `deep` true |
| `LegacyEntityMethods.GetComponents` | GameEngine/Entity.cs:82-85 | the method returns `LegacyEntities.GetComponents` |

## Left out

- Networking, JSON and the entry point (`GameEngine/Networking/*`, `GameEngine/Utils/JsonUtils.cs`, the JSON converters in `ECS/Entity.cs` and `ECS/Transform.cs`, `Component.WriteHeader`, `CodeReso/Program.cs`): I/O, concurrency and reflection-driven serialisation, with no logic of the engine's own.
- `GameEngine/Physics/ColliderPrimitives.cs`: it calls `asset.Data` and `SetCircle`, which the shown `ColliderAsset` does not have.
- Square roots, sine, cosine and `atan2`: `Vector2.Length`, `Unit`, `Angle` and `Rotate`, the rotation constructors and `Rotation` of `Matrix2`, and the `Transform.Rotation` and `Transform.Scale` setters. Only square root is needed by the rest of the core, for `Matrix2.Scale2` (`Matrices.Scale2`). It comes in as a caller-supplied function, and its law is assumed through `IsSqrt` only where a property needs it.
- Float32 and float64 rounding: every scalar is an exact `real`. A NaN or infinity that the source would carry on with becomes `None`: `Matrices.GetInverse` for a zero determinant, `Resolver.ResolveCircleToCircle` for coinciding centres.
- Members that the shown sources call but do not define: the matrix-vector product, `LeftNormal` and `ColliderData.TransformFrom`. They are parameters of the members that use them (`apply`, `leftNormal`, `transformFrom`), and no property rests on what they compute. `Vector2.Unit` (`Math2D/Vector2.cs:48`) is defined, as `(1 / Length) * this`, but goes through the square root of `Length`, so it too is taken as a parameter, `unit`. `Vector2` also defines no `operator ==`, which `Aabb.Equals(Aabb)` (`Math2D/Aabb.cs:93`) calls on the corners; the model takes it as exact equality of the three components, so `Aabbs.Aabb.Equals` compares the corners exactly. Members used only by the unit tests (`NewRotation`, `IsIdentity`, `Row`, `SafeDivide`, `WrapAngle`, `IsOrigin` and others) are not modelled.
- `ToString`, `GetHashCode` and `Equals(object)` boxing: formatting and hashing only. `Equals(object)` is modelled through the typed `Equals` it forwards to.
- Garbage collection: the finalizers `~Entity` and `~Component`, and `WeakReference` targets. A live object is an entry in the `World`'s maps, and `TryGetEntity` and `TryGetComponent` are lookups in them. The static singletons (`ActiveEntities`, `ActiveComponents`, the two id providers, `PhysicsScene.GlobalScene`) are fields of one explicit `World` or `PhysicsScene` object.
- The virtual child `Update(delta)` calls inside `Component.Update` (`ECS/Component.cs:166-169`) and `Entity.Update` (`ECS/Entity.cs:580-588`): only the bracket around the loop is modelled (`UpdateBegin`, `UpdateEnd`). The structural requests that children issue meanwhile are the same operations, applied while the traversal flag is set.
- `ForEachChild` and `ForEachComponent` callbacks are pure functions of the visited component. A callback that changes the graph during the walk is not modelled.
- `foreach` over a list that the loop body changes is modelled as a loop over the list captured when the loop starts.
- Acyclicity is not preserved by the source. Both `Component.AddComponent` (a node added to itself) and `Entity.SetParent(this)` can close a loop; `ComponentOps.AddSelfBreaksEveryRanking` and `EntityTree.SelfParentBreaksEveryRanking` show this. The recursive operations therefore require a ghost ranking of the graph instead of promising to terminate on any graph.
- The legacy `GameEngine.Transform` class is not part of this model. `LegacyEntities.AddTransform` accepts any component handle.
- PhysicsScenes.PhysicsScene.Update: states the new world only when the step completes. A pair with coinciding circle centres stops the step with `completed` false, where the source would go on with NaN offsets.
- PhysicsScenes.PhysicsScene.Visit: does not state that `Workbench` is emptied before each resolution. The resolvers never read it, so the contract says nothing about it.
- PhysicsStep.StaticDynamicCorrection: states the two offsets that a mixed pair applies. The resulting positions come from `PhysicsStep.TwoShifts`, a separate lemma, to keep each proof small.
- PhysicsStep.AllColliders: the scene lists are assumed to hold live colliders, as the source's `List<Collider>` type guarantees. Registering a handle of another kind is not modelled.
- IdProviders.IdProvider.Allocate: promises a fresh id, not the smallest free one. The left-biased descent does not always find the smallest, so the model promises nothing about which free id is chosen.

## Findings

| source | as written | input that shows it | evidently intended | confidence | as-written member | corrected member |
|---|---|---|---|---|---|---|
| GameEngine/Math2D/Matrix2.cs:172-182 | `operator-` adds the entries (`left.Data[i] + right.Data[i]`) | any non-zero `right`, e.g. `(a + b) - b` gives `a + 2b` | the element-wise difference, which undoes `operator+` | high (not executed) | `Matrices.Minus` | `Matrices.DifferenceUndoesSum` |
| GameEngine/Math2D/Matrix2.cs:141-158 | `GetInverse` sets the new `right` to (-up.Y, right.Y), the negation of the adjugate column (up.Y, -right.Y), and then builds `up` from that reassigned `right`, so the result is not an inverse | diag(2, 1), or any other invertible scale matrix: entry [0, 0] of the result times the matrix is -1, not 1 | the inverse of the affine matrix, whose product with it is the identity on both sides | high (not executed) | `Matrices.GetInverseIsNotInverse` | `Matrices.InverseIsInverse` |
