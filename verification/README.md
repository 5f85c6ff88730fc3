# Axis-aligned bounding cube of the gravity simulation's octree

The OpenTK gravity simulation keeps a spatial octree whose nodes carry an
axis-aligned bounding cube (`AABC`). A cube is given by its full edge length
`Size` and its `Center`. It offers two operations:

- `Inside(point)`: a strict open-box test. On each axis, the point's
  coordinate relative to the center must lie strictly between `-Size/2` and
  `+Size/2`.
- `SplitIntoOctants()`: the eight sub-cubes of edge `Size/2`. Each one is
  centered at `Center + (Size/4)·(±1, ±1, ±1)`. They are listed in a fixed
  order from (+,+,+) to (-,-,-), with z varying fastest.

The model is in three modules:

- `Vectors` (`vectors.dfy`): a real-valued 3-vector, standing in for the
  graphics library's `Vector3`.
- `Geometry` (`geometry.dfy`): the `AABC` datatype with `Inside` and
  `SplitIntoOctants`.
- `Octants` (`octants.dfy`): the properties.
  - `Inside` is strict, is empty when the edge is not positive, and is
    translation invariant.
  - Octant `i` takes its signs from the bits of `i`. Sign triples and
    indices are in one-to-one correspondence.
  - Octant centers are distinct.
  - Octants nest in the parent and are pairwise disjoint.
  - Octants cover the parent's interior except the three center planes.
- `Subdivision` (`subdivision.dfy`): repeated splitting along a path of
  octant indices, as an octree does when it refines a cell.
  - A cell at depth n has edge `Size / 2^n`.
  - Descending along two paths one after the other is descending along
    their concatenation.
  - Every cell nests in the root.
  - Two different cells at the same depth are disjoint.

The source uses single-precision `float`. The model uses Dafny's `real`, so
what is verified is the intended geometry, not float rounding.

`Size` is the full edge length: `Inside` uses `0.5f * Size` as the
half-extent (src/OpenTKGravitySim/Particles/SpacialOctree.cs:46).

## Model

| member | source | states |
|---|---|---|
| Geometry.Inside | src/OpenTKGravitySim/Particles/SpacialOctree.cs:44-51 | a point is inside iff its Chebyshev distance from the center is below half the edge; an inside point implies a positive edge |
| Geometry.SplitIntoOctants | src/OpenTKGravitySim/Particles/SpacialOctree.cs:55-70 | exactly 8 cubes; each has half the parent's edge; octant i is centered at Center + (Size/4)·s, where s has x negative iff bit 2 of i is set, y iff bit 1, z iff bit 0 |
| Octants.InsideIffBetweenCorners | src/OpenTKGravitySim/Particles/SpacialOctree.cs:44-51 | inside iff strictly between the low corner Center - Size/2 and the high corner Center + Size/2 on every axis |
| Octants.FaceIsOutside | src/OpenTKGravitySim/Particles/SpacialOctree.cs:46-50 | a point whose local coordinate is exactly ±Size/2 on some axis is not inside (the test is strict) |
| Octants.NonPositiveSizeIsEmpty | src/OpenTKGravitySim/Particles/SpacialOctree.cs:46-50 | when Size <= 0 no point is inside |
| Octants.CenterInsideIffPositive | src/OpenTKGravitySim/Particles/SpacialOctree.cs:44-51 | the cube's own center is inside iff Size > 0 |
| Octants.InsideTranslationInvariant | src/OpenTKGravitySim/Particles/SpacialOctree.cs:47-50 | moving cube and point by the same vector leaves the answer unchanged |
| Octants.OctantCenterSigns | src/OpenTKGravitySim/Particles/SpacialOctree.cs:61-68 | per axis, octant i's center is the parent's coordinate minus Size/4 when the axis's bit of i is set (i >= 4 for x, (i/2) odd for y, i odd for z), plus Size/4 otherwise |
| Octants.SignIndexOfSignVector | src/OpenTKGravitySim/Particles/SpacialOctree.cs:61-68 | each index 0..7 yields a triple of ±1 signs, and reading the signs back as bits gives the index again |
| Octants.SignVectorOfSignIndex | src/OpenTKGravitySim/Particles/SpacialOctree.cs:61-68 | each ±1 sign triple, encoded as an index, decodes back to itself, so the listing covers all eight sign combinations |
| Octants.OctantCentersDistinct | src/OpenTKGravitySim/Particles/SpacialOctree.cs:61-68 | for Size != 0, different octants have different centers |
| Octants.EachSignTripleOnce | src/OpenTKGravitySim/Particles/SpacialOctree.cs:61-68 | for Size != 0, every sign triple is the offset direction of exactly one octant |
| Octants.InsideOctantIff | src/OpenTKGravitySim/Particles/SpacialOctree.cs:44-70 | a point is inside octant i iff on every axis its local coordinate lies strictly between 0 and Size/2 on the side that i's bit selects |
| Octants.OctantNestsInParent | src/OpenTKGravitySim/Particles/SpacialOctree.cs:44-70 | any point inside an octant is inside the parent cube |
| Octants.OctantsDisjoint | src/OpenTKGravitySim/Particles/SpacialOctree.cs:44-70 | no point is inside two different octants |
| Octants.OctantsCoverInterior | src/OpenTKGravitySim/Particles/SpacialOctree.cs:44-70 | a point inside the parent and off its three center planes is inside the octant its coordinate signs select, and in no other |
| Octants.CenterPlaneInNoOctant | src/OpenTKGravitySim/Particles/SpacialOctree.cs:44-70 | a point on one of the parent's center planes is inside no octant |
| Octants.OctantCenterClassifiedBack | src/OpenTKGravitySim/Particles/SpacialOctree.cs:44-70 | for Size > 0, each octant contains its own center, and classifying that center by sign gives back the octant's index |
| Subdivision.DescendSize | src/OpenTKGravitySim/Particles/SpacialOctree.cs:55-70 | after n successive splits the cell's edge is the root edge divided by 2^n |
| Subdivision.DescendConcat | src/OpenTKGravitySim/Particles/SpacialOctree.cs:55-70 | descending along path a, then along path b, reaches the same cell as descending along a + b |
| Subdivision.DescendNests | src/OpenTKGravitySim/Particles/SpacialOctree.cs:44-70 | a point inside a cell reached by any number of splits is inside the root cube |
| Subdivision.DescendDisjoint | src/OpenTKGravitySim/Particles/SpacialOctree.cs:44-70 | cells reached by two different paths of the same length share no point |

## Left out

- Floating point: every property is proved over exact reals. Under
  single-precision rounding, translation invariance, distinct centers,
  disjointness and coverage can fail whenever `Size` is small compared with
  the magnitude of the coordinates (for instance a cube of edge 1 centered
  at x = 2^24, whose octant centers round onto each other). NaN and
  infinite values are not modelled.
- `SpacialOctree.Subdivide` (src/OpenTKGravitySim/Particles/SpacialOctree.cs:15-18):
  the body reads the node count into a local and does nothing else. It has
  no effect to model.
- `SpacialOctreeNode` and `SpacialOctree`
  (src/OpenTKGravitySim/Particles/SpacialOctree.cs:8-28): plain data (a
  node list, its count, and a node's first-child index, cube and mass) with
  no behaviour to verify, so they are not modelled.
- The source never fills the node list: it builds no tree, sums no masses
  and computes no forces, so none of that is modelled.
- The source has no function that assigns a point to an octant;
  `Octants.LocalOctant` exists only to state the coverage lemmas.
- Octants.OctantCentersDistinct: requires Size != 0. When Size is 0, all
  eight centers are equal to the parent center, so the property does not
  hold.
- Particles, the universe's N-body force loop, random seeding, the window,
  shaders and the program's thread wiring: these are I/O, graphics,
  concurrency and floating-point integration code, with no octree geometry.
