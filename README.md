# Icosahedron and hexsphere mesh engine

A model of the mesh-construction engine of `src/main.rs` in thallada/icosahedron.
A `Polyhedron` is a list of positions, a parallel list of normals, a welding
cache from quantised position to index, a list of triangular cells and a list
of faces (groups of cells). The engine does four things:

- It welds positions (`add_position`): a position whose key is already cached
  reuses the cached index.
- It builds an icosahedron (`new_isocahedron`) from a hardcoded table of 20
  cells and 12 positions, and subdivides every base cell into a triangular
  lattice of `4^detail` small cells (`subdivide`, `subdivide_triangle`).
- It indexes the cells of a finished mesh: the incident triangles of every
  vertex (`vert_to_faces`), the centroid of every triangle
  (`triangle_centroids`), and the neighbour of a triangle across an edge inside
  a vertex fan (`find_adjacent_face`).
- It truncates a finished mesh into a Goldberg hexsphere (`truncated`). Every
  vertex becomes a face made of two cells per incident triangle. The fan is
  visited in reverse, around the centre of the triangle centroids, using
  memoised mid-centroids (`calculate_mid_centroid`).

The files:

- `geometry.dfy`: vectors over exact reals, `lerp`, `calculate_centroid` and
  the quantisation key (round half away from zero, saturating `i32` cast).
- `welding.dfy`: the welding store as a value and `add_position` as a
  function on it.
- `subdivision.dfy`: the lattice of `subdivide_triangle` and the order in
  which its triangles are emitted.
- `topology.dfy`: incidence lists, the adjacent-face search and the base
  table.
- `dual.dfy`: when truncation succeeds or panics, centres, mid-centroids and
  the face layout.
- `truncation.dfy`: what a truncated vertex leaves in the cell and face lists.
- `mesh.dfy`: the `Polyhedron` class. Its methods update the fields in place
  as the program does, and each is proved against the functions and
  predicates above.

A panic of the program becomes an `Err` result naming where it happens:

- a vertex with no incident triangle (`vert_to_faces[&i]`);
- a triangle that holds the vertex at more than one corner (`other_verts[1]`);
- an edge with no second triangle in the fan (the `unwrap` in
  `calculate_mid_centroid`).

`Truncated` succeeds exactly when none of these can happen. The predicate
`Truncatable` states that condition.

## Model

| member | source | states |
|---|---|---|
| Geometry.Lerp | src/main.rs:164-173 | `lerp(u, v, t)` is `u` at `t = 0`, `v` at `t = 1`, and the coordinate-wise midpoint at `t = 0.5` |
| Geometry.Centroid | src/main.rs:447-451 | the half-edge formula of `calculate_centroid` yields the average of the three corners |
| Geometry.RoundHalfAwayFromZero | src/main.rs:200-202 | `f32::round` is within one half of its argument, and a tie goes away from zero |
| Geometry.SaturateI32 | src/main.rs:200-202 | the `as i32` cast stays in the `i32` range, is exact inside it, and saturates at each end |
| Geometry.QuantizeBounds | src/main.rs:199-203 | every key component is an `i32`; a coordinate whose scaled value fits is within half a unit of its key component |
| Geometry.QuantizeAxis | src/main.rs:199-203 | one key component is an `i32`; where the scaled coordinate fits in `i32` it is within half a unit of it |
| Geometry.Quantize | src/main.rs:199-203 | every component of the key of a position is an `i32` |
| Geometry.SameKeyClose | src/main.rs:199-205 | two positions with the same key, inside the `i32` range, differ by at most one unit of `VERT_CACHE_PRECISION` on every axis, so welding only merges nearby positions |
| Welding.EmptyStore | src/main.rs:77-85 | the store of a new polyhedron is well formed and empty |
| Welding.Insert | src/main.rs:198-214 | a cache hit returns the cached index and changes nothing; a miss appends the position and one zero normal, maps the key to the new last index and returns it; the store invariant (normals as long as positions, the cache an exact index of the positions) is kept, and the result is welded to the input |
| Welding.InsertGrowth | src/main.rs:204-212 | one insertion grows the position list by one exactly when the key is new, and by nothing otherwise |
| Welding.InsertWelds | src/main.rs:204-205 | inserting a position with the same key as the last inserted one returns the same index and leaves the store unchanged |
| Welding.WeldedUnique | src/main.rs:204-211 | in a well-formed store two indices whose positions have the same key are equal |
| Welding.WeldedExtends | src/main.rs:207 | positions are only appended, so an index keeps naming a position with the same key |
| Welding.InsertAddedFrom | src/main.rs:204-212 | `add_position` appends nothing but its own vertex: positions drawn from a set stay drawn from it after inserting a point of the set |
| Welding.InsertThreeAddedFrom | src/main.rs:184-191 | the three welds of one lattice cell append only their three points |
| Subdivision.Pow2 | src/main.rs:159 | `2usize.pow(detail)` is at least 1 |
| Subdivision.Pow2Squared | src/main.rs:159 | `cols * cols` is `4^detail` |
| Subdivision.CornersOf | src/main.rs:178-191 | for every `i < cols` and `j < 2 (cols - i) - 1`, the three lattice points triangle `j` of row `i` reads are inside the lattice, so every `new_vertices` access is in bounds; they are three different points, the first in row `i`, the second in row `i + 1`, and the third in row `i` for even `j` and `i + 1` for odd `j` |
| Subdivision.PatternUpToLength | src/main.rs:178-179 | rows `0 .. i` emit `i (2 cols - i)` triangles in all |
| Subdivision.PatternUpToAt | src/main.rs:178-195 | triangles are emitted row by row: triangle `j` of row `i` is emitted at position `i (2 cols - i) + j` |
| Subdivision.CellPatternLength | src/main.rs:159-195 | one base triangle yields `cols^2 = 4^detail` triangles |
| Subdivision.CellPatternAt | src/main.rs:178-195 | triangle `j` of row `i` is entry `i (2 cols - i) + j` of the full emission order |
| Subdivision.LatticeGrid | src/main.rs:160-176 | `new_vertices` has `cols + 1` rows and row `i` holds `cols - i + 1` points |
| Subdivision.GridCorners | src/main.rs:162-175 | the three corners of the lattice are the three base corners, projected and scaled |
| Subdivision.GridPoint | src/main.rs:164-173 | a lattice point of row `i` lies between `lerp(a, c, i/cols)` and `lerp(b, c, i/cols)`: the first point of a row is the projected point on the edge `a`-`c`, the last one the point on the edge `b`-`c`, and the single point of the last row is `c`, projected and scaled |
| Subdivision.PatternUpToInGrid | src/main.rs:178-191 | every emitted triangle reads only lattice points |
| Subdivision.RowPrefixStep | src/main.rs:179-194 | emitting triangle `j` of a row extends the emitted sequence by its corners |
| Subdivision.RowPrefixFull | src/main.rs:178-195 | once a row is complete, the emitted sequence is that of all rows up to it |
| Topology.CellsInBoundsGrow | src/main.rs:207 | adding positions keeps every cell corner a valid position index |
| Topology.CellsInBoundsAppend | src/main.rs:193 | pushing a cell whose corners are valid indices keeps every cell corner a valid position index |
| Topology.HitsMembers | src/main.rs:291-309 | one triangle adds only its own index to the list of `v`, and adds something exactly when `v` is one of its corners |
| Topology.RecordCorner | src/main.rs:293-297 | one `get_mut`/`insert` block gives `corner` a list with `i` appended (or the list `[i]`), and leaves the list of every other vertex unchanged |
| Topology.IncidentUpTo | src/main.rs:290-310 | after `n` triangles the list of `v` has one entry for each corner equal to `v` among those triangles |
| Topology.Incident | src/main.rs:288-312 | every entry of the list of `v` is a cell index whose triangle has `v` as a corner |
| Topology.IncidentUpToMembers | src/main.rs:290-310 | after `n` triangles the list of `v` names exactly the triangles below `n` that have `v` as a corner |
| Topology.IncidentMembers | src/main.rs:288-312 | the list of `v` names exactly the triangles that have `v` as a corner |
| Topology.IncidentUpToBelow | src/main.rs:290-310 | after `n` triangles every entry of a list is below `n` |
| Topology.IncidentUpToOrdered | src/main.rs:290-310 | after `n` triangles the entries of a list are in ascending order |
| Topology.IncidentSorted | src/main.rs:288-312 | every list is in ascending triangle order |
| Topology.CornersBelowAll | src/main.rs:291-309 | counted vertex by vertex, the corners of a triangle that are below `n` are the corners `a`, `b`, `c` that are below `n` |
| Topology.DegreeSumNext | src/main.rs:224-225 | the lists of vertices `0 .. n + 1` hold the entries of `0 .. n` plus the list of `n` |
| Topology.DegreeSumStep | src/main.rs:290-310 | one more triangle adds to the lists of vertices `0 .. n` one entry for each of its corners below `n` |
| Topology.DegreeSumUpToZero | src/main.rs:289 | before any triangle every list is empty |
| Topology.DegreeSumUpToTotal | src/main.rs:290-310 | when every corner is below `n`, the first `m` triangles put `3 m` entries into the lists of vertices `0 .. n` |
| Topology.DegreeSumTotal | src/main.rs:288-312 | when every corner is a position index, the list lengths sum to `3 * cells.len()` |
| Topology.FindAdjacentFace | src/main.rs:353-376 | a result is a listed face, other than the current one, whose triangle has both vertices; the result is `None` exactly when no listed face is like that |
| Topology.FindAdjacentFaceFirst | src/main.rs:360-373 | the face returned is the first such face in the list |
| Topology.FindAdjacentFaceOnly | src/main.rs:360-375 | when exactly one listed face shares the edge, that face is returned |
| Topology.AdjacencySymmetric | src/main.rs:353-376 | when exactly two faces of a fan carry an edge, each is the adjacent face of the other |
| Topology.CornerCountUnrolled20 | src/main.rs:91-112 | for a table of twenty cells, the corner count of `v` is the sum of its twenty per-cell counts |
| Topology.BaseCellsInBounds | src/main.rs:91-128 | the base table has 20 cells, all of whose corners are below the 12 positions added |
| Topology.BaseCornerCountsLow | src/main.rs:91-112 | base vertices 0 to 5 are corners of five base cells each |
| Topology.BaseCornerCountsHigh | src/main.rs:91-112 | base vertices 6 to 11 are corners of five base cells each |
| Topology.BaseCornerCounts | src/main.rs:91-112 | every base vertex is a corner of five base cells |
| Topology.BaseDegrees | src/main.rs:91-112 | in the base table `vert_to_faces` gives every vertex 0..11 exactly five entries |
| Dual.OtherVerts | src/main.rs:238-241 | the filter keeps the corners other than `i`, in order; it keeps `3 - m` of them, where `m` counts the corners equal to `i` |
| Dual.OtherVertsOfCorner | src/main.rs:238-242 | in a triangle with three different corners, one of them `i`, the two others are the remaining two, in the order `a`, `b`, `c` |
| Dual.SortedTriangleWinding | src/main.rs:238-242 | the triangle `(i, other_verts[0], other_verts[1])` keeps the winding of the original triangle exactly when `i` is not its middle corner `b` |
| Dual.IncidentFacesIn | src/main.rs:237 | every listed incident face indexes `other.cells` |
| Dual.IndexOf | src/main.rs:236 | a face of the fan is listed at some position |
| Dual.FanOkFromStep | src/main.rs:236-281 | the reverse fan loop can go one more step when the next triangle can be truncated |
| Dual.FanOkFromAll | src/main.rs:236-281 | the fan loop runs to the end exactly when every triangle of the fan can be truncated |
| Dual.TruncatableStep | src/main.rs:224-283 | the vertex loop can go one more step when the next vertex has a fan and every triangle of that fan can be truncated |
| Dual.FanFailureRefutes | src/main.rs:238-262 | a fan with a panicking triangle (too few other corners, or an edge with no neighbour) cannot be truncated |
| Dual.FailureRefutes | src/main.rs:224-262 | a mesh with a panicking vertex cannot be truncated |
| Dual.FacesHaveCentroids | src/main.rs:244 | every face of a fan has a centroid when every cell has one |
| Dual.Centroids | src/main.rs:314-322 | `triangle_centroids` has an entry exactly for every cell index |
| Dual.SumCentroids | src/main.rs:457-460 | the left-to-right sum of the loop equals the sum taken from the front: adding from the back or from the front gives the same sum |
| Dual.Center | src/main.rs:453-463 | the centre multiplied by the number of triangles is the sum of their centroids |
| Dual.SumOfEqualCentroids | src/main.rs:457-460 | adding up `n` equal centroids gives `n` times that centroid |
| Dual.CenterOfEqualCentroids | src/main.rs:453-463 | the centre of triangles that share one centroid is that centroid |
| Dual.CalculateMidCentroid | src/main.rs:325-351 | the result is a panic exactly when there is no adjacent face; otherwise the result is cached under `(spoke, vertex, adj_face)`, no entry already cached changes, an entry that was cached is returned as it is, and on a miss the new cache is the old one with exactly that key added |
| Dual.MidCentroidFresh | src/main.rs:343-349 | a mid-centroid not yet cached is the midpoint of the centroids on the two sides of the edge |
| Dual.MidCentroidRepeat | src/main.rs:339-342 | a repeated call on the cache a call produced returns the same value and leaves the cache unchanged |
| Dual.SharedKeyReadBack | src/main.rs:325-351 | with three triangles on one edge, the second triangle to find the same neighbour reads back the midpoint the first one cached, which is not the midpoint across its own edge when the two centroids differ |
| Dual.MidCentroidSound | src/main.rs:325-351 | called from a triangle of an edge with a sound cache, `calculate_mid_centroid` returns the midpoint of the centroids of the two triangles on the edge (where exactly two triangles carry it), whether the value was cached or not, and keeps the cache sound |
| Dual.FanMidsSound | src/main.rs:245-262 | the two calls for one fan triangle return the midpoints across its edges to `other_verts[0]` and `other_verts[1]`, in that order, and leave the cache grown and sound |
| Dual.CacheSoundInsert | src/main.rs:343-349 | caching a midpoint across its edge keeps every cached value a midpoint across the edge of its key |
| Dual.MidAcrossPair | src/main.rs:343-349 | the midpoint of the centroids of the two triangles on an edge is the mid-centroid across that edge from the first |
| Dual.MidAcrossFlip | src/main.rs:339-342 | a mid-centroid across an edge from one of its two triangles is also the one from the other, so a cached value is right for either side |
| Dual.HexCount | src/main.rs:226-230 | the hexagon counter never exceeds the number of vertices visited |
| Dual.HexCountNext | src/main.rs:226-230 | a vertex with six incident triangles counts as one more hexagon, and any other vertex counts as none |
| Dual.FaceRangeGrow | src/main.rs:269-280 | pushing the next two cell indices keeps a face a run of consecutive cell indices |
| Truncation.FanPairExtends | src/main.rs:264-280 | appending positions and cells keeps a pushed pair of cells and its welds |
| Truncation.MidsWeldedOf | src/main.rs:264-280 | cells welded to the two mid-centroids across the edges of a fan triangle have their mid-centroid corners welded to the midpoints across those edges |
| Truncation.MidsWeldedExtends | src/main.rs:264-280 | appending positions and cells keeps the welds of the mid-centroid corners of a pair |
| Truncation.FanEmittedExtends | src/main.rs:236-281 | appending positions and cells keeps the pairs already pushed for a fan |
| Truncation.FanEmittedStep | src/main.rs:236-281 | the pair of the next triangle from the end of the fan extends the pushed pairs |
| Truncation.VertexTruncatedAt | src/main.rs:232-282 | a vertex whose face is pushed and whose fan pairs are in place is truncated |
| Truncation.VertexTruncatedNext | src/main.rs:224-283 | one more truncated vertex extends the truncated prefix of vertices |
| Truncation.VertexTruncatedExtends | src/main.rs:224-283 | appending positions, cells and faces keeps every vertex truncated so far |
| Truncation.FanPointsInDual | src/main.rs:232-282 | the centre, centroids and mid-centroids of the fan of `v` are among the points that truncating the vertices up to `v` adds |
| Truncation.DualPointsStep | src/main.rs:224-283 | positions added for vertex `i`, after the positions added for the vertices before it, keep every added position a centre, centroid or mid-centroid |
| Mesh.BaseAxisKeys | src/main.rs:117-128 | the base coordinates `0`, `1`, `-1`, `t` and `-t` have keys `0`, `10000`, `-10000`, `16180` and `-16180` |
| Mesh.BaseKeysDistinct | src/main.rs:117-128 | the twelve base positions have twelve different welding keys |
| Mesh.AddBasePositionAppends | src/main.rs:117-128 | each base `add_position` call appends its position, so the base positions end up in table order |
| Mesh.EmittedExtends | src/main.rs:184-193 | appending positions and cells keeps every emitted lattice cell |
| Mesh.EmittedAppend | src/main.rs:193 | pushing a cell welded to the corners of the next pattern entry extends the emitted sequence |
| Mesh.EmittedLatticePoints | src/main.rs:162-193 | an emitted cell is welded to the projected lattice points its pattern entry names |
| Mesh.LatticePoints | src/main.rs:159-176 | the nested loops fill `new_vertices` with exactly the lattice `LatticeGrid`, row by row |
| Mesh.UpCellWelds | src/main.rs:183-186 | the three points of an even `j` are the corners `CornersOf` gives |
| Mesh.DownCellWelds | src/main.rs:187-191 | the three points of an odd `j` are the corners `CornersOf` gives |
| Mesh.SubdividedAppend | src/main.rs:143-148 | one more subdivided base cell extends the subdivided prefix of base cells |
| Mesh.SubdividedExtends | src/main.rs:143-148 | appending positions and cells keeps every subdivided base cell |
| Mesh.BlockEmittedExtends | src/main.rs:143-148 | appending positions and cells keeps the block of one subdivided base cell |
| Mesh.SubdivisionPointsStep | src/main.rs:143-148 | the positions one more subdivided base cell adds are points of its lattice |
| Mesh.CenterOfTriangles | src/main.rs:453-463 | the loop sums the centroids in order and divides by their number: the result is `Center`, the mean of the centroids |
| Mesh.RecordCorners | src/main.rs:291-309 | one loop pass appends, for every vertex, the triangle index once per matching corner, and gives a list to exactly the corners |
| Mesh.Polyhedron.constructor | src/main.rs:77-85 | a new polyhedron has every field empty and a valid store |
| Mesh.Polyhedron.WithCells | src/main.rs:89-116 | the base polyhedron starts with the table cells and no positions, with a valid store |
| Mesh.Polyhedron.AddPosition | src/main.rs:198-214 | the new store and the index returned are `Welding.Insert` of the old store, so any appended position is the vertex itself; cells and faces are unchanged |
| Mesh.Polyhedron.PushWelded | src/main.rs:184-193 | the new store is three `Welding.Insert`s of the old one, of `pa`, `pb` and `pc` in that order, and the triangle of the three returned indices is appended to `cells`; every corner stays a position index |
| Mesh.Polyhedron.PushLatticeCell | src/main.rs:183-193 | for even `j` the upward cell and for odd `j` the downward one: its three lattice points are welded in the program's order, so the new store is three `Welding.Insert`s of the old one, of the corners of `CornersOf` in order; the cell follows `CornersOf`, and only lattice points are added |
| Mesh.Polyhedron.PushCell | src/main.rs:193 | the cell is appended and nothing else changes |
| Mesh.Polyhedron.EmitCell | src/main.rs:179-194 | one inner pass pushes exactly one cell, welded to the lattice points of triangle `j` of row `i`; the new store is three `Welding.Insert`s of those points, in the program's order |
| Mesh.Polyhedron.EmitRow | src/main.rs:178-195 | one outer pass pushes the `2 (cols - i) - 1` cells of row `i`, in pattern order |
| Mesh.Polyhedron.SubdivideTriangle | src/main.rs:151-196 | exactly `4^detail` cells are appended; they follow the emission pattern over the lattice of `a`, `b`, `c`, every corner is a position index, and every appended position is a lattice point |
| Mesh.Polyhedron.Subdivide | src/main.rs:142-149 | every cell of `other` in order becomes a block of `4^detail` cells over its lattice, so `|other.cells| * 4^detail` cells are appended, and every appended position is a point of one of those lattices |
| Mesh.Polyhedron.SubdivideBaseCell | src/main.rs:143-148 | one pass of the loop appends the block of base cell `t` right after the blocks before it, and adds only points of its lattice |
| Mesh.Polyhedron.BaseIcosahedron | src/main.rs:87-128 | the base polyhedron holds the twenty table cells and the twelve base positions in order, all welded apart |
| Mesh.Polyhedron.NewIcosahedron | src/main.rs:87-133 | the icosahedron of `detail` has `20 * 4^detail` cells; block `t` is the subdivision of base cell `t`, every corner is a position index, and every position is a lattice point of some base cell |
| Mesh.Polyhedron.VertToFaces | src/main.rs:288-312 | a vertex has a list exactly when it lies on some triangle, and its list is `Incident`: its triangles in ascending order, once per matching corner |
| Mesh.Polyhedron.TriangleCentroids | src/main.rs:314-322 | the map holds the centroid of every cell, keyed by the cell index |
| Mesh.Polyhedron.PushPair | src/main.rs:269-280 | the two cells are appended in order, and every corner stays a position index |
| Mesh.Polyhedron.AddPositionPair | src/main.rs:264-267 | the new store is two `Welding.Insert`s of the old one, of `p` and then `q`, with their indices returned; only `p` and `q` are appended |
| Mesh.Polyhedron.AddFanPoints | src/main.rs:264-267 | the centre, the centroid, `mid_b` and `mid_c` are welded, each index names a position welded to its point, and only those four points are added |
| Mesh.Polyhedron.EmitFanPair | src/main.rs:264-280 | centre, centroid, `mid_b` and `mid_c` are welded; `(center, mid_c, centroid)` and `(center, centroid, mid_b)` are pushed, and their two consecutive indices are appended to the face; only those four points are added |
| Mesh.Polyhedron.FanTriangleMids | src/main.rs:237-262 | the mid-centroids of one fan triangle are found exactly when it can be truncated; otherwise the error names the panic. On success the result is the two `calculate_mid_centroid` results, across the edges to `other_verts[0]` and then `other_verts[1]`, with the cache they leave; these are the midpoints across those edges, and the cache only grows and stays sound |
| Mesh.Polyhedron.EmitFanStep | src/main.rs:264-280 | after the pair of one more triangle, with its mid-centroid corners welded to the midpoints across its edges, the face is still the run of the cells pushed for the fan |
| Mesh.Polyhedron.TruncateFanTriangle | src/main.rs:236-280 | one pass of the fan loop fails exactly when its triangle cannot be truncated; otherwise it pushes the triangle's pair after the pairs of the triangles behind it, with its centroid and its two mid-centroids welded, and keeps the cache sound |
| Mesh.Polyhedron.TruncateFan | src/main.rs:236-281 | the reverse fan loop succeeds exactly when every triangle can be truncated; it then pushes `2 |faces|` cells, one pair per triangle from the last to the first, each welded to the centre, its centroid and its two mid-centroids, and the face lists their indices in order; only those points are added |
| Mesh.Polyhedron.TruncateVertex | src/main.rs:232-282 | the face of vertex `i` is pushed after the faces of the vertices before it, and holds its fan's pairs around the centre of its centroids, with their mid-centroids welded; only the centre, centroids and mid-centroids are added |
| Mesh.Polyhedron.TruncateStep | src/main.rs:224-283 | a vertex without a list is a panic; otherwise it counts as a hexagon when it has six triangles and as a pentagon otherwise, and is truncated |
| Mesh.Polyhedron.TruncateVertices | src/main.rs:221-283 | the vertex loop succeeds exactly when every vertex can be truncated; it then pushes one face per vertex, `2 * DegreeSum` cells, and hexagons plus pentagons equal the vertex count |
| Mesh.Polyhedron.Truncated | src/main.rs:216-286 | the truncation succeeds exactly when the mesh is `Truncatable`, and an error names a real panic; on success one face per original vertex and `6 * other.cells.len()` cells are appended, every vertex is truncated in order (its pairs welded to the centre, the centroids and the mid-centroids), and hex + pent counts equal the vertex count; every appended position is a centre, a centroid or a midpoint of two centroids |
| Mesh.Polyhedron.NewTruncatedIcosahedron | src/main.rs:135-140 | a successful truncation of the icosahedron of `detail` has `120 * 4^detail` cells |

## Left out

- Normals: `compute_triangle_normals` and `compute_face_normals` (src/main.rs:378-444) need cross products, dot products and square roots. The model keeps only the zero normal that `add_position` pushes.
- Serialisation and file output: the `Serialize` impls, `generate_icosahedron_files`, `generate_hexsphere_files`, `main` and all of src/bin.rs. These are I/O and foreign library calls.
- Floating point: `f32` values are modelled as exact reals. Rounding of `lerp`, division and `calculate_centroid` is not modelled. `normalize` needs a square root, so it is a parameter of the subdivision.
- Quantisation is modelled exactly (scale, round half away from zero, saturating `i32` cast). `Geometry.QuantizeBounds` states its accuracy only where the scaled coordinate fits in `i32`.
- Vertex counts such as `10 * 4^detail + 2` depend on float rounding giving identical keys at the seams between lattices, so they are not stated. Cell counts are stated.
- Integer width: `usize` is unbounded here. Overflow of `2usize.pow(detail)` and of the indices is not modelled.
- The `println!` of the hexagon and pentagon counts (src/main.rs:284-285) becomes the pair of counts that `Truncated` returns.
- Panics are modelled as an `Err` result. After a panic the model only states that the store stays valid and the lists were only appended to. The program has stopped at that point.
- Mesh.Polyhedron.Subdivide: requires every corner of `other` to be a position index. The program indexes `other.positions` with the corners without a check, and the model does not model that out-of-bounds panic. Every mesh the program builds satisfies the requirement.
- Mesh.Polyhedron.Truncated: requires every corner of `other` to be a position index, for the same reason (`triangle_centroids` indexes `other.positions` without a check).
- Mesh.CenterOfTriangles: requires a non-empty list. The program would divide by zero (NaN in `f32`) on an empty one, but `truncated` only passes fans of vertices that have a list, and those lists are never empty.
- Mesh.Polyhedron.Truncated: states the welding of a mid-centroid corner to the midpoint across its edge only where that edge lies on exactly two triangles. Where three or more triangles share the edge, a triangle can read back the midpoint another triangle cached (`Dual.SharedKeyReadBack`), and the model does not say which value each corner gets.
- Mesh.Polyhedron.EmitRow: states which lattice points each pushed cell is welded to and that only lattice points are added, but not the order in which positions are appended across the cells of the row. The order of the three welds of one cell is stated by `EmitCell` and `PushLatticeCell`.
- Mesh.Polyhedron.SubdivideTriangle: states the welds of every cell and that only lattice points are added, but not the order in which positions are appended across cells, for the same reason as `EmitRow`.
- Mesh.Polyhedron.Subdivide: states the welds of every cell and that only lattice points are added, but not the order in which positions are appended across cells and base cells.
- Mesh.Polyhedron.NewIcosahedron: states the welds of every cell and that every position is a lattice point of some base cell, but not the order of the positions after the twelve base positions.
- Mesh.Polyhedron.EmitFanPair: states which welded index each corner of the two cells gets, and that only the four points are added, but not the order of the four welds.
- Mesh.Polyhedron.AddFanPoints: does not state the order of its four welds as one chain of `Welding.Insert`s. It makes two `AddPositionPair` calls, centre and centroid first, then `mid_b` and `mid_c`, and each call states the order of its own two welds. Stating all four in its own contract makes the proofs of its callers too large for the solver.
- Mesh.Polyhedron.NewTruncatedIcosahedron: states the cell count only. Whether the subdivided icosahedron is `Truncatable` depends on the welding at the lattice seams, which depends on float rounding.
- Dual.CalculateMidCentroid: the `&mut` cache is modelled as a value passed in and returned.
- The cache key includes the adjacent face. Inside one fan where every edge lies on exactly two triangles, the two triangles on either side of an edge therefore use different keys, so a mid-centroid is cached but never read back within that fan. When three triangles share an edge, two of them can find the same neighbour and so use the same key. The second then reads back the midpoint of the first triangle's centroid and the neighbour's, not the midpoint across its own edge; `Dual.SharedKeyReadBack` shows this for three triangles on one edge. Where every edge lies on exactly two triangles this case does not arise.
- The twelve `add_position` calls of `new_isocahedron` are written out in the program; `Mesh.Polyhedron.BaseIcosahedron` runs them as a loop over `BASE_POSITIONS`.
- The bodies of the loops of `subdivide_triangle` and `truncated` are split into helper methods (`EmitCell`, `EmitRow`, `PushLatticeCell`, `PushCell`, `SubdivideBaseCell`, `FanTriangleMids`, `AddFanPoints`, `EmitFanStep`, `TruncateFanTriangle`, `TruncateVertex`, `TruncateStep`). Each helper keeps the program's order of welds and pushes.
