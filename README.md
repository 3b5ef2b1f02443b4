# mish-mesh in Dafny

A model of the core of mish-mesh, a Rust crate that builds indexed triangle
meshes. The model covers these parts:

- **Builder** (`MeshBuilding`). A `MeshBuilder` collects triangles whose
  corners are references to caller-owned vertices. Polygons become fans.
  A quad is split along its shorter diagonal. Patches feed many faces at
  once. `stitch` and `stitch_loop` join two strands with a strip of quads,
  and `sinch_loop` closes a loop onto a knot vertex. `finish` numbers every
  distinct vertex *identity* in first-encounter order and rewrites each
  triangle as an index triple.
- **Mesh and triangle accessors** (`Meshes`, `Triangles`). These are the
  flat index stream, the mapped stream, the triangles as vertex triples,
  whole-mesh `map`, the editable vertex buffer, and the `Tri` corner, map
  and edge operations.
- **Spatial merge** (`Merging`, `MergeProperties`). `merge_by_distance` is
  a seed-anchored clustering. The smallest pending index becomes a seed.
  It absorbs every pending vertex within the radius of its own position,
  and nothing is absorbed transitively. Triangles are then remapped, and
  those that collapse are dropped. The model has two halves:
  - the seed loop of the source, as a `method` over Dafny maps;
  - an index-order reference clustering (`Cluster`), which the method is
    proved to compute.
- **Pieces** (`Pieces`, `PieceIteration`). This part covers:
  - the integer side of `UMap` (index ranges, offsets, `reduce`) and the
    `umap!` macro forms;
  - sampled rectangular patches (`MeshPatch`);
  - polar triangle patches (`MeshTriPatch`);
  - strands (`MeshStrand`);
  - virtual segments along patch borders and strands
    (`VirtualMeshLinearSegment`);
  - the face streams that iterating a patch or a triangle patch produces;
  - `Flipped`, which reverses the winding of every face.

Modelling conventions:

- Rust `Vec`s, boxed slices and fixed arrays `[T; N]` are `seq`s.
- A builder reference `&'v V` is a `Handle`. A handle is an index into the
  vertex storage the builder borrows from, which the class keeps as
  `store`. Two corners are the same vertex exactly when their handles are
  equal. This models the source's `ByAddress` identity map.
- Positions are integer `Vec3`s. The position accessor of `VertexPosition`
  is a parameter `pos: V -> Vec3`.
- The scalar parameter that `UMap::map` produces is a parameter
  `interp: (UMap, nat) -> real`, so patches and strands are described by
  which index they sample, and not by floating-point values.
- `usize` subtraction that would underflow and out-of-range indexing are
  panics in the source. Out-of-range indexing always panics. Underflow
  panics only with overflow checks on (the debug default), and wraps in a
  release build. The model follows the checked behaviour. They appear as `requires` clauses. An explicit
  `panic!` is a `Failure` result. `isize as usize` casts wrap modulo 2^64
  (`Pieces.AsUsize`).

## Model

| member | source | states |
|---|---|---|
| MeshBuilding.MeshBuilder.constructor | src/mesh_builder.rs:19-23 | a new builder holds no triangles and borrows the given vertex storage |
| MeshBuilding.MeshBuilder.AddPoly | src/mesh_builder.rs:25-29 | appends exactly the fan of the polygon to the triangles, and keeps every handle in the storage |
| MeshBuilding.Fan | src/mesh_builder.rs:25-29 | an N-gon gives N-2 triangles (none for N below 3) |
| MeshBuilding.FanShape | src/mesh_builder.rs:26-28 | triangle i of the fan is (poly[0], poly[i+1], poly[i+2]) |
| MeshBuilding.FanOfTriangle | src/mesh_builder.rs:25-29 | a triangle added as a polygon is added unchanged |
| MeshBuilding.MeshBuilder.AddQuad | src/mesh_builder.rs:31-41 | appends exactly the two triangles of the quad's split |
| MeshBuilding.Split | src/mesh_builder.rs:31-41 | a quad always gives two triangles, each of three corners in the storage |
| MeshBuilding.Polys | src/mesh_builder.rs:43-47 | every triangle that feeding polygons through `add_poly` adds has three corners |
| MeshBuilding.Quads | src/mesh_builder.rs:49-53 | every triangle that feeding quads through `add_quad` adds has three corners, all in the storage |
| MeshBuilding.SplitIsFanOfShorterDiagonal | src/mesh_builder.rs:32-40 | if diagonal 0-2 is strictly shorter, the split is the fan from corner 0 and both triangles contain 0 and 2; otherwise it is the fan from corner 1 and both contain 1 and 3 |
| MeshBuilding.MeshBuilder.Patch | src/mesh_builder.rs:43-47 | appends the fans of the faces, in stream order |
| MeshBuilding.PolysCount | src/mesh_builder.rs:43-47 | a patch of F faces with N corners each adds F*(N-2) triangles |
| MeshBuilding.PolysIsFlatten | src/mesh_builder.rs:43-47 | the triangles `patch` adds are the concatenation of each face's fan |
| MeshBuilding.MeshBuilder.PatchQuads | src/mesh_builder.rs:49-53 | appends the splits of the quads, in stream order |
| MeshBuilding.QuadsCount | src/mesh_builder.rs:49-53 | Q quads add 2Q triangles, and triangles 2k and 2k+1 are the split of quad k |
| MeshBuilding.MeshBuilder.Stitch | src/mesh_builder.rs:55-62 | appends the splits of the quads (left[k], right[k], right[k+1], left[k+1]), for as far as both strands reach; nothing if either strand is empty |
| MeshBuilding.StitchQuads | src/mesh_builder.rs:55-62 | the stitch strip has min(len left, len right) - 1 quads, quad k joining pairs k and k+1; no quads if either strand is empty |
| MeshBuilding.StitchCount | src/mesh_builder.rs:55-62 | stitching adds 2*(min(len left, len right) - 1) triangles, and none if either strand is empty |
| MeshBuilding.MeshBuilder.StitchLoop | src/mesh_builder.rs:64-75 | appends the stitch strip followed by the closing quad (left[m], right[m], right[0], left[0]) at the last pair m the zip reached |
| MeshBuilding.StitchLoopQuads | src/mesh_builder.rs:64-75 | the loop has min(len left, len right) quads; the last one closes back to the first pair |
| MeshBuilding.StitchLoopCount | src/mesh_builder.rs:64-75 | a loop adds 2*min(len left, len right) triangles; strands of one vertex each give a single degenerate quad |
| MeshBuilding.MeshBuilder.SinchLoop | src/mesh_builder.rs:77-87 | appends one triangle (seam[k], seam[k+1], knot) per seam edge and a closing (seam[last], seam[0], knot); nothing for an empty seam |
| MeshBuilding.SinchFaces | src/mesh_builder.rs:77-87 | a seam of n vertices gives n triangles around the knot, the last one wrapping to seam[0] |
| MeshBuilding.SinchFacesAreTriangles | src/mesh_builder.rs:77-87 | every face of a sinch is a triangle of handles into the storage |
| MeshBuilding.MeshBuilder.Finish | src/mesh_builder.rs:169-196 | the loop with its identity map returns exactly the reference mesh `Finished` of the accumulated triangles |
| MeshBuilding.FinishedShape | src/mesh_builder.rs:169-196 | the finished mesh has one index triple per triangle, every index is in range, and each corner's vertex is the value the handle referred to |
| MeshBuilding.FinishedIdentity | src/mesh_builder.rs:171-188 | two corners get the same index if and only if they are the same source vertex (equal handles), whatever the vertex values |
| MeshBuilding.FinishedVertexCount | src/mesh_builder.rs:171-188 | the vertex buffer has one entry per distinct handle used by the triangles |
| MeshBuilding.FinishedFlat | src/mesh_builder.rs:175-189 | the mesh's flat index stream numbers each handle by the position of its first encounter |
| MeshBuilding.FinishedCorner | src/mesh_builder.rs:176-188 | corner c of triangle k is the first-encounter number of its handle |
| MeshBuilding.FinishedFlatAt | src/mesh_builder.rs:175-189 | entry p of the flat index stream is the first-encounter number of handle p of the flattened triangles |
| MeshBuilding.FinishedFirstEncounter | src/mesh_builder.rs:181-186 | every vertex index occurs in the index stream, and indices first occur in increasing order |
| MeshBuilding.FinishedFromNumbering | src/mesh_builder.rs:171-189 | a numbering map and rewritten triangles that agree with the first-encounter order make up exactly the finished mesh |
| MeshBuilding.EncounterFacts | src/mesh_builder.rs:180-187 | the first-encounter order holds each used handle once, only used handles, in order of first use |
| MeshBuilding.Encounter | src/mesh_builder.rs:175-189 | the first-encounter order is no longer than the handle scan and starts with the first handle scanned |
| MeshBuilding.Finished | src/mesh_builder.rs:169-196 | one vertex per entry of the first-encounter order, so at most three per triangle, and one index triple per input triangle |
| MeshBuilding.IndexOf | src/mesh_builder.rs:180-187 | the position of the first occurrence of a handle, past the end exactly when it is absent |
| MeshBuilding.DistinctCard | src/mesh_builder.rs:182-184 | a duplicate-free handle sequence has as many entries as distinct handles |
| Meshes.TrisFlat | src/mesh.rs:22-28 | the flat index stream has three entries per triangle, entry 3k+j being corner j of triangle k |
| Meshes.TrisFlatAt | src/mesh.rs:22-28 | entry p of the flat stream is corner p mod 3 of triangle p div 3 |
| Meshes.TrisFlatMapped | src/mesh.rs:30-32 | the mapped flat stream applies f to every entry of the flat index stream |
| Meshes.TriVerts | src/mesh.rs:34-36 | triangle k as vertex values is the triple of vertices its indices name |
| Meshes.TriVertsAgreeWithFlat | src/mesh.rs:22-36 | corner j of the k-th vertex triangle is the vertex at entry 3k+j of the flat index stream, and that index is in range |
| Meshes.Map | src/mesh.rs:38-41 | mapping keeps the triangles and applies f to every vertex |
| Meshes.MapPreservesValid | src/mesh.rs:38-41 | mapping keeps every index in range |
| Meshes.MapCommutesWithTriVerts | src/mesh.rs:34-41 | the vertex triangles of the mapped mesh are the mapped vertex triangles |
| Meshes.SetVert | src/mesh.rs:14-16 | an edit through the vertex buffer changes one vertex and keeps the triangles and the length |
| Meshes.SetVertPreservesValid | src/mesh.rs:14-16 | such an edit keeps every index in range |
| Triangles.New | src/tri.rs:12-14 | the corners of a new triangle are its arguments, in order |
| Triangles.Corners | src/tri.rs:32-40 | iterating a triangle yields three corners |
| Triangles.MapOut | src/tri.rs:16-18 | the array of f applied to each corner, in order |
| Triangles.Map | src/tri.rs:20-22 | the corners of the mapped triangle are `map_out` of the triangle |
| Triangles.MapIdentity | src/tri.rs:20-22 | mapping with the identity gives the same triangle |
| Triangles.MapCompose | src/tri.rs:20-22 | mapping by f then g equals mapping by their composition |
| Triangles.Edges | src/tri.rs:24-30 | the three edges run from corner k to corner k+1 mod 3 |
| Triangles.EdgesCoverCorners | src/tri.rs:24-30 | each corner starts one edge and ends the edge before it, so the edges form a closed loop |
| Vertex.SqrMagn | src/merge_by_distance.rs:36 | a squared length is never negative and is zero only for the zero vector |
| Vertex.SqrDistSymmetric | src/merge_by_distance.rs:36 | the squared distance does not depend on the order of the two points |
| Merging.Positions | src/merge_by_distance.rs:18-21 | the position of every vertex, in vertex order |
| Merging.BuildTree | src/merge_by_distance.rs:15-21 | the spatial index holds every vertex position under its index, and the pending map holds every vertex under its index |
| Merging.Within | src/merge_by_distance.rs:36 | the radius query returns exactly the indices whose distance from the query point is at most the squared radius |
| Merging.WithinFrom | src/merge_by_distance.rs:36 | the radius query restricted to the indices from i on |
| Merging.NextPending | src/merge_by_distance.rs:28 | advances i to the first index that is still pending, skipping only indices that are not |
| Merging.TakeSeed | src/merge_by_distance.rs:31-40 | removes the seed and every pending vertex within its radius; maps the seed and exactly those vertices to the new output index, and keeps every other entry |
| Merging.SeedPass | src/merge_by_distance.rs:27-41 | one round of the loop takes the next reference seed and keeps the loop invariant; the output grows by one vertex |
| Merging.SeedLoopDone | src/merge_by_distance.rs:27-43 | when nothing is pending, the output vertices and the index map are those of the reference clustering |
| Merging.MergeWith | src/merge_by_distance.rs:13-50 | for any metric, the method builds exactly the reference merged mesh |
| Merging.MergeByDistance | src/merge_by_distance.rs:13-50 | with squared Euclidean distance and radius distance², it builds exactly `Merged` |
| Merging.FirstNear | src/merge_by_distance.rs:27-40 | the earliest seed whose radius holds vertex k, or none |
| Merging.FirstNearFrom | src/merge_by_distance.rs:27-40 | the earliest seed from position i on whose radius holds vertex k, or none |
| Merging.SeedsUpTo | src/merge_by_distance.rs:27-41 | the seeds among the first n vertices are indices below n, at most n of them |
| Merging.SlotOf | src/merge_by_distance.rs:34-39 | each vertex belongs to a seed taken no later than itself |
| Merging.Cluster | src/merge_by_distance.rs:23-41 | every vertex has a slot, and seeds are vertex indices |
| Merging.SeedsStep | src/merge_by_distance.rs:27-41 | vertex n becomes a seed exactly when no earlier seed's radius holds it |
| Merging.SeedsExtend | src/merge_by_distance.rs:27-41 | the seeds among the first m vertices are a prefix of those among the first n, and the later ones are at least m |
| Merging.VertexStep | src/merge_by_distance.rs:27-41 | seeds before k are the seeds found scanning the first k vertices, later seeds exceed k, and k is a seed if and only if no earlier seed's radius holds it |
| Merging.SeedOwnsSlot | src/merge_by_distance.rs:31-34 | the j-th seed is taken in round j and maps to output index j |
| Merging.SeedsIncrease | src/merge_by_distance.rs:28 | seeds are taken in increasing index order, and seed j maps to output index j |
| Merging.SlotOfVertex | src/merge_by_distance.rs:31-40 | every vertex maps to an output index taken by a seed no later than itself |
| Merging.SlotIsEarliestNearSeed | src/merge_by_distance.rs:36-40 | a vertex absorbed by its seed lies within the seed's radius, and no earlier seed's radius holds it |
| Merging.SeedIffNoEarlierNearSeed | src/merge_by_distance.rs:28-40 | a vertex represents itself if and only if no earlier seed's radius holds it |
| Merging.BeforeSeed | src/merge_by_distance.rs:28 | every vertex before seed t was assigned in an earlier round |
| Merging.AbsorbedBySeed | src/merge_by_distance.rs:36-40 | a vertex still pending when seed t is taken is absorbed in that round if and only if it lies within the seed's radius |
| Merging.RoundNeighbours | src/merge_by_distance.rs:36-40 | in round t, the pending vertices the query returns are exactly those that map to t |
| Merging.Remap | src/merge_by_distance.rs:44 | each corner goes through the index map |
| Merging.RemapFilter | src/merge_by_distance.rs:44 | the kept triangles are no more than the input, and each has three distinct indices |
| Merging.RemapFilterExactly | src/merge_by_distance.rs:44 | a remapped triangle is kept if and only if its indices are pairwise distinct |
| Merging.RemapFilterBounded | src/merge_by_distance.rs:44 | when every index-map value is below a bound, so is every index of a kept triangle |
| Merging.RemapFilterIdentity | src/merge_by_distance.rs:44 | an identity map over non-degenerate triangles keeps them all, in order |
| Merging.KeptIndices | src/merge_by_distance.rs:44 | the positions, in increasing order, of exactly the input triangles whose remapped corners are pairwise distinct |
| Merging.RemapFilterInOrder | src/merge_by_distance.rs:44 | kept triangle j is the remap of the input triangle at `KeptIndices` j, so the kept triangles keep input order and appear once each |
| Merging.SlotMap | src/merge_by_distance.rs:23-39 | the index map has one entry per original vertex, holding its output index |
| Merging.SlotsRemappable | src/merge_by_distance.rs:44 | the index map covers every corner of the input mesh |
| Merging.MergedVertices | src/merge_by_distance.rs:24-34 | the output holds one vertex per seed, namely the seed's own value, so it never has more vertices than the input |
| Merging.MergedWith | src/merge_by_distance.rs:13-50 | the merged mesh has no more vertices and no more triangles than the input, and every triangle has three distinct indices |
| Merging.Merged | src/merge_by_distance.rs:13-50 | under squared Euclidean distance against distance², the merged mesh has no more vertices and no more triangles than the input, and every triangle has three distinct indices |
| Merging.MergedValid | src/merge_by_distance.rs:43-49 | the merged mesh keeps every index in range and has no degenerate triangle |
| MergeProperties.AllSeedsWhenFar | src/merge_by_distance.rs:27-41 | when no vertex lies within the radius of an earlier one, every vertex is a seed |
| MergeProperties.ClusterIdentityWhenFar | src/merge_by_distance.rs:27-41 | then every vertex maps to itself |
| MergeProperties.SeedsPairwiseFar | src/merge_by_distance.rs:36-40 | no seed lies within the radius of an earlier seed |
| MergeProperties.MergedPositionsFar | src/merge_by_distance.rs:13-50 | in a merged mesh no vertex lies within the radius of an earlier one |
| MergeProperties.MergeIdempotent | src/merge_by_distance.rs:13-50 | merging a merged mesh again with the same metric and radius changes nothing |
| MergeProperties.MergeByDistanceIdempotent | src/merge_by_distance.rs:13-50 | merging twice with the same distance is merging once |
| MergeProperties.PairClusters | src/merge_by_distance.rs:27-41 | two points 10 apart form one cluster under squared radius 10000 and two under squared radius 1 |
| MergeProperties.CloseVerticesCollapse | src/merge_by_distance.rs:13-50 | two points 10 apart merge to the first at distance 100, and stay two at distance 1 |
| MergeProperties.LineClusters | src/merge_by_distance.rs:36-40 | on the points 0, 2, 4 with squared radius 9 the clusters are {0, 2} and {4}: no chaining |
| MergeProperties.NoChaining | src/merge_by_distance.rs:36-40 | merging the points 0, 2, 4 at distance 3 leaves the points 0 and 4 |
| MergeProperties.FanClusters | src/merge_by_distance.rs:27-41 | the fan point set (0,0), (10,0), (10,7), (10,-7) gives seeds [0, 1] under squared radius 64 and [0, 2, 3] under 121; no pairwise distance equals either radius |
| MergeProperties.LargerDistanceMoreVertices | src/merge_by_distance.rs:27-41 | a larger distance can leave more vertices: the fan keeps 2 at distance 8 and 3 at distance 11 |
| Pieces.AsUsize | src/pieces.rs:208 | an isize cast to usize keeps non-negative values and wraps negative ones by 2^64 |
| Pieces.Resolve | src/pieces.rs:215-217 | a plain index is itself; `Len - k` is k before the length |
| Pieces.Iter | src/pieces.rs:24-26 | iter.0..=iter.1 in increasing order, empty when iter.0 > iter.1 |
| Pieces.IterRange | src/pieces.rs:24-38 | i is iterated exactly when iter.0 <= i <= iter.1; there are len+1 indices, and is_empty means one index |
| Pieces.InputSize | src/pieces.rs:28-30 | the input size added to input.0 gives input.1 |
| Pieces.Len | src/pieces.rs:32-34 | the length added to iter.0 gives iter.1 |
| Pieces.IsEmpty | src/pieces.rs:36-38 | a map is empty exactly when its iteration starts and ends at the same index |
| Pieces.StartOffset | src/pieces.rs:40-42 | input.0 plus the start offset is iter.0 |
| Pieces.EndOffset | src/pieces.rs:43-45 | iter.1 plus the end offset is input.1 |
| Pieces.Reduce | src/pieces.rs:55-64 | reducing by n lowers both upper ends by n; the starts, the output range and both offsets stay, and len and input_size drop by n |
| Pieces.UMapOf | src/pieces.rs:67-117 | each umap! form covers the input from min to max, with offset 1 at an excluded end, and output endpoints given or defaulted to 0 and 1 |
| Pieces.MakePatch | src/pieces.rs:145-172 | panics if and only if the u map iterates no index; otherwise returns the sampled patch with the u and v input sizes and offsets |
| Pieces.PatchGrid | src/pieces.rs:146-156 | the sampled grid has one row per u index, and every row has one entry per v index |
| Pieces.Patch | src/pieces.rs:145-172 | the patch `make` returns holds the sampled grid, the u and v input sizes, and the start and end offsets of both maps |
| Pieces.PatchGridShape | src/pieces.rs:146-156 | row a of the patch samples u index iter.0+a, and entry b samples v index iter.0+b |
| Pieces.PatchRectangular | src/pieces.rs:146-156 | a patch has one row per u index and one entry per v index in every row |
| Pieces.VertSamplesInput | src/pieces.rs:207-221 | `vert(i, j)` is the sample at input indices i and j (`Len - k` counting from input end), for every index the maps iterate |
| Pieces.Quad | src/pieces.rs:198-205 | four corners, in order (i, j), (i+1, j), (i+1, j+1), (i, j+1) |
| Pieces.MapI | src/pieces.rs:207-209 | an input index at or past the u start offset maps to the stored row that many places after it |
| Pieces.MapJ | src/pieces.rs:211-213 | an input index at or past the v start offset maps to the stored column that many places after it |
| Pieces.Vert | src/pieces.rs:215-221 | the stored vertex at the row and column that `map_i` and `map_j` give for the resolved indices |
| Pieces.LenU | src/pieces.rs:223-225 | the number of stored rows, which `Pieces.PatchRectangular` ties to the number of u indices of a made patch |
| Pieces.LenV | src/pieces.rs:226-228 | the length of the first stored row, which `Pieces.PatchRectangular` ties to the number of v indices when the patch has a row |
| Pieces.UStart | src/pieces.rs:174-180 | a segment with the v offsets and v input size, whose entry at input index j is entry `map_j(j)` of the first row |
| Pieces.UEnd | src/pieces.rs:181-185 | a segment with the v offsets and v input size, whose entry at input index j is entry `map_j(j)` of the last row |
| Pieces.VStart | src/pieces.rs:186-192 | a segment with the u offsets and u input size, whose entry at input index i is the first entry of row `map_i(i)` |
| Pieces.VEnd | src/pieces.rs:193-197 | a segment with the u offsets and u input size, whose entry at input index i is the last entry of row `map_i(i)` |
| Pieces.Verts | src/pieces.rs:420-427 | the vertices at the resolved indices start..end, in order, none when start >= end |
| Pieces.Verts1 | src/pieces.rs:429-436 | the one vertex at the resolved index |
| Pieces.All | src/pieces.rs:438-443 | the vertices from the start offset to one past the last iterated index, in order |
| Pieces.AllCoversIteration | src/pieces.rs:438-443 | for a segment built from a map, `all` spans exactly the iterated indices |
| Pieces.UStartIsFirstRow | src/pieces.rs:174-180 | `u_start().all()` is the first row of the patch |
| Pieces.UEndIsLastRow | src/pieces.rs:181-185 | `u_end().all()` is the last row |
| Pieces.VStartIsFirstColumn | src/pieces.rs:186-192 | `v_start().all()` is the first entry of every row |
| Pieces.VEndIsLastColumn | src/pieces.rs:193-197 | `v_end().all()` is the last entry of every row |
| Pieces.PolarRow | src/pieces.rs:275-283 | row n samples r index iter.0+n against the theta map reduced by n |
| Pieces.MakePolar | src/pieces.rs:273-286 | the loop builds exactly the polar grid |
| Pieces.PolarGrid | src/pieces.rs:273-286 | one row per r index, row n being the theta map reduced by n sampled at the n-th r index |
| Pieces.PolarRowsShrink | src/pieces.rs:273-286 | there is one row per r index, the first row is as long as the theta range, and each row is one shorter than the one before |
| Pieces.MakeStrand | src/pieces.rs:318-336 | panics if and only if the map iterates no index; otherwise returns the sampled strand with its input size and offsets |
| Pieces.StrandVerts | src/pieces.rs:319-324 | one vertex per iterated index, vertex a sampling index iter.0+a |
| Pieces.Strand | src/pieces.rs:318-336 | the strand `make` returns holds those vertices, the input size and both offsets |
| Pieces.Start | src/pieces.rs:338-340 | the first stored vertex, which `Pieces.StrandEnds` shows is the sample at iter.0 |
| Pieces.End | src/pieces.rs:342-344 | the last stored vertex, which `Pieces.StrandEnds` shows is the sample at iter.1 |
| Pieces.StrandLen | src/pieces.rs:360-363 | the number of stored vertices, which `Pieces.StrandEnds` shows is len+1 |
| Pieces.Seam | src/pieces.rs:350-358 | a segment with the strand's offsets and input size, whose entry at input index i is stored vertex `map_i(i)` |
| Pieces.StrandEnds | src/pieces.rs:338-344 | start and end sample the first and last iterated index, and the strand has len+1 vertices |
| Pieces.SeamIsStrand | src/pieces.rs:350-358 | the seam of a strand yields the whole strand in order |
| PieceIteration.PatchFacesByRow | src/pieces/iter.rs:17-25 | iterating a rectangular patch yields its quads row by row |
| PieceIteration.PatchFaces | src/pieces/iter.rs:12-25 | every face of the stream from zipping the four flattened row streams has four corners |
| PieceIteration.RowQuadsAreQuads | src/pieces/iter.rs:17-25 | a row of w vertices yields w-1 quads, quad c being `quad(i, c)`: (v[i][c], v[i+1][c], v[i+1][c+1], v[i][c+1]) |
| PieceIteration.PatchFacesCount | src/pieces/iter.rs:17-25 | a patch of R rows of q+1 vertices yields (R-1)*q quads |
| PieceIteration.PatchFaceAt | src/pieces/iter.rs:17-25 | the quad at row-major position (r, c) is the one at row r, column c |
| PieceIteration.PatchFacesRowMajor | src/pieces/iter.rs:17-25 | every face of the patch stream is its quad at its row-major position |
| PieceIteration.QuadRows | src/pieces/iter.rs:17-25 | one row of quads per pair of adjacent vertex rows |
| PieceIteration.QuadRowsUniform | src/pieces/iter.rs:17-25 | every row of quads of a rectangular patch has the same width |
| PieceIteration.CheckedRange | src/pieces/iter.rs:37-45 | the slice min..max when min <= max, and empty otherwise |
| PieceIteration.Interior | src/pieces/iter.rs:52 | a row without its first and last vertex (`checked_range(1, Len-1)`), empty for a row of one |
| PieceIteration.DropFirst | src/pieces/iter.rs:47-54 | `skip(1)` and `[1..]`: every element but the first |
| PieceIteration.DropLast | src/pieces/iter.rs:18-53 | `[..len-1]`: every element but the last |
| PieceIteration.Inits | src/pieces/iter.rs:18-53 | each row without its last vertex |
| PieceIteration.Tails | src/pieces/iter.rs:20-54 | each row without its first vertex |
| PieceIteration.Interiors | src/pieces/iter.rs:52 | each row without its end vertices |
| PieceIteration.Part1 | src/pieces/iter.rs:47-50 | every face of `part1` has three corners |
| PieceIteration.Part2 | src/pieces/iter.rs:52-55 | every face of `part2` has three corners |
| PieceIteration.TriPatchFaces | src/pieces/iter.rs:31-58 | the stream is `part1` followed by `part2`: as long as both together, `part1`'s faces first, then `part2`'s, each of three corners |
| PieceIteration.OuterFans | src/pieces/iter.rs:47-50 | one run of outer triangles per pair of adjacent rows |
| PieceIteration.InnerFans | src/pieces/iter.rs:52-55 | one run of inner triangles per pair of adjacent rows |
| PieceIteration.Part1ByRow | src/pieces/iter.rs:47-50 | on a staircase of rows, part1 is the outer triangles row by row |
| PieceIteration.Part2ByRow | src/pieces/iter.rs:52-55 | on a staircase of rows, part2 is the inner triangles row by row |
| PieceIteration.RowTriangles | src/pieces/iter.rs:47-55 | between rows a = rows[i] and b = rows[i+1], outer triangle k is (b[k], a[k+1], a[k]) for each vertex of b, and inner triangle k is (a[k+1], b[k], b[k+1]) for each edge of b |
| PieceIteration.PolarRowLength | src/pieces.rs:273-286 | row n of a polar patch has n fewer vertices than the theta range |
| PieceIteration.PolarTriangles | src/pieces/iter.rs:47-57 | iterating a polar patch yields all outer triangles, then all inner ones, row by row |
| PieceIteration.Flip | src/pieces/iter.rs:61-69 | each face is reversed, with the face count and sizes unchanged |
| PieceIteration.FlipFlip | src/pieces/iter.rs:61-69 | flipping twice restores every face |
| Seqs.Zip3Flatten | src/pieces/iter.rs:47-55 | zipping flattened streams whose blocks line up is flattening the block-wise zips |
| Seqs.Zip4Flatten | src/pieces/iter.rs:17-25 | the four-stream version, used by the patch iterator |
| Seqs.ReverseReverse | src/pieces/iter.rs:67 | reversing an array twice restores it |

## Left out

- Normal synthesis (src/mesh.rs:46-131) is not modelled. It is floating-point geometry with a parallel mode and per-vertex locks.
- The PLY reader and writer (src/ply) are not modelled. They are I/O and serialization.
- `UMap::map` (src/pieces.rs:47-53) is floating-point interpolation. It is the parameter `interp`. Its `usize` subtraction `i - input.0` becomes the requirement `Pieces.Samples`. `map` returns early when `input.0 == input.1` and then does not subtract, so `Samples` asks for `input.0 <= iter.0` even where the source would not need it. Every map built by `umap!` or `reduce` meets it anyway.
- `Tri::normal` (src/tri.rs:42-45) is floating-point geometry and is not modelled.
- The kiddo kd-tree is not modelled. The model replaces its `within_unsorted` query with a linear filter over the positions (`Merging.Within`). For that filter the model chooses an inclusive `<=` radius test; the source does not settle whether kiddo includes points exactly on the radius. The metric is a parameter, and `merge_by_distance` uses squared Euclidean distance against distance². The concrete point sets in `MergeProperties` keep every pairwise distance off the radius, so their results hold under a strict test as well.
- Merging.Within: returns the matching indices in increasing order. `within_unsorted` promises no order. This does not change the result, because every match is removed from the pending map in the same round.
- `ByAddress` identity is equality of handles into the borrowed storage. Raw addresses and lifetimes are not modelled.
- Iterators are modelled as the sequences they yield, so iterator laziness is not modelled. Iteration over a patch or triangle patch that has an empty row is not modelled: the face streams require every row to be non-empty (`PieceIteration.RowsNonEmpty`). In the source, such a patch yields a prefix of faces and may then panic on `v[..v.len()-1]` or `checked_range`, depending on where `zip` stops polling. For example, a polar patch whose only empty row is its last (r iterating 0..=1, theta 1..=1) yields the triangles of its other rows without panicking. With two or more empty rows it panics after those triangles. A one-row `MeshPatch` whose row is empty yields nothing. None of these cases is described by the model.
- Floating-point scalars are integers: positions are integer `Vec3`s and `distance` is an integer. The concrete point sets in `MergeProperties` are scaled to integers accordingly.
- `Aplable` for patches and strands (src/pieces.rs:235-265, 377-397) is not modelled. It applies a transform from ear_algae, an outside crate.
- The commented-out parallel `finish` (src/mesh_builder.rs:89-167) and the commented-out `VertexMerge` trait (src/vertex.rs:3-16) are dead code and are not modelled.
- src/vertex.rs and src/lib.rs are modelled only as types: a vertex type `V` with the position function `pos`, `Mesh`, `Tri` and `Seg`.
- `MeshTriPatch::r_start`, `r_end`, `theta_start` and `theta_end` (src/pieces.rs:288-302) are plain element reads of the row grid. They have no member of their own. `PolarRowsShrink` gives the row lengths they rely on.
- `MeshStrand::iter` and its `Index` impl (src/pieces.rs:346-348, 366-375) read the strand's vertices directly, and `len` (src/pieces.rs:361-363) is `StrandLen`. `iter` and `Index` have no separate contract.
- `VirtualMeshLinearSegment::vert` (src/pieces.rs:416-418) is the single element of `Pieces.Verts1` at the same index. It has no member of its own.
- `MeshPatch::flip` (src/pieces.rs:230-232) and `MeshTriPatch::flip` (src/pieces.rs:304-306) have no member of their own. `PieceIteration.Flip` models `Flipped` on the face stream.
- `verts` and `verts_mut` (src/mesh.rs:10-16) are modelled as the field `verts` and the single-vertex edit `SetVert`. Borrowing is not modelled.
- MeshBuilding.MeshBuilder.StitchLoop: the body runs the loop of `Stitch` and then adds the closing quad. This appends the same quads in the same order as the source's separate loop variables at src/mesh_builder.rs:67-74.
- Concurrency (the rayon parallel map and the Mutex guards of normal synthesis) is not modelled.
- Merge cardinality: the output never has more vertices than the input (`Merging.MergedVertices`). The count is not monotone in the distance, however: `MergeProperties.LargerDistanceMoreVertices` shows a point set where a larger distance keeps more vertices. One might expect the vertex count to be non-increasing as the distance grows. The code's seed-anchored policy does not give that, and the model follows the code. The witness keeps every distance strictly inside or outside the radius, so it does not depend on how points on the radius are treated.
