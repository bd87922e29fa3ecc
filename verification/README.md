# STerrain Transvoxel core in Dafny

This project models the discrete core of STerrain, a Unity voxel-terrain system. It covers two parts.

The first part is the Transvoxel isosurface mesher, following Lengyel's algorithm:
- regular cells use Listing 3.1 and Figure 3.7;
- transition cells use Figure 4.17;
- border push-back uses equations 4.2 and 4.3 and Figure 4.13.

The second part is the octree level-of-detail (LOD) bookkeeping that decides which chunks are meshed, with which seams.

The model is functional:
- **Faces.** Face masks are 6-bit vectors (`Faces.FaceMask`).
- **Case codes.** These are 32-bit vectors, so they follow the C# sign-bit arithmetic.
- **Numbers.** Densities, vertex positions and octree bounds are `real`. Cell and voxel coordinates are integer triples.
- **Mesher state.** A `CellMesher.MesherState` holds the `TerrainMeshData` record and the shared vertex cache. It is threaded through every cell step. `Mesher.ExtractSurface` folds the regular pass, then the transition pass, over it.
- **Octree.** The octree is an inductive datatype. It is built by `Octrees.Build`, which follows `Insert`/`CreateChildren`.
- **Terrain.** `Terrain` models the per-frame diff. It maps octree leaves to chunks, keeps the visible set and the update queue, and hides the rest. `Chunks` models a chunk's face-mask-to-mesh cache.

Module layout (one file each):
- `Wrappers` (Option/Result), `Geometry` (Int3/Vec3), `Faces`, `Common` (TransvoxelCommon).
- `Cache` (VertexCache), `Voxels` (VoxelData), `MeshData` (TerrainMeshData).
- `Tables` (the shape and well-formedness of the Transvoxel tables).
- `CellMesher` (the vertex and triangle loops both cell meshers share).
- `RegularCells`, `TransitionCells`, `Mesher` (TransvoxelMesher).
- `Octrees`, `Chunks` (TerrainChunk), `Terrain` (EndlessTerrain).

Calls into code that is not shown become parameters:
- `TransvoxelTables.cs` is not part of this model. Its tables are `Tables.RegularTables` and `Tables.TransitionTables` values, with a well-formedness predicate. That predicate requires:
  - at most 12 vertices per class;
  - triangle indices below the vertex count;
  - edge endpoints below 8 (regular) or 13 (transition);
  - each listed edge joining corners that the case code puts on opposite sides.
- `Vector3.Normalize` is the `normalize` field of the mesher context.
- The `NeedsMeshUpdate` predicate of a chunk is a function parameter of the diff.

Where the code and its accompanying description differ, the model follows the code:
- The border-offset band is `p < 1` on the low side and `p > size - 2` on the high side, as the code computes it with LOD index 0.
- `TryReuseMeshWithLodTransitionConfiguration` reports success even when nothing is cached. See Findings.

## Model

| member | source | states |
|---|---|---|
| Faces.DirectionsAreOrderedSingleBits | STerrain/Assets/Scripts/Common/CubeFaceDirection.cs:8-19 | None is 0 with no bit set. The six flags are bits 0..5 in the order -X, +X, -Y, +Y, -Z, +Z. The loop's `1 << i` is the direction owning bit i and no other bit. Its axis is i / 2, and it is positive exactly when i is odd |
| Faces.DirectionIffSingleBit | STerrain/Assets/Scripts/Common/CubeFaceDirection.cs:13-18 | a mask is one of the six named directions exactly when it has one bit set |
| Common.ConvertPositionToFaceMask | STerrain/Assets/Scripts/Meshers/Transvoxel/TransvoxelCommon.cs:52-62 | bit 2a is set iff coordinate a is 0, and bit 2a+1 iff it equals size, for each axis a. Both directions hold, so no other bit is ever set |
| Common.FaceMaskIsEdgeIffTwoBits | STerrain/Assets/Scripts/Meshers/Transvoxel/TransvoxelCommon.cs:75-82 | the "not a power of two" test holds exactly when the mask has at least two bits, so it is false for 0 |
| Common.PositionShouldUseBePushedBack | STerrain/Assets/Scripts/Meshers/Transvoxel/TransvoxelCommon.cs:18-37 | a position is pushed back exactly when it lies on some face and every face it lies on borders a lower LOD |
| Common.NeverPushedWithoutFaceOrTransition | STerrain/Assets/Scripts/Meshers/Transvoxel/TransvoxelCommon.cs:23-27 | a position on no face, or any position when no chunk face transitions, is never pushed back |
| Common.SingleFacePushBack | STerrain/Assets/Scripts/Meshers/Transvoxel/TransvoxelCommon.cs:18-37 | a position on exactly one face is pushed back iff that face's bit is in the lower-LOD mask |
| Common.EdgePushBack | STerrain/Assets/Scripts/Meshers/Transvoxel/TransvoxelCommon.cs:29-34 | a position on an edge or corner is pushed back iff every one of its faces is in the lower-LOD mask |
| Common.BorderOffsetTowardsBand | STerrain/Assets/Scripts/Meshers/Transvoxel/TransvoxelCommon.cs:87-119 | per axis, the offset is a quarter of the distance back to the band [1, size-2]. It is 0 inside the band, (1-p)/4 > 0 below it and (size-2-p)/4 < 0 above it |
| Common.GetBorderOffset | STerrain/Assets/Scripts/Meshers/Transvoxel/TransvoxelCommon.cs:87-119 | for size >= 3, each axis of the offset is a quarter of the way from the coordinate back to the band [1, size-2] |
| Common.ProjectBorderOffset | STerrain/Assets/Scripts/Meshers/Transvoxel/TransvoxelCommon.cs:124-137 | the componentwise matrix form of equation 4.3 equals delta - (n·delta) n |
| Common.ProjectionIsTangent | STerrain/Assets/Scripts/Meshers/Transvoxel/TransvoxelCommon.cs:124-137 | for a unit normal, the projected offset is perpendicular to the normal and projecting twice changes nothing |
| Common.GetSecondaryVertexPosition | STerrain/Assets/Scripts/Meshers/Transvoxel/TransvoxelCommon.cs:45-50 | for a unit normal the pushed-back position differs from the primary one only along the surface, and a position inside the band on every axis does not move |
| Cache.StoreVertex | STerrain/Assets/Scripts/Meshers/Transvoxel/VertexCache.cs:20-26 | the key set gains the vertex. The vertex's lookup is its old index if there was one, else the new index |
| Cache.StoreThenGet | STerrain/Assets/Scripts/Meshers/Transvoxel/VertexCache.cs:20-40 | storing an unseen vertex makes the lookup return the given index |
| Cache.FirstWriteWins | STerrain/Assets/Scripts/Meshers/Transvoxel/VertexCache.cs:22-25 | storing an already stored vertex leaves the cache unchanged |
| Cache.StoreLeavesOtherKeys | STerrain/Assets/Scripts/Meshers/Transvoxel/VertexCache.cs:20-26 | storing one vertex never changes the lookup of another |
| Cache.HistoryKeepsFirstWrite | STerrain/Assets/Scripts/Meshers/Transvoxel/VertexCache.cs:20-40 | after any sequence of stores, the lookup returns the index of the first store of that vertex, or null if it was never stored |
| Voxels.FromCube | STerrain/Assets/Scripts/EndlessTerrain/VoxelData.cs:13-19 | the grid is well formed iff the array holds size³ samples, and then cell (x, y, z) reads sample z·size² + y·size + x of that array |
| Voxels.FromArray | STerrain/Assets/Scripts/EndlessTerrain/VoxelData.cs:21-27 | the grid is well formed iff the sides are non-negative and the array holds W·H·D samples, and then cell (x, y, z) reads sample z·W·H + y·W + x |
| Voxels.Allocate | STerrain/Assets/Scripts/EndlessTerrain/VoxelData.cs:29-35 | the allocating constructor has W·H·D zero cells |
| Voxels.FlatIndexInBounds | STerrain/Assets/Scripts/EndlessTerrain/VoxelData.cs:37-41 | for in-range coordinates, z·W·H + y·W + x lies in [0, W·H·D) |
| Voxels.FlatIndexInjective | STerrain/Assets/Scripts/EndlessTerrain/VoxelData.cs:37-41 | two in-range coordinates with the same flat index are equal |
| Voxels.GetAfterSet | STerrain/Assets/Scripts/EndlessTerrain/VoxelData.cs:37-41 | reading after writing returns the written value at that coordinate, and the old value at every other in-range coordinate |
| Voxels.RowOverflowAliases | STerrain/Assets/Scripts/EndlessTerrain/VoxelData.cs:39-40 | without per-axis checks, x = width reads the cell (0, y+1, z) |
| Voxels.AppendToNativeArray | STerrain/Assets/Scripts/EndlessTerrain/VoxelData.cs:53-57 | slot `index` of the shared array holds the grid's samples and every position outside the slot is unchanged |
| Voxels.ExtractFromNativeArray | STerrain/Assets/Scripts/EndlessTerrain/VoxelData.cs:59-64 | the result is a well-formed cube of side size whose cell (x, y, z) reads the shared array at index·size³ + z·size² + y·size + x |
| Voxels.AppendThenExtract | STerrain/Assets/Scripts/EndlessTerrain/VoxelData.cs:53-64 | extracting slot i from an array after appending a size³ grid at slot i gives back that grid |
| Voxels.AppendLeavesOtherSlots | STerrain/Assets/Scripts/EndlessTerrain/VoxelData.cs:53-64 | appending at slot i does not change what slot j != i extracts to |
| MeshData.NewMeshData | STerrain/Assets/Scripts/Meshers/TerrainMeshData.cs:26-31 | a new mesh has three empty lists and is well formed |
| Tables.EdgeNibblesRoundTrip | STerrain/Assets/Scripts/Meshers/Transvoxel/TransvoxelRegularCellMesher.cs:88-93 | the high and low nibble of the low byte come back as the first and second corner, whatever the reuse byte holds |
| CellMesher.InitialState | STerrain/Assets/Scripts/Meshers/Transvoxel/TransvoxelMesher.cs:24-33 | the constructor gives both cell meshers one shared mesh and one shared vertex cache; that state starts with empty lists and an empty cache, and satisfies the mesher invariant |
| CellMesher.VerticesDistinct | STerrain/Assets/Scripts/Meshers/Transvoxel/TransvoxelRegularCellMesher.cs:117-125 | while the cache matches the mesh, no position occurs twice in the vertex list |
| CellMesher.InterpolationFindsZeroCrossing | STerrain/Assets/Scripts/Meshers/Transvoxel/TransvoxelRegularCellMesher.cs:96-108 | on an edge whose ends have opposite signs, t = d1/(d1-d0) is defined and lies in [0,1], and d0·t + d1·(1-t) = 0 |
| CellMesher.AddVertex | STerrain/Assets/Scripts/Meshers/Transvoxel/TransvoxelRegularCellMesher.cs:117-125 | a cached position is reused with its index and nothing is appended. A new position is appended to vertices and normals together, gets the old vertex count as its index and is cached under it |
| CellMesher.MapVertices | STerrain/Assets/Scripts/Meshers/Transvoxel/TransvoxelRegularCellMesher.cs:84-128 | every mapped index names an existing vertex. While there are at most 65536 vertices, mapped index k names the position placed for table vertex k |
| CellMesher.TriangleIndices | STerrain/Assets/Scripts/Meshers/Transvoxel/TransvoxelTransitionCellMesher.cs:162-176 | exactly 3·triangleCount indices, each triangle forwards or with its three corners reversed |
| CellMesher.TriangleIndicesBounded | STerrain/Assets/Scripts/Meshers/Transvoxel/TransvoxelRegularCellMesher.cs:130-136 | every emitted index is one of the mapped indices, so it is below the vertex count |
| CellMesher.FlipReversesEachTriangle | STerrain/Assets/Scripts/Meshers/Transvoxel/TransvoxelTransitionCellMesher.cs:162-176 | a flipped triangle is the forward triangle with its three indices in reverse order |
| CellMesher.EmitCell | STerrain/Assets/Scripts/Meshers/Transvoxel/TransvoxelRegularCellMesher.cs:84-136 | the mesh only grows, keeps the invariant, and gains exactly 3·triangleCount indices |
| CellMesher.EmitCellCornersArePlaced | STerrain/Assets/Scripts/Meshers/Transvoxel/TransvoxelRegularCellMesher.cs:84-136 | while there are at most 65536 vertices, corner k of the appended triangles is the position placed for the table vertex in that winding slot |
| RegularCells.CornerIndexIsBinary | STerrain/Assets/Scripts/Meshers/Transvoxel/TransvoxelRegularCellMesher.cs:171-180 | corner i has coordinates (bit 0, bit 1, bit 2) of i |
| RegularCells.GetCellCorners | STerrain/Assets/Scripts/Meshers/Transvoxel/TransvoxelRegularCellMesher.cs:147-161 | density i is the voxel at the cell origin plus cornerIndex[i] |
| RegularCells.CornersInterior | STerrain/Assets/Scripts/Meshers/Transvoxel/TransvoxelRegularCellMesher.cs:63-74 | inside the cell bounds, every normal read around every corner stays in the grid |
| RegularCells.GetCaseCode | STerrain/Assets/Scripts/Meshers/Transvoxel/TransvoxelRegularCellMesher.cs:182-199 | the code is below 256, and bit i is set iff corner sample i is negative. Zero counts as outside |
| RegularCells.UniformCellCodes | STerrain/Assets/Scripts/Meshers/Transvoxel/TransvoxelRegularCellMesher.cs:182-199 | all corners non-negative give code 0, and all negative give 255 |
| RegularCells.TableEdgesCross | STerrain/Assets/Scripts/Meshers/Transvoxel/TransvoxelRegularCellMesher.cs:76-100 | with well-formed tables, every vertex the class asks for lies on an edge whose corners have opposite signs, so d1 - d0 is never 0 |
| RegularCells.EmitRegularCell | STerrain/Assets/Scripts/Meshers/Transvoxel/TransvoxelRegularCellMesher.cs:76-136 | placing the class's vertices and triangles keeps the mesher invariant, only appends, and adds exactly 3·triangleCount indices |
| RegularCells.RegularVertex | STerrain/Assets/Scripts/Meshers/Transvoxel/TransvoxelRegularCellMesher.cs:84-115 | the on-edge point lies at weight t in [0,1] where the interpolated density is zero. An unpushed vertex is that point; a pushed one moves off it only along the surface for a unit normal, and not at all inside the band |
| RegularCells.GenerateRegularCell | STerrain/Assets/Scripts/Meshers/Transvoxel/TransvoxelRegularCellMesher.cs:51-137 | codes 0 and 255 leave mesh and cache unchanged. Any other code appends exactly 3·triangleCount valid indices while the mesh only grows |
| TransitionCells.FaceAxesArePermutation | STerrain/Assets/Scripts/Meshers/Transvoxel/TransvoxelTransitionCellMesher.cs:217-234 | the face axis and the two in-face axes are three distinct axes |
| TransitionCells.ConvertTransitionCellCoordToVoxelCoord | STerrain/Assets/Scripts/Meshers/Transvoxel/TransvoxelTransitionCellMesher.cs:217-234 | tz lands on the face's normal axis and tx, ty on the two in-face axes: (tz,ty,tx) on X faces, (tx,tz,ty) on Y faces, identity on Z faces |
| TransitionCells.ConvertInjective | STerrain/Assets/Scripts/Meshers/Transvoxel/TransvoxelTransitionCellMesher.cs:217-234 | for a fixed direction, distinct face-local coordinates give distinct voxel offsets |
| TransitionCells.GetTransitionVertexIndices | STerrain/Assets/Scripts/Meshers/Transvoxel/TransvoxelTransitionCellMesher.cs:197-215 | the 13 offsets are the converted grid positions of points 0..C |
| TransitionCells.GridNumbering | STerrain/Assets/Scripts/Meshers/Transvoxel/TransvoxelTransitionCellMesher.cs:192-213 | point i < 9 sits at (i mod 3, i div 3), and points 9..C sit where their alias 0, 2, 6, 8 sits |
| TransitionCells.HalfResolutionOffsetsAlias | STerrain/Assets/Scripts/Meshers/Transvoxel/TransvoxelTransitionCellMesher.cs:200-213 | points 9, A, B, C share the voxel offsets of 0, 2, 6, 8 |
| TransitionCells.TransitionOffsetsOnFace | STerrain/Assets/Scripts/Meshers/Transvoxel/TransvoxelTransitionCellMesher.cs:200-234 | all 13 offsets have 0 on the face normal axis and lie in [0,2]³, and the nine full-resolution offsets are distinct |
| TransitionCells.TransitionPointsInterior | STerrain/Assets/Scripts/Meshers/Transvoxel/TransvoxelTransitionCellMesher.cs:56-67 | inside the transition cell bounds, every sample and normal read stays in the grid |
| TransitionCells.GetTransitionCellSamples | STerrain/Assets/Scripts/Meshers/Transvoxel/TransvoxelTransitionCellMesher.cs:179-190 | sample i is the voxel at the cell origin plus offset i |
| TransitionCells.HalfResolutionSamplesAlias | STerrain/Assets/Scripts/Meshers/Transvoxel/TransvoxelTransitionCellMesher.cs:179-213 | samples 9, A, B, C equal samples 0, 2, 6, 8 |
| TransitionCells.GetTransitionCaseCode | STerrain/Assets/Scripts/Meshers/Transvoxel/TransvoxelTransitionCellMesher.cs:237-255 | the code is below 512, and samples 0..8 map to bits 0,1,2,7,8,3,6,5,4, each set iff that sample is negative |
| TransitionCells.TransitionCodeBitIsPermutation | STerrain/Assets/Scripts/Meshers/Transvoxel/TransvoxelTransitionCellMesher.cs:241-249 | the sample-to-bit map is a permutation of 0..8 |
| TransitionCells.UniformTransitionCodes | STerrain/Assets/Scripts/Meshers/Transvoxel/TransvoxelTransitionCellMesher.cs:237-255 | nine non-negative samples give code 0, and nine negative give 511 |
| TransitionCells.WithCornerCopies | STerrain/Assets/Scripts/Meshers/Transvoxel/TransvoxelTransitionCellMesher.cs:68-71 | the 13 normals are the nine computed ones, with 9, A, B, C copied from 0, 2, 6, 8 |
| TransitionCells.TransitionNormals | STerrain/Assets/Scripts/Meshers/Transvoxel/TransvoxelTransitionCellMesher.cs:56-71 | normal i is the central-difference normal at point i, for all 13 points |
| TransitionCells.FlipTriangles | STerrain/Assets/Scripts/Meshers/Transvoxel/TransvoxelTransitionCellMesher.cs:73-86 | flipTriangles = (class high bit) XOR (direction is -Z, +X or +Y) |
| TransitionCells.OppositeFacesWindOppositely | STerrain/Assets/Scripts/Meshers/Transvoxel/TransvoxelTransitionCellMesher.cs:73-86 | for every class, the two faces of each axis get opposite flip decisions |
| TransitionCells.FullResSideAtEndpoints | STerrain/Assets/Scripts/Meshers/Transvoxel/TransvoxelTransitionCellMesher.cs:111-126 | t is 0 exactly when d1 = 0 and 1 exactly when d0 = 0. In those cases the vertex is the coincident endpoint, and the full-resolution test looks only at that endpoint's index |
| TransitionCells.IsFullResSide | STerrain/Assets/Scripts/Meshers/Transvoxel/TransvoxelTransitionCellMesher.cs:115-126 | an edge between two full-resolution points always counts as full-resolution, one between two half-resolution points never does, and a vertex strictly inside an edge counts iff an endpoint is full-resolution |
| TransitionCells.TransitionVertex | STerrain/Assets/Scripts/Meshers/Transvoxel/TransvoxelTransitionCellMesher.cs:111-147 | the on-edge point lies at weight t in [0,1] where the interpolated sample is zero. An unpushed vertex is that point; a pushed one (full-resolution side, an endpoint on a transitioning face) moves off it only along the surface for a unit normal |
| TransitionCells.HalfResolutionVertexStays | STerrain/Assets/Scripts/Meshers/Transvoxel/TransvoxelTransitionCellMesher.cs:115-147 | a vertex between two half-resolution points is never pushed back. It stays on its edge where the interpolated density is zero |
| TransitionCells.TransitionClassOf | STerrain/Assets/Scripts/Meshers/Transvoxel/TransvoxelTransitionCellMesher.cs:74-91 | the class data, indexed by `cellClass & 0x7F`, is well formed and has a location for each of its vertices |
| TransitionCells.CodeBitIsSampleSign | STerrain/Assets/Scripts/Meshers/Transvoxel/TransvoxelTransitionCellMesher.cs:237-255 | for any of the 13 points, the case-code bit of its alias is set iff its own sample is negative |
| TransitionCells.TransitionTableEdgesCross | STerrain/Assets/Scripts/Meshers/Transvoxel/TransvoxelTransitionCellMesher.cs:88-111 | with well-formed tables, every vertex the class asks for lies on an edge with opposite-sign ends |
| TransitionCells.EmitTransitionCell | STerrain/Assets/Scripts/Meshers/Transvoxel/TransvoxelTransitionCellMesher.cs:88-176 | placing the class's vertices and triangles keeps the mesher invariant, only appends, and adds exactly 3·triangleCount indices |
| TransitionCells.GenerateTransitionCell | STerrain/Assets/Scripts/Meshers/Transvoxel/TransvoxelTransitionCellMesher.cs:44-177 | codes 0 and 511 leave mesh and cache unchanged. Any other code appends exactly 3·triangleCount valid indices while the mesh only grows |
| Mesher.RegularCellOrderVisitsEachCellOnce | STerrain/Assets/Scripts/Meshers/Transvoxel/TransvoxelMesher.cs:43-53 | the x/y/z loop visits exactly the cells of [0,size)³, each once |
| Mesher.TransitionFacesAreFlaggedFaces | STerrain/Assets/Scripts/Meshers/Transvoxel/TransvoxelMesher.cs:57-63 | the face loop visits exactly the directions whose bit is in the mask, and none for mask None |
| Mesher.FaceCellsAreEvenPairs | STerrain/Assets/Scripts/Meshers/Transvoxel/TransvoxelMesher.cs:65-72 | a face visits (a, b) exactly when both are even and in [0, size) |
| Mesher.FaceCellCount | STerrain/Assets/Scripts/Meshers/Transvoxel/TransvoxelMesher.cs:65-72 | each flagged face visits ceil(size/2)² cells |
| Mesher.ConvertChunkFaceCoordToVoxelCoord | STerrain/Assets/Scripts/Meshers/Transvoxel/TransvoxelMesher.cs:78-99 | a negative face puts 0 on its normal axis and a positive face puts size there. fx and fy land on the transition cell's own in-face axes. None gives the origin |
| Mesher.RegularCellsInBounds | STerrain/Assets/Scripts/Meshers/Transvoxel/TransvoxelMesher.cs:43-53 | when the grid has a margin of one before and two after the chunk, every regular cell's corner and normal reads are in bounds |
| Mesher.TransitionCellsInBounds | STerrain/Assets/Scripts/Meshers/Transvoxel/TransvoxelMesher.cs:55-72 | with the same margin and an even size, every transition cell's sample and normal reads are in bounds |
| Mesher.RegularPass | STerrain/Assets/Scripts/Meshers/Transvoxel/TransvoxelMesher.cs:43-53 | the regular pass over any list of interior cells keeps the mesher invariant and only appends to the mesh |
| Mesher.FacePass | STerrain/Assets/Scripts/Meshers/Transvoxel/TransvoxelMesher.cs:65-72 | the transition cells of one face keep the mesher invariant and only append to the mesh |
| Mesher.TransitionPass | STerrain/Assets/Scripts/Meshers/Transvoxel/TransvoxelMesher.cs:55-73 | the transition pass over the flagged faces keeps the mesher invariant and only appends to the mesh |
| Mesher.ExtractSurface | STerrain/Assets/Scripts/Meshers/Transvoxel/TransvoxelMesher.cs:40-76 | the returned mesh is well formed: vertices and normals have equal lengths, and every index names a vertex. No position appears twice, across both passes |
| Mesher.NoLowerLodMeansRegularOnly | STerrain/Assets/Scripts/Meshers/Transvoxel/TransvoxelMesher.cs:55-73 | with mask None, the result is exactly the regular pass |
| Mesher.SameSignGridHasNoSurface | STerrain/Assets/Scripts/Meshers/Transvoxel/TransvoxelMesher.cs:40-76 | a grid whose samples all have the same sign yields an empty mesh |
| Octrees.ChildOffsetSign | STerrain/Assets/Scripts/EndlessTerrain/Octree.cs:110-144 | child i is on the positive x side iff bit 0 is set, on positive z iff bit 1 is set, and on positive y iff bit 2 is set |
| Octrees.ChildBounds | STerrain/Assets/Scripts/EndlessTerrain/Octree.cs:110-144 | each child has half the parent's size |
| Octrees.ChildInside | STerrain/Assets/Scripts/EndlessTerrain/Octree.cs:110-144 | each child lies inside its parent |
| Octrees.ChildrenSeparated | STerrain/Assets/Scripts/EndlessTerrain/Octree.cs:110-144 | two different children have disjoint interiors |
| Octrees.OctantContains | STerrain/Assets/Scripts/EndlessTerrain/Octree.cs:110-144 | every point of the parent lies in some child, so the children cover the parent |
| Octrees.ShouldSubdivideIsDistanceTest | STerrain/Assets/Scripts/EndlessTerrain/Octree.cs:32-39 | for a non-negative minimum, the squared test splits a node exactly when Distance(center, position) < size.x and size.x > minNodeSize |
| Octrees.HalvingShrinks | STerrain/Assets/Scripts/EndlessTerrain/Octree.cs:32-39 | for a positive minimum node size, halving a size above the minimum lowers the number of remaining levels, so subdivision terminates |
| Octrees.Build | STerrain/Assets/Scripts/EndlessTerrain/Octree.cs:32-39 | the built tree has the given bounds, eight correctly placed children at each node, and is split exactly where the distance test holds |
| Octrees.RefinedTreeIsBuilt | STerrain/Assets/Scripts/EndlessTerrain/Octree.cs:92-100 | any well-shaped tree split exactly where the test holds is the built tree, so the build is characterised uniquely |
| Octrees.LeafCount | STerrain/Assets/Scripts/EndlessTerrain/Octree.cs:44-60 | leaf enumeration has 1 + 7·(internal nodes) entries |
| Octrees.LeavesInside | STerrain/Assets/Scripts/EndlessTerrain/Octree.cs:44-60 | every leaf lies inside the root |
| Octrees.LeavesSeparated | STerrain/Assets/Scripts/EndlessTerrain/Octree.cs:44-60 | any two enumerated leaves have disjoint interiors |
| Octrees.LeafSizesAreHalvings | STerrain/Assets/Scripts/EndlessTerrain/Octree.cs:92-144 | every leaf size is the root size halved k times, for some k |
| Octrees.LeavesStopSplitting | STerrain/Assets/Scripts/EndlessTerrain/Octree.cs:32-39 | no leaf of a built tree passes the subdivision test |
| Octrees.FirstContaining | STerrain/Assets/Scripts/EndlessTerrain/Octree.cs:66-90 | reference lookup: the result is a member containing the point, and it is null exactly when no member contains the point |
| Octrees.GetBound | STerrain/Assets/Scripts/EndlessTerrain/Octree.cs:66-90 | the recursive lookup returns the first enumerated leaf containing the point |
| Octrees.GetBoundFindsLeaf | STerrain/Assets/Scripts/EndlessTerrain/Octree.cs:44-90 | a non-null result is a leaf that contains the point, and null means no leaf contains it |
| Octrees.OutsideRootFindsNothing | STerrain/Assets/Scripts/EndlessTerrain/Octree.cs:66-90 | a point outside the root yields null |
| Octrees.InsideRootFindsLeaf | STerrain/Assets/Scripts/EndlessTerrain/Octree.cs:66-90 | a point inside the root always finds a leaf |
| Terrain.AddIfCoarser | STerrain/Assets/Scripts/EndlessTerrain/EndlessTerrain.cs:160-164 | one probe adds its face bit iff it finds a leaf strictly larger than the chunk. Other bits keep their value |
| Terrain.NeighborMask | STerrain/Assets/Scripts/EndlessTerrain/EndlessTerrain.cs:155-197 | face bit i of the mask is set iff the neighbour probed across face i is strictly larger |
| Terrain.ProbesAreFacePoints | STerrain/Assets/Scripts/EndlessTerrain/EndlessTerrain.cs:158-190 | each probe is the chunk centre moved by size.x along that face's axis and sign |
| Terrain.NeighborMaskFromLeaves | STerrain/Assets/Scripts/EndlessTerrain/EndlessTerrain.cs:155-197 | bit i is set iff the first leaf containing the probe exists and is larger, so equal or smaller neighbours add nothing |
| Terrain.ProbeOutsideRootAddsNoBit | STerrain/Assets/Scripts/EndlessTerrain/EndlessTerrain.cs:160-194 | a probe outside the octree adds no bit |
| Terrain.TerrainOctree | STerrain/Assets/Scripts/EndlessTerrain/EndlessTerrain.cs:60-63 | the terrain octree is well shaped and centred on the chunk position |
| Terrain.RootSplitsAboveMinimum | STerrain/Assets/Scripts/EndlessTerrain/EndlessTerrain.cs:60-63 | when the render cube is larger than the minimum node size, the root always splits |
| Terrain.VisitLeaf | STerrain/Assets/Scripts/EndlessTerrain/EndlessTerrain.cs:76-97 | the leaf becomes visible and a key. A known chunk keeps its bookkeeping. A new chunk carries the leaf's neighbour mask and is queued. Nothing else changes |
| Terrain.VisitLeaves | STerrain/Assets/Scripts/EndlessTerrain/EndlessTerrain.cs:72-98 | visiting a list adds exactly its bounds to the visible set and to the keys, and only appends to the queue |
| Terrain.VisitQueuesLeaves | STerrain/Assets/Scripts/EndlessTerrain/EndlessTerrain.cs:78-95 | everything the visit appends to the queue is one of the visited leaves |
| Terrain.GetChunksThatNeedToUpdate | STerrain/Assets/Scripts/EndlessTerrain/EndlessTerrain.cs:70-99 | afterwards the visible set is exactly the set of octree leaves. Keys are only added. The queue holds only visible bounds |
| Terrain.DiffFilesEveryLeaf | STerrain/Assets/Scripts/EndlessTerrain/EndlessTerrain.cs:78-95 | every leaf is a key afterwards. Known chunks keep their config and mesh cache. Each new leaf gets a fresh chunk with its neighbour mask and is queued |
| Terrain.VisitKeepsKnownChunks | STerrain/Assets/Scripts/EndlessTerrain/EndlessTerrain.cs:78-89 | a chunk already in the dictionary keeps its bounds, voxels, config, cache, mesh and built flag |
| Terrain.VisitFilesNewChunks | STerrain/Assets/Scripts/EndlessTerrain/EndlessTerrain.cs:90-95 | a leaf not yet in the dictionary is filed as a new chunk with its neighbour mask and is queued |
| Terrain.VisitKeepsKeysMatching | STerrain/Assets/Scripts/EndlessTerrain/EndlessTerrain.cs:92-94 | every chunk stays filed under its own bounds |
| Terrain.HideChunksThatAreNotVisible | STerrain/Assets/Scripts/EndlessTerrain/EndlessTerrain.cs:144-153 | exactly the chunks whose bounds are not visible are hidden. Visible ones are untouched, and hiding changes nothing but the visibility flag |
| Terrain.HiddenExactlyOffTree | STerrain/Assets/Scripts/EndlessTerrain/EndlessTerrain.cs:144-153 | after the diff, a chunk is hidden iff its bounds are not an octree leaf |
| Terrain.Update | STerrain/Assets/Scripts/EndlessTerrain/EndlessTerrain.cs:43-51 | a rebuild starts iff the viewer moved past the squared threshold and none is pending. Starting one records the position and sets the pending flag |
| Terrain.FinishGeneration | STerrain/Assets/Scripts/EndlessTerrain/EndlessTerrain.cs:107-142 | applying the results clears the pending flag and keeps the recorded position |
| Terrain.PendingBlocksRebuilds | STerrain/Assets/Scripts/EndlessTerrain/EndlessTerrain.cs:43-51 | while a generation is pending, no number of frames starts another |
| Terrain.AtMostOneRebuildInFlight | STerrain/Assets/Scripts/EndlessTerrain/EndlessTerrain.cs:43-51 | without a finish in between, frames start at most one rebuild, and if they start one it is still pending |
| Chunks.NewChunk | STerrain/Assets/Scripts/EndlessTerrain/TerrainChunk.cs:24-30 | a new chunk records its bounds and mask. No face mask can be reused on it (reuse reports failure and changes nothing), and building it fails for want of voxel data |
| Chunks.SetMesh | STerrain/Assets/Scripts/EndlessTerrain/TerrainChunk.cs:36-40 | the mesh is set and filed under the current config. Only that entry is added or overwritten |
| Chunks.BuildChunk | STerrain/Assets/Scripts/EndlessTerrain/TerrainChunk.cs:45-70 | fails iff voxels or mesh are missing, reporting missing voxels first. On success the chunk shows its mesh and keeps its cache |
| Chunks.SetVisible | STerrain/Assets/Scripts/EndlessTerrain/TerrainChunk.cs:76-79 | only the visibility changes |
| Chunks.TryReuseAsWritten | STerrain/Assets/Scripts/EndlessTerrain/TerrainChunk.cs:94-103 | as written: always reports success, with the same effect on the chunk as the corrected operation |
| Chunks.TryReuseAsWrittenClaimsMissingMesh | STerrain/Assets/Scripts/EndlessTerrain/TerrainChunk.cs:89-103 | on a fresh chunk nothing is cached, yet the as-written operation reports success |
| Chunks.TryReuse | STerrain/Assets/Scripts/EndlessTerrain/TerrainChunk.cs:89-103 | success iff a mesh is cached for the mask; then that mesh is shown. Config, cache and mesh never change, and a miss changes nothing |
| Chunks.SetMeshThenReuse | STerrain/Assets/Scripts/EndlessTerrain/TerrainChunk.cs:36-40 | a mesh set under the current config is what a later reuse of that config shows |

A consequence of the Terrain rows: `Terrain.DiffFilesEveryLeaf` and `Terrain.VisitKeepsKnownChunks` show that a chunk already in the dictionary keeps its old `currentConfig`. The mask just computed for its leaf is only passed to the reuse attempt. So when such a chunk is queued because `NeedsMeshUpdate` holds (EndlessTerrain.cs:76-88), the job scheduler reads that stale mask for it (Jobs/EndlessTerrainJobScheduler.cs:44), and its new mesh is made for the seams of the previous frame. Whether the result's config is written back depends on the two-argument `SetMesh(mesh, config)` that the coroutine calls (EndlessTerrain.cs:123, 134). TerrainChunk.cs declares only `SetMesh(mesh)`, which `Chunks.SetMesh` models, so the model cannot tell. This is recorded as an observation, not a finding.

## Left out

- Noise (`TerrainNoise.cs`, `NoiseSettings.cs`): the voxel field is an arbitrary input.
- Unity Jobs plumbing (everything under `Jobs/`) and `MeshBuilder.cs`: this is parallelism and engine API, with no logic of its own.
- Player, editor and demo scripts, and `TerrainPreview.cs`: its neighbour-mask probe duplicates the one modelled in `Terrain`.
- `ArrayExtensions.cs`: it is unused and has no coherent contract.
- `TerrainChunkParams.cs`, `TerrainChunkSettings.cs`, `TerrainSettings.cs`: plain data. The `ChunkSize + 3` voxel side appears only as the margin in `Mesher.CoversChunk`.
- The coroutine `ProcessGeneratedChunks` is left out, except for its final flag reset (`Terrain.FinishGeneration`). The same goes for viewer snapping with `RoundToInt` and the `FloorToInt` scale and position arithmetic.
- `NeedsMeshUpdate` and `NeedsToBuild` are not defined in the visible sources. The first is a function parameter of the diff and the second is not modelled.
- `TerrainChunk.GetNeighborChunksWithLowerLod`: dead code that reads an octree field that is never assigned.
- Unity object work: creating the game object in `BuildChunk`, and `SetActive`. These are records of flags (`built`, `visible`, `shown`). `SetVisible` on a chunk with no game object throws in C#; the model has no null object.
- Floating point: all densities, positions and bounds are exact reals. Float rounding, NaN and the exact float equality of vertex keys in the cache and of `Bounds` dictionary keys are not modelled.
- `Octrees.Build`: `Vector3.Distance(c, p) < size.x` is compared as squared distance against size.x². `Octrees.ShouldSubdivideIsDistanceTest` shows this is the same test over reals for a non-negative minimum.
- Octrees.Build: requires a positive minimum node size, and so do `Octrees.Levels`, `Octrees.BuildChildren` and `Octrees.HalvingShrinks`. The C# constructor (Octree.cs:22-26) accepts any float. With a minimum of 0 or below, `Insert` keeps splitting until the float sizes underflow, which exact reals cannot express; the model has no tree for that case.
- Voxels.Allocate: requires W·H·D >= 0. In C# the product is unchecked 32-bit arithmetic, and a negative array length throws `OverflowException` (VoxelData.cs:34); the model states that case as a precondition instead of an error result.
- Voxels.FlatIndexInBounds: the indexer's `z*Width*Height + y*Width + x` (VoxelData.cs:39-40) is computed in unchecked 32-bit arithmetic in C#. The model's unbounded integers agree with it only while the products stay below 2³¹, so grids of 2³¹ cells or more are not modelled.
- Voxels.AppendToNativeArray: the slot start `index*ArraySize` (VoxelData.cs:55) is an unchecked 32-bit product in C#, and so is `index*size³` in `Voxels.ExtractFromNativeArray` (VoxelData.cs:61-62). Wrap-around there is not modelled; the preconditions ask that the slot lie inside the shared array, where `NativeSlice` would otherwise throw.
- Chunks.TryReuse: on a chunk whose game object was never built, a cached mesh makes the C# code assign through a null `_meshFilter` (TerrainChunk.cs:98) and throw. The model just records the shown mesh, and so does `Chunks.TryReuseAsWritten`. In the game loop the first `SetMesh` of a chunk is followed at once by `BuildChunk`, so the case does not arise there.
- `Vector3.Normalize`: it is the `normalize` parameter of the mesher context. Central-difference normals are computed before it, over reals.
- The contents of `TransvoxelTables.cs`: it is not part of this model. The tables are parameters whose well-formedness is a precondition.
- The `(ushort)` cast of welded indices is modelled as `i % 65536`.
- CellMesher.MapVertices: proves that mapped indices name the placed positions only while the mesh has at most 65536 vertices. Past that the cast wraps, and the C# code would write wrong indices.
- The swizzled `newProjection` in `ProjectBorderOffset` is computed and discarded, so it is not modelled.
- The `pos = new Vector3Int(...)` self-assignment on the -Z face in `GenerateTransitionCell` is a no-op, so it is not modelled.
- Mesher.ExtractSurface: requires an even size whenever some face transitions. With an odd size, the last transition cell of a face would read one voxel beyond the `size + 3` grid.
- The source uses `min = (1,1,1)`. `Mesher.CoversChunk` states the margin for any min.

## Findings

| source | as written | input that shows it | evidently intended | confidence | as-written member | corrected member |
|---|---|---|---|---|---|---|
| STerrain/Assets/Scripts/EndlessTerrain/TerrainChunk.cs:94-103 | `TryReuseMeshWithLodTransitionConfiguration` returns `true` on both paths | a freshly constructed chunk (empty mesh cache) asked for any mask: it reports success | return `false` when no mesh is cached for the mask, as its doc comment (line 93) says | not executed | Chunks.TryReuseAsWritten, Chunks.TryReuseAsWrittenClaimsMissingMesh | Chunks.TryReuse |
