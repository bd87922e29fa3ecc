/**
  The chunk mesher (TransvoxelMesher): one regular cell per unit cube of
  the chunk, then one transition cell per 2x2 block of every chunk face
  that borders a lower level of detail, all appended to one mesh through
  one vertex cache.
 */
module Mesher {
  import opened Geometry
  import opened Faces
  import opened Voxels
  import opened MeshData
  import opened Tables
  import opened CellMesher
  import opened RegularCells
  import opened TransitionCells

  // ---------------------------------------------------------------------
  // The regular-cell loop: x outermost, then y, then z.
  // ---------------------------------------------------------------------

  /** The innermost loop: cells (x, y, z) .. (x, y, size - 1). */
  function ZRow(x: int, y: int, z: nat, size: nat): (cells: seq<Int3>)
    requires z <= size
    ensures |cells| == size - z
    ensures forall k | 0 <= k < |cells| :: cells[k] == Int3(x, y, z + k)
    decreases size - z
  {
    if z == size then [] else [Int3(x, y, z)] + ZRow(x, y, z + 1, size)
  }

  /** The middle loop: rows y .. size - 1 of slice x. */
  function YPlane(x: int, y: nat, size: nat): (cells: seq<Int3>)
    requires y <= size
    decreases size - y
  {
    if y == size then [] else ZRow(x, y, 0, size) + YPlane(x, y + 1, size)
  }

  /** The outer loop: slices x .. size - 1. */
  function XCube(x: nat, size: nat): (cells: seq<Int3>)
    requires x <= size
    decreases size - x
  {
    if x == size then [] else YPlane(x, 0, size) + XCube(x + 1, size)
  }

  /** The cell positions in the order ExtractSurface's triple loop visits them. */
  function RegularCellOrder(size: nat): seq<Int3> {
    XCube(0, size)
  }

  /** No position occurs twice. */
  predicate Distinct<T(==)>(s: seq<T>) {
    forall i, j | 0 <= i < j < |s| :: s[i] != s[j]
  }

  lemma DistinctConcat<T>(a: seq<T>, b: seq<T>)
    requires Distinct(a) && Distinct(b)
    requires forall u | u in a :: u !in b
    ensures Distinct(a + b)
  {
    forall i, j | 0 <= i < j < |a + b|
      ensures (a + b)[i] != (a + b)[j]
    {
      if i < |a| && j >= |a| {
        assert (a + b)[i] == a[i] && a[i] in a;
        assert (a + b)[j] == b[j - |a|] && b[j - |a|] in b;
      }
    }
  }

  lemma ZRowCells(x: int, y: int, size: nat)
    ensures forall c: Int3 :: c in ZRow(x, y, 0, size) <==> c.x == x && c.y == y && 0 <= c.z < size
    ensures Distinct(ZRow(x, y, 0, size))
  {
    var row := ZRow(x, y, 0, size);
    forall c: Int3 | c.x == x && c.y == y && 0 <= c.z < size
      ensures c in row
    {
      assert row[c.z] == c;
    }
  }

  lemma {:induction false} YPlaneCells(x: int, y: nat, size: nat)
    requires y <= size
    ensures forall c: Int3 :: c in YPlane(x, y, size) <==> c.x == x && y <= c.y < size && 0 <= c.z < size
    ensures Distinct(YPlane(x, y, size))
    decreases size - y
  {
    if y < size {
      var row := ZRow(x, y, 0, size);
      var rest := YPlane(x, y + 1, size);
      assert YPlane(x, y, size) == row + rest;
      ZRowCells(x, y, size);
      YPlaneCells(x, y + 1, size);
      forall c: Int3
        ensures c in row + rest <==> c.x == x && y <= c.y < size && 0 <= c.z < size
      {
        assert c in row + rest <==> c in row || c in rest;
      }
      DistinctConcat(row, rest);
    }
  }

  lemma {:induction false} XCubeCells(x: nat, size: nat)
    requires x <= size
    ensures forall c: Int3 :: c in XCube(x, size) <==> x <= c.x < size && 0 <= c.y < size && 0 <= c.z < size
    ensures Distinct(XCube(x, size))
    decreases size - x
  {
    if x < size {
      YPlaneCells(x, 0, size);
      XCubeCells(x + 1, size);
      DistinctConcat(YPlane(x, 0, size), XCube(x + 1, size));
    }
  }

  /**
    The triple loop visits every cell (x, y, z) of the chunk, 0 <= x, y,
    z < size, nothing else, and none twice.
   */
  lemma RegularCellOrderVisitsEachCellOnce(size: nat)
    ensures forall c: Int3 :: c in RegularCellOrder(size) <==> 0 <= c.x < size && 0 <= c.y < size && 0 <= c.z < size
    ensures Distinct(RegularCellOrder(size))
  {
    XCubeCells(0, size);
  }

  // ---------------------------------------------------------------------
  // The transition-cell loops: the six faces in bit order, and on each
  // flagged face fx and fy stepping by 2.
  // ---------------------------------------------------------------------

  /** The face loop from bit i on: the directions (1 << i) that the mask has. */
  function FaceDirections(mask: FaceMask, i: nat): (dirs: seq<FaceMask>)
    requires i <= 6
    ensures forall k | 0 <= k < |dirs| :: IsDirection(dirs[k]) && HasFlag(mask, dirs[k])
    decreases 6 - i
  {
    if i == 6 then []
    else
      DirectionsAreOrderedSingleBits();
      (if HasFlag(mask, Direction(i)) then [Direction(i)] else []) + FaceDirections(mask, i + 1)
  }

  /** The faces that get transition cells, in the order -X, +X, -Y, +Y, -Z, +Z. */
  function TransitionFaces(mask: FaceMask): (dirs: seq<FaceMask>)
    ensures forall k | 0 <= k < |dirs| :: IsDirection(dirs[k]) && HasFlag(mask, dirs[k])
  {
    FaceDirections(mask, 0)
  }

  lemma {:induction false} FaceDirectionsComplete(mask: FaceMask, i: nat, j: nat)
    requires i <= j < 6 && HasFlag(mask, Direction(j))
    ensures Direction(j) in FaceDirections(mask, i)
    decreases 6 - i
  {
    if i < j {
      FaceDirectionsComplete(mask, i + 1, j);
    }
  }

  /**
    Exactly the six named faces whose flag the mask has are visited; a mask
    of None visits none.
   */
  lemma TransitionFacesAreFlaggedFaces(mask: FaceMask, d: FaceMask)
    ensures d in TransitionFaces(mask) <==> IsDirection(d) && HasFlag(mask, d)
    ensures mask == None ==> TransitionFaces(mask) == []
  {
    DirectionsAreOrderedSingleBits();
    if IsDirection(d) && HasFlag(mask, d) {
      var j :| 0 <= j < 6 && Direction(j) == d;
      FaceDirectionsComplete(mask, 0, j);
    }
    if mask == None {
      NoFlagsNoFaces(0);
    }
  }

  lemma {:induction false} NoFlagsNoFaces(i: nat)
    requires i <= 6
    ensures FaceDirections(None, i) == []
    decreases 6 - i
  {
    if i < 6 {
      DirectionsAreOrderedSingleBits();
      NoFlagsNoFaces(i + 1);
    }
  }

  /** The inner face loop: (fx, fy), (fx, fy + 2), ... while below size. */
  function FyLoop(fx: int, fy: nat, size: nat): (cells: seq<(int, int)>)
    ensures forall k | 0 <= k < |cells| :: cells[k].0 == fx && fy <= cells[k].1 < size && (cells[k].1 - fy) % 2 == 0
    decreases size - fy
  {
    if fy >= size then [] else [(fx, fy)] + FyLoop(fx, fy + 2, size)
  }

  /** The outer face loop: rows fx, fx + 2, ... while below size. */
  function FxLoop(fx: nat, size: nat): (cells: seq<(int, int)>)
    ensures forall k | 0 <= k < |cells| :: fx <= cells[k].0 < size && (cells[k].0 - fx) % 2 == 0
    ensures forall k | 0 <= k < |cells| :: 0 <= cells[k].1 < size && cells[k].1 % 2 == 0
    decreases size - fx
  {
    if fx >= size then [] else FyLoop(fx, 0, size) + FxLoop(fx + 2, size)
  }

  /** The face-local origins of the transition cells of one face. */
  function FaceCells(size: nat): (cells: seq<(int, int)>)
    ensures forall k | 0 <= k < |cells| ::
      0 <= cells[k].0 < size && cells[k].0 % 2 == 0 && 0 <= cells[k].1 < size && cells[k].1 % 2 == 0
  {
    FxLoop(0, size)
  }

  lemma {:induction false} FyLoopComplete(fx: int, fy: nat, size: nat, b: int)
    requires fy <= b < size && (b - fy) % 2 == 0
    ensures (fx, b) in FyLoop(fx, fy, size)
    decreases size - fy
  {
    if fy < b {
      FyLoopComplete(fx, fy + 2, size, b);
    }
  }

  lemma {:induction false} FxLoopComplete(fx: nat, size: nat, a: int, b: int)
    requires fx <= a < size && (a - fx) % 2 == 0 && 0 <= b < size && b % 2 == 0
    ensures (a, b) in FxLoop(fx, size)
    decreases size - fx
  {
    if fx == a {
      FyLoopComplete(a, 0, size, b);
    } else {
      FxLoopComplete(fx + 2, size, a, b);
    }
  }

  /** A face gets a transition cell at (a, b) exactly when both are even and below size. */
  lemma FaceCellsAreEvenPairs(size: nat, a: int, b: int)
    ensures (a, b) in FaceCells(size) <==>
      0 <= a < size && a % 2 == 0 && 0 <= b < size && b % 2 == 0
  {
    if 0 <= a < size && a % 2 == 0 && 0 <= b < size && b % 2 == 0 {
      FxLoopComplete(0, size, a, b);
    }
  }

  lemma {:induction false} FyLoopLength(fx: int, fy: nat, size: nat)
    requires fy <= size + 1
    ensures |FyLoop(fx, fy, size)| == (size + 1 - fy) / 2
    decreases size - fy
  {
    if fy < size {
      FyLoopLength(fx, fy + 2, size);
    }
  }

  lemma {:induction false} FxLoopLength(fx: nat, size: nat)
    requires fx <= size + 1
    ensures |FxLoop(fx, size)| == ((size + 1 - fx) / 2) * ((size + 1) / 2)
    decreases size - fx
  {
    if fx < size {
      FyLoopLength(fx, 0, size);
      FxLoopLength(fx + 2, size);
      var rows := (size + 1 - (fx + 2)) / 2;
      assert (size + 1 - fx) / 2 == rows + 1;
      assert (rows + 1) * ((size + 1) / 2) == rows * ((size + 1) / 2) + (size + 1) / 2;
    }
  }

  /** Each flagged face gets ceil(size / 2) squared transition cells. */
  lemma FaceCellCount(size: nat)
    ensures |FaceCells(size)| == ((size + 1) / 2) * ((size + 1) / 2)
  {
    FxLoopLength(0, size);
  }

  /**
    ConvertChunkFaceCoordToVoxelCoord: the cell position of face-local
    (fx, fy). On a named face the face-axis coordinate is 0 or size and fx,
    fy run along the same voxel axes as the transition cell's own tx, ty.
   */
  function ConvertChunkFaceCoordToVoxelCoord(fx: int, fy: int, direction: FaceMask, size: int): (p: Int3)
    ensures direction == None ==> p == Int3(0, 0, 0)
    ensures IsDirection(direction) ==>
      && p.Axis(FaceAxis(direction)) == (if IsPositive(direction) then size else 0)
      && FaceUAxis(direction) < 3 && p.Axis(FaceUAxis(direction)) == fx
      && FaceVAxis(direction) < 3 && p.Axis(FaceVAxis(direction)) == fy
  {
    if direction == None then Int3(0, 0, 0)
    else if direction == NegativeX then Int3(0, fy, fx)
    else if direction == PositiveX then Int3(size, fy, fx)
    else if direction == NegativeY then Int3(fx, 0, fy)
    else if direction == PositiveY then Int3(fx, size, fy)
    else if direction == NegativeZ then Int3(fx, fy, 0)
    else if direction == PositiveZ then Int3(fx, fy, size)
    else Int3(fx, fy, 0)
  }

  // ---------------------------------------------------------------------
  // Index safety: what the voxel grid must provide.
  // ---------------------------------------------------------------------

  /**
    The grid covers the chunk with `min` layers before it and at least two
    after it on every axis: with min = (1, 1, 1) this is the
    (size + 3)^3 volume the terrain settings allocate.
   */
  predicate CoversChunk(v: VoxelData, size: int, min: Int3) {
    && v.Valid()
    && 0 <= size
    && 1 <= min.x && min.x + size + 2 <= v.width
    && 1 <= min.y && min.y + size + 2 <= v.height
    && 1 <= min.z && min.z + size + 2 <= v.depth
  }

  /** Every regular cell of the chunk reads only inside such a grid. */
  lemma RegularCellsInBounds(v: VoxelData, size: int, min: Int3, pos: Int3)
    requires CoversChunk(v, size, min)
    requires 0 <= pos.x < size && 0 <= pos.y < size && 0 <= pos.z < size
    ensures CellInterior(v, pos.Add(min))
  {
  }

  /**
    Every transition cell of a named face reads only inside such a grid,
    provided the face-local origins stop two short of size: true for every
    even origin below an even size.
   */
  lemma TransitionCellsInBounds(v: VoxelData, size: int, min: Int3, direction: FaceMask, fx: int, fy: int)
    requires CoversChunk(v, size, min) && IsDirection(direction)
    requires OriginFits(size, (fx, fy))
    ensures TransitionCellInterior(v, ConvertChunkFaceCoordToVoxelCoord(fx, fy, direction, size).Add(min), direction)
  {
  }

  /** With an even size, the even face-local origins below size stop two short of it. */
  lemma EvenOriginsFit(size: int, a: int)
    requires size % 2 == 0 && 0 <= a < size && a % 2 == 0
    ensures a + 2 <= size
  {
  }

  // ---------------------------------------------------------------------
  // The passes.
  // ---------------------------------------------------------------------

  /** The regular-cell pass over a list of cell positions, in order. */
  function RegularPass(rt: RegularTables, ctx: MesherContext, st: MesherState, cells: seq<Int3>): (r: MesherState)
    requires rt.WellFormed() && ctx.voxelData.Valid() && Valid(st)
    requires forall k | 0 <= k < |cells| :: CellInterior(ctx.voxelData, cells[k].Add(ctx.min))
    ensures Valid(r) && Extends(st.mesh, r.mesh)
    decreases |cells|
  {
    if cells == [] then st
    else
      var st' := GenerateRegularCell(rt, ctx, st, cells[0]);
      RegularPass(rt, ctx, st', cells[1..])
  }

  /** A face-local origin whose 2x2 block of the face lies inside the chunk. */
  predicate OriginFits(size: int, cell: (int, int)) {
    0 <= cell.0 && cell.0 + 2 <= size && 0 <= cell.1 && cell.1 + 2 <= size
  }

  /** The transition cells of one face, in loop order. */
  function FacePass(tt: TransitionTables, ctx: MesherContext, st: MesherState, direction: FaceMask,
                    cells: seq<(int, int)>): (r: MesherState)
    requires tt.WellFormed() && CoversChunk(ctx.voxelData, ctx.size, ctx.min) && Valid(st)
    requires IsDirection(direction)
    requires forall k | 0 <= k < |cells| :: OriginFits(ctx.size, cells[k])
    ensures Valid(r) && Extends(st.mesh, r.mesh)
    decreases |cells|
  {
    if cells == [] then st
    else
      var pos := ConvertChunkFaceCoordToVoxelCoord(cells[0].0, cells[0].1, direction, ctx.size);
      TransitionCellsInBounds(ctx.voxelData, ctx.size, ctx.min, direction, cells[0].0, cells[0].1);
      var st' := GenerateTransitionCell(tt, ctx, st, pos, direction);
      FacePass(tt, ctx, st', direction, cells[1..])
  }

  /** The transition-cell pass: each face in turn. */
  function TransitionPass(tt: TransitionTables, ctx: MesherContext, st: MesherState, dirs: seq<FaceMask>): (r: MesherState)
    requires tt.WellFormed() && CoversChunk(ctx.voxelData, ctx.size, ctx.min) && Valid(st)
    requires dirs == [] || ctx.size % 2 == 0
    requires forall k | 0 <= k < |dirs| :: IsDirection(dirs[k])
    ensures Valid(r) && Extends(st.mesh, r.mesh)
    decreases |dirs|
  {
    if dirs == [] then st
    else
      var cells := FaceCells(ctx.size);
      assert forall k | 0 <= k < |cells| :: OriginFits(ctx.size, cells[k]) by {
        forall k | 0 <= k < |cells|
          ensures OriginFits(ctx.size, cells[k])
        {
          EvenOriginsFit(ctx.size, cells[k].0);
          EvenOriginsFit(ctx.size, cells[k].1);
        }
      }
      var st' := FacePass(tt, ctx, st, dirs[0], cells);
      TransitionPass(tt, ctx, st', dirs[1..])
  }

  /** The mesher the constructor builds: the grid, the chunk size, the faces with lower LOD and the offset. */
  function NewContext(voxelData: VoxelData, size: int, chunkFacesWithLowerLod: FaceMask, min: Int3,
                      normalize: Vec3 -> Vec3): (ctx: MesherContext)
    ensures ctx.voxelData == voxelData && ctx.size == size && ctx.min == min
    ensures ctx.chunkFacesWithLowerLod == chunkFacesWithLowerLod
  {
    MesherContext(voxelData, size, chunkFacesWithLowerLod, min, normalize)
  }

  /** Whether the chunk can be meshed without reading outside the grid. */
  predicate CanExtract(ctx: MesherContext) {
    && CoversChunk(ctx.voxelData, ctx.size, ctx.min)
    && (ctx.chunkFacesWithLowerLod == None || ctx.size % 2 == 0)
  }

  /** The state after the regular-cell pass, from a fresh mesh and cache. */
  function RegularStage(rt: RegularTables, ctx: MesherContext): (st: MesherState)
    requires rt.WellFormed() && CanExtract(ctx)
    ensures Valid(st)
  {
    var cells := RegularCellOrder(ctx.size);
    RegularCellOrderVisitsEachCellOnce(ctx.size);
    assert forall k | 0 <= k < |cells| :: cells[k] in cells;
    RegularPass(rt, ctx, InitialState(), cells)
  }

  /**
    ExtractSurface: the regular pass, then the transition pass over the
    flagged faces. The result is a well-formed mesh (one normal per
    vertex, whole triangles, every index naming a vertex) with no
    position emitted twice.
   */
  function ExtractSurface(rt: RegularTables, tt: TransitionTables, ctx: MesherContext): (m: TerrainMeshData)
    requires rt.WellFormed() && tt.WellFormed() && CanExtract(ctx)
    ensures WellFormed(m)
    ensures forall i, j | 0 <= i < |m.vertices| && 0 <= j < |m.vertices| :: m.vertices[i] == m.vertices[j] ==> i == j
  {
    var dirs := TransitionFaces(ctx.chunkFacesWithLowerLod);
    TransitionFacesAreFlaggedFaces(ctx.chunkFacesWithLowerLod, None);
    var st := TransitionPass(tt, ctx, RegularStage(rt, ctx), dirs);
    VerticesDistinct(st);
    st.mesh
  }

  /** A mask of None skips the transition pass: the mesh is the regular pass's alone. */
  lemma NoLowerLodMeansRegularOnly(rt: RegularTables, tt: TransitionTables, ctx: MesherContext)
    requires rt.WellFormed() && tt.WellFormed() && CanExtract(ctx)
    requires ctx.chunkFacesWithLowerLod == None
    ensures ExtractSurface(rt, tt, ctx) == RegularStage(rt, ctx).mesh
  {
    TransitionFacesAreFlaggedFaces(None, None);
  }

  // ---------------------------------------------------------------------
  // A grid with no sign change has no surface.
  // ---------------------------------------------------------------------

  /** Every density of the grid lies on the same side of the surface. */
  predicate SameSign(v: VoxelData) {
    (forall i | 0 <= i < |v.values| :: v.values[i] >= 0.0) ||
    (forall i | 0 <= i < |v.values| :: v.values[i] < 0.0)
  }

  lemma SampleSign(v: VoxelData, p: Int3)
    requires v.Valid() && InGrid(v, p)
    ensures (forall i | 0 <= i < |v.values| :: v.values[i] >= 0.0) ==> Sample(v, p) >= 0.0
    ensures (forall i | 0 <= i < |v.values| :: v.values[i] < 0.0) ==> Sample(v, p) < 0.0
  {
    FlatIndexInBounds(v.width, v.height, v.depth, p.x, p.y, p.z);
  }

  /** A regular cell of a same-sign grid has case code 0 or 255 and adds nothing. */
  lemma SameSignRegularCell(rt: RegularTables, ctx: MesherContext, st: MesherState, pos: Int3)
    requires rt.WellFormed() && ctx.voxelData.Valid() && Valid(st)
    requires CellInterior(ctx.voxelData, pos.Add(ctx.min)) && SameSign(ctx.voxelData)
    ensures GenerateRegularCell(rt, ctx, st, pos) == st
  {
    var o := pos.Add(ctx.min);
    var density := GetCellCorners(ctx.voxelData, o.x, o.y, o.z);
    forall i | 0 <= i < 8
      ensures (forall j | 0 <= j < |ctx.voxelData.values| :: ctx.voxelData.values[j] >= 0.0) ==> density[i] >= 0.0
      ensures (forall j | 0 <= j < |ctx.voxelData.values| :: ctx.voxelData.values[j] < 0.0) ==> density[i] < 0.0
    {
      SampleSign(ctx.voxelData, o.Add(CornerIndex[i]));
    }
    UniformCellCodes(density);
  }

  /** A transition cell of a same-sign grid has case code 0 or 511 and adds nothing. */
  lemma SameSignTransitionCell(tt: TransitionTables, ctx: MesherContext, st: MesherState, pos: Int3, direction: FaceMask)
    requires tt.WellFormed() && ctx.voxelData.Valid() && Valid(st)
    requires TransitionCellInterior(ctx.voxelData, pos.Add(ctx.min), direction) && SameSign(ctx.voxelData)
    ensures GenerateTransitionCell(tt, ctx, st, pos, direction) == st
  {
    var o := pos.Add(ctx.min);
    var samples := GetTransitionCellSamples(ctx.voxelData, o, direction);
    var offsets := GetTransitionVertexIndices(direction);
    forall i | 0 <= i < 9
      ensures (forall j | 0 <= j < |ctx.voxelData.values| :: ctx.voxelData.values[j] >= 0.0) ==> samples[i] >= 0.0
      ensures (forall j | 0 <= j < |ctx.voxelData.values| :: ctx.voxelData.values[j] < 0.0) ==> samples[i] < 0.0
    {
      SampleSign(ctx.voxelData, o.Add(offsets[i]));
    }
    UniformTransitionCodes(samples);
  }

  lemma {:induction false} SameSignRegularPass(rt: RegularTables, ctx: MesherContext, st: MesherState, cells: seq<Int3>)
    requires rt.WellFormed() && ctx.voxelData.Valid() && Valid(st) && SameSign(ctx.voxelData)
    requires forall k | 0 <= k < |cells| :: CellInterior(ctx.voxelData, cells[k].Add(ctx.min))
    ensures RegularPass(rt, ctx, st, cells) == st
    decreases |cells|
  {
    if cells != [] {
      SameSignRegularCell(rt, ctx, st, cells[0]);
      SameSignRegularPass(rt, ctx, st, cells[1..]);
    }
  }

  lemma {:induction false} SameSignFacePass(tt: TransitionTables, ctx: MesherContext, st: MesherState,
                                            direction: FaceMask, cells: seq<(int, int)>)
    requires tt.WellFormed() && CoversChunk(ctx.voxelData, ctx.size, ctx.min) && Valid(st) && SameSign(ctx.voxelData)
    requires IsDirection(direction)
    requires forall k | 0 <= k < |cells| :: OriginFits(ctx.size, cells[k])
    ensures FacePass(tt, ctx, st, direction, cells) == st
    decreases |cells|
  {
    if cells != [] {
      var pos := ConvertChunkFaceCoordToVoxelCoord(cells[0].0, cells[0].1, direction, ctx.size);
      TransitionCellsInBounds(ctx.voxelData, ctx.size, ctx.min, direction, cells[0].0, cells[0].1);
      SameSignTransitionCell(tt, ctx, st, pos, direction);
      SameSignFacePass(tt, ctx, st, direction, cells[1..]);
    }
  }

  lemma {:induction false} SameSignTransitionPass(tt: TransitionTables, ctx: MesherContext, st: MesherState, dirs: seq<FaceMask>)
    requires tt.WellFormed() && CoversChunk(ctx.voxelData, ctx.size, ctx.min) && Valid(st) && SameSign(ctx.voxelData)
    requires dirs == [] || ctx.size % 2 == 0
    requires forall k | 0 <= k < |dirs| :: IsDirection(dirs[k])
    ensures TransitionPass(tt, ctx, st, dirs) == st
    decreases |dirs|
  {
    if dirs != [] {
      var cells := FaceCells(ctx.size);
      forall k | 0 <= k < |cells|
        ensures OriginFits(ctx.size, cells[k])
      {
        EvenOriginsFit(ctx.size, cells[k].0);
        EvenOriginsFit(ctx.size, cells[k].1);
      }
      SameSignFacePass(tt, ctx, st, dirs[0], cells);
      SameSignTransitionPass(tt, ctx, st, dirs[1..]);
    }
  }

  /** A grid entirely outside (or entirely inside) the terrain yields an empty mesh. */
  lemma SameSignGridHasNoSurface(rt: RegularTables, tt: TransitionTables, ctx: MesherContext)
    requires rt.WellFormed() && tt.WellFormed() && CanExtract(ctx) && SameSign(ctx.voxelData)
    ensures var m := ExtractSurface(rt, tt, ctx);
      m.vertices == [] && m.normals == [] && m.triangles == []
  {
    var cells := RegularCellOrder(ctx.size);
    RegularCellOrderVisitsEachCellOnce(ctx.size);
    assert forall k | 0 <= k < |cells| :: cells[k] in cells;
    SameSignRegularPass(rt, ctx, InitialState(), cells);
    var dirs := TransitionFaces(ctx.chunkFacesWithLowerLod);
    TransitionFacesAreFlaggedFaces(ctx.chunkFacesWithLowerLod, None);
    SameSignTransitionPass(tt, ctx, InitialState(), dirs);
  }
}
