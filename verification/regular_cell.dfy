/**
  The regular-cell mesher (TransvoxelRegularCellMesher): the modified
  marching-cubes step of Lengyel's Transvoxel algorithm for one unit cell,
  appending to the shared mesh and vertex cache.
 */
module RegularCells {
  import opened Geometry
  import opened Faces
  import opened Cache
  import opened Voxels
  import opened MeshData
  import opened Tables
  import opened Common
  import opened CellMesher

  /** Corner offsets of a cell in the numbering of Figure 3.7 (bit 0 = x, bit 1 = y, bit 2 = z). */
  const CornerIndex: seq<Int3> := [
    Int3(0, 0, 0), Int3(1, 0, 0), Int3(0, 1, 0), Int3(1, 1, 0),
    Int3(0, 0, 1), Int3(1, 0, 1), Int3(0, 1, 1), Int3(1, 1, 1)]

  /** Corner i of the cell at the origin has coordinates given by the three bits of i. */
  lemma CornerIndexIsBinary()
    ensures |CornerIndex| == 8
    ensures forall i | 0 <= i < 8 ::
      CornerIndex[i] == Int3(i % 2, (i / 2) % 2, i / 4)
  {
  }

  /** All eight corners of the cell at `o`, and their normals, can be read. */
  predicate CellInterior(v: VoxelData, o: Int3) {
    1 <= o.x && o.x + 2 < v.width && 1 <= o.y && o.y + 2 < v.height && 1 <= o.z && o.z + 2 < v.depth
  }

  lemma CornersInterior(v: VoxelData, o: Int3)
    requires CellInterior(v, o)
    ensures forall i | 0 <= i < 8 :: Interior(v, o.Add(CornerIndex[i]))
  {
  }

  /** GetCellCorners: the eight densities, in the order of Figure 3.7. */
  function GetCellCorners(v: VoxelData, x: int, y: int, z: int): (density: seq<real>)
    requires v.Valid() && CellInterior(v, Int3(x, y, z))
    ensures |density| == 8
    ensures forall i | 0 <= i < 8 :: density[i] == Sample(v, Int3(x, y, z).Add(CornerIndex[i]))
  {
    [
      Sample(v, Int3(x, y, z)),
      Sample(v, Int3(x + 1, y, z)),
      Sample(v, Int3(x, y + 1, z)),
      Sample(v, Int3(x + 1, y + 1, z)),
      Sample(v, Int3(x, y, z + 1)),
      Sample(v, Int3(x + 1, y, z + 1)),
      Sample(v, Int3(x, y + 1, z + 1)),
      Sample(v, Int3(x + 1, y + 1, z + 1))
    ]
  }

  /**
    GetSignBit: all ones (C#'s -1) for a negative sample, else zero. Zero
    therefore counts as outside.
   */
  function GetSignBit(value: real): bv32 {
    if value < 0.0 then 0xFFFF_FFFF else 0
  }

  /**
    Listing 3.1: bit i of the case code is the sign of corner i. The source
    shifts an int -1 arithmetically; the low bits kept by each mask are the
    same under the logical shift used here.
   */
  function GetCaseCode(cellSamples: seq<real>): (code: bv32)
    requires |cellSamples| >= 8
    ensures code < 256
    ensures forall i | 0 <= i < 8 :: CodeBit(code, i) <==> cellSamples[i] < 0.0
  {
    ((GetSignBit(cellSamples[0]) >> 7) & 0x01)
    | ((GetSignBit(cellSamples[1]) >> 6) & 0x02)
    | ((GetSignBit(cellSamples[2]) >> 5) & 0x04)
    | ((GetSignBit(cellSamples[3]) >> 4) & 0x08)
    | ((GetSignBit(cellSamples[4]) >> 3) & 0x10)
    | ((GetSignBit(cellSamples[5]) >> 2) & 0x20)
    | ((GetSignBit(cellSamples[6]) >> 1) & 0x40)
    | (GetSignBit(cellSamples[7]) & 0x80)
  }

  /** A cell with no negative corner has code 0; one with only negative corners has code 255. */
  lemma UniformCellCodes(s: seq<real>)
    requires |s| >= 8
    ensures (forall i | 0 <= i < 8 :: s[i] >= 0.0) ==> GetCaseCode(s) == 0
    ensures (forall i | 0 <= i < 8 :: s[i] < 0.0) ==> GetCaseCode(s) == 255
  {
  }

  /** The normals at the eight corners. */
  function CornerNormals(ctx: MesherContext, o: Int3): (normals: seq<Vec3>)
    requires ctx.voxelData.Valid() && CellInterior(ctx.voxelData, o)
    ensures |normals| == 8
  {
    CornersInterior(ctx.voxelData, o);
    seq(8, i requires 0 <= i < 8 => CentralDifferenceNormal(ctx, o.Add(CornerIndex[i])))
  }

  /** An edge the tables may place a vertex on: two corners on opposite sides of the surface. */
  predicate CrossingEdge(density: seq<real>, loc: bv16) {
    EdgeStart(loc) < 8 && EdgeEnd(loc) < 8 && EdgeStart(loc) < |density| && EdgeEnd(loc) < |density| &&
    ((density[EdgeStart(loc)] < 0.0) != (density[EdgeEnd(loc)] < 0.0))
  }

  /** Every one of the first `count` vertex locations lies on a crossing edge. */
  predicate AllEdgesCross(density: seq<real>, locs: seq<bv16>, count: nat) {
    count <= |locs| && forall k | 0 <= k < count :: CrossingEdge(density, locs[k])
  }

  /** Whether the vertex on edge (p0i, p1i) is pushed back: either endpoint, taken relative to min, qualifies. */
  predicate EdgePushedBack(ctx: MesherContext, p0i: Int3, p1i: Int3) {
    PositionShouldUseBePushedBack(p0i.Sub(ctx.min), ctx.size, ctx.chunkFacesWithLowerLod) ||
    PositionShouldUseBePushedBack(p1i.Sub(ctx.min), ctx.size, ctx.chunkFacesWithLowerLod)
  }

  /** The point on edge `loc` at the interpolation weight of its two corner densities. */
  function EdgePoint(o: Int3, density: seq<real>, loc: bv16): Vec3
    requires |density| == 8 && CrossingEdge(density, loc)
  {
    var d0, d1 := density[EdgeStart(loc)], density[EdgeEnd(loc)];
    InterpolationFindsZeroCrossing(d0, d1);
    Interpolate(o.Add(CornerIndex[EdgeStart(loc)]).ToVec3(), o.Add(CornerIndex[EdgeEnd(loc)]).ToVec3(), EdgeParameter(d0, d1))
  }

  /**
    The position and normal of the vertex the table places on edge `loc`.
    The on-edge point p sits where the linearly interpolated density is zero.
    An unpushed vertex is p itself; a pushed one moves away from p only along
    the surface (for a unit normal), and not at all when p is already inside
    the band [1, size-2].
   */
  function RegularVertex(ctx: MesherContext, o: Int3, density: seq<real>, normals: seq<Vec3>, loc: bv16): (r: (Vec3, Vec3))
    requires |density| == 8 && |normals| == 8 && CrossingEdge(density, loc)
    ensures var d0, d1 := density[EdgeStart(loc)], density[EdgeEnd(loc)];
      var t := EdgeParameter(d0, d1);
      && d1 - d0 != 0.0 && 0.0 <= t <= 1.0 && d0 * t + d1 * (1.0 - t) == 0.0
      && r.1 == Interpolate(normals[EdgeStart(loc)], normals[EdgeEnd(loc)], t)
    ensures var p := EdgePoint(o, density, loc);
      var pushed := EdgePushedBack(ctx, o.Add(CornerIndex[EdgeStart(loc)]), o.Add(CornerIndex[EdgeEnd(loc)]));
      && (!pushed ==> r.0 == p)
      && (pushed && r.1.Dot(r.1) == 1.0 ==> r.0.Sub(p).Dot(r.1) == 0.0)
      && (pushed && ctx.size >= 3 && InBand(p, ctx.size) ==> r.0 == p)
  {
    var v0 := EdgeStart(loc);
    var v1 := EdgeEnd(loc);
    var d0 := density[v0];
    var d1 := density[v1];
    InterpolationFindsZeroCrossing(d0, d1);
    var t := EdgeParameter(d0, d1);
    var p0i := o.Add(CornerIndex[v0]);
    var p1i := o.Add(CornerIndex[v1]);
    var vertex := EdgePoint(o, density, loc);
    var normal := Interpolate(normals[v0], normals[v1], t);
    if EdgePushedBack(ctx, p0i, p1i) then
      (GetSecondaryVertexPosition(vertex, normal, ctx.size), normal)
    else
      (vertex, normal)
  }

  /** The case code of the cell at cell position `pos`. */
  function RegularCaseCode(ctx: MesherContext, pos: Int3): (code: bv32)
    requires ctx.voxelData.Valid() && CellInterior(ctx.voxelData, pos.Add(ctx.min))
    ensures code < 256
  {
    var o := pos.Add(ctx.min);
    GetCaseCode(GetCellCorners(ctx.voxelData, o.x, o.y, o.z))
  }

  /** The class data the tables give for a case code, which has a location for each of its vertices. */
  function ClassOf(rt: RegularTables, code: bv32): (data: CellData)
    requires rt.WellFormed() && code < 256
    ensures data.WellFormed() && data.vertexCount <= |rt.vertexData[code as nat]|
  {
    assert rt.CaseWellFormed(code);
    rt.cellData[rt.cellClass[code as nat]]
  }

  /**
    With well-formed tables, every vertex the class of a cell's case code
    asks for sits on an edge whose corners the case code puts on opposite
    sides, so the interpolation never divides by zero.
   */
  lemma TableEdgesCross(rt: RegularTables, density: seq<real>)
    requires rt.WellFormed() && |density| == 8
    ensures var code := GetCaseCode(density);
      AllEdgesCross(density, rt.vertexData[code as nat], ClassOf(rt, code).vertexCount)
  {
    var code := GetCaseCode(density);
    var locs := rt.vertexData[code as nat];
    var count := ClassOf(rt, code).vertexCount;
    assert rt.CaseWellFormed(code);
    forall k | 0 <= k < count
      ensures CrossingEdge(density, locs[k])
    {
      var a, b := EdgeStart(locs[k]), EdgeEnd(locs[k]);
      assert a < 8 && b < 8 && CodeBit(code, a) != CodeBit(code, b);
      assert CodeBit(code, a) <==> density[a] < 0.0;
      assert CodeBit(code, b) <==> density[b] < 0.0;
    }
  }

  /**
    The part of GenerateRegularCell after the empty-case return: the shared
    vertex and triangle loops, placing each vertex with RegularVertex.
   */
  function EmitRegularCell(rt: RegularTables, ctx: MesherContext, st: MesherState, o: Int3, density: seq<real>): (r: MesherState)
    requires rt.WellFormed() && ctx.voxelData.Valid() && Valid(st)
    requires CellInterior(ctx.voxelData, o) && |density| == 8
    ensures Valid(r) && Extends(st.mesh, r.mesh)
    ensures |r.mesh.triangles| == |st.mesh.triangles| + 3 * ClassOf(rt, GetCaseCode(density)).triangleCount
  {
    var caseCode := GetCaseCode(density);
    var cornerNormals := CornerNormals(ctx, o);
    var cellData := ClassOf(rt, caseCode);
    var vertexLocations := rt.vertexData[caseCode as nat];
    TableEdgesCross(rt, density);
    var place := (loc: bv16) requires CrossingEdge(density, loc) => RegularVertex(ctx, o, density, cornerNormals, loc);
    assert forall k | 0 <= k < cellData.vertexCount :: place.requires(vertexLocations[k]);
    EmitCell(place, vertexLocations, cellData, false, st)
  }

  /**
    GenerateRegularCell: codes 0 and 255 leave the state untouched; any
    other code appends the class's vertices (welded through the cache) and
    exactly 3 * triangleCount indices, each naming an existing vertex.
   */
  function GenerateRegularCell(rt: RegularTables, ctx: MesherContext, st: MesherState, pos: Int3): (r: MesherState)
    requires rt.WellFormed() && ctx.voxelData.Valid() && Valid(st)
    requires CellInterior(ctx.voxelData, pos.Add(ctx.min))
    ensures Valid(r) && Extends(st.mesh, r.mesh)
    ensures var code := RegularCaseCode(ctx, pos);
      && (code == 0 || code == 255 ==> r == st)
      && (code != 0 && code != 255 ==>
            |r.mesh.triangles| == |st.mesh.triangles| + 3 * ClassOf(rt, code).triangleCount)
  {
    var offsetPos := pos.Add(ctx.min);
    var density := GetCellCorners(ctx.voxelData, offsetPos.x, offsetPos.y, offsetPos.z);
    var caseCode := GetCaseCode(density);
    if caseCode == 0 || caseCode == 255 then
      st
    else
      EmitRegularCell(rt, ctx, st, offsetPos, density)
  }
}
