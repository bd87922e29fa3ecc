/**
  The transition-cell mesher (TransvoxelTransitionCellMesher): one
  transition cell of Lengyel's Transvoxel algorithm on a chunk face that
  borders a lower level of detail. The cell has nine full-resolution
  samples 0..8 on a 3x3 grid of the face and four half-resolution points
  9..C, which the source places on the same voxels as samples 0, 2, 6, 8.
 */
module TransitionCells {
  import opened Geometry
  import opened Faces
  import opened Voxels
  import opened MeshData
  import opened Tables
  import opened Common
  import opened CellMesher

  /** The axis a face direction points along; None and anything unnamed fall to z, as the switch's default does. */
  function FaceAxis(direction: FaceMask): (a: nat)
    ensures a < 3
    ensures IsDirection(direction) ==> a == AxisOf(direction)
  {
    if direction == NegativeX || direction == PositiveX then 0
    else if direction == NegativeY || direction == PositiveY then 1
    else 2
  }

  /** The voxel axis that carries the face-local tx: z on x faces, x otherwise. */
  function FaceUAxis(direction: FaceMask): nat {
    if direction == NegativeX || direction == PositiveX then 2 else 0
  }

  /** The voxel axis that carries the face-local ty: z on y faces, y otherwise. */
  function FaceVAxis(direction: FaceMask): nat {
    if direction == NegativeY || direction == PositiveY then 2 else 1
  }

  /** The three axes of a face orientation are x, y and z in some order. */
  lemma FaceAxesArePermutation(direction: FaceMask)
    ensures FaceUAxis(direction) < 3 && FaceVAxis(direction) < 3
    ensures FaceAxis(direction) != FaceUAxis(direction)
    ensures FaceAxis(direction) != FaceVAxis(direction)
    ensures FaceUAxis(direction) != FaceVAxis(direction)
  {
  }

  /**
    ConvertTransitionCellCoordToVoxelCoord: orients the face-local cell
    coordinate (tx, ty, tz) so that tz runs along the face axis and tx, ty
    along the two axes of the face plane.
   */
  function ConvertTransitionCellCoordToVoxelCoord(tx: int, ty: int, tz: int, direction: FaceMask): (p: Int3)
    ensures p.Axis(FaceAxis(direction)) == tz
    ensures FaceUAxis(direction) < 3 && p.Axis(FaceUAxis(direction)) == tx
    ensures FaceVAxis(direction) < 3 && p.Axis(FaceVAxis(direction)) == ty
  {
    if direction == NegativeX || direction == PositiveX then Int3(tz, ty, tx)
    else if direction == NegativeY || direction == PositiveY then Int3(tx, tz, ty)
    else Int3(tx, ty, tz)
  }

  /** Two face-local points of one direction land on the same voxel only if they are the same point. */
  lemma ConvertInjective(tx: int, ty: int, tz: int, tx': int, ty': int, tz': int, direction: FaceMask)
    requires ConvertTransitionCellCoordToVoxelCoord(tx, ty, tz, direction) ==
             ConvertTransitionCellCoordToVoxelCoord(tx', ty', tz', direction)
    ensures tx == tx' && ty == ty' && tz == tz'
  {
  }

  /** Face-local column and row of the thirteen points in the numbering of Figure 4.16: 0..8 row by row, then 9, A, B, C at the corners. */
  const GridX: seq<int> := [0, 1, 2, 0, 1, 2, 0, 1, 2, 0, 2, 0, 2]
  const GridY: seq<int> := [0, 0, 0, 1, 1, 1, 2, 2, 2, 0, 0, 2, 2]

  /** GetTransitionVertexIndices: the voxel offsets of the thirteen points of the cell. */
  function GetTransitionVertexIndices(direction: FaceMask): (offsets: seq<Int3>)
    ensures |offsets| == 13
    ensures forall i | 0 <= i < 13 :: offsets[i] == ConvertTransitionCellCoordToVoxelCoord(GridX[i], GridY[i], 0, direction)
  {
    [
      ConvertTransitionCellCoordToVoxelCoord(0, 0, 0, direction),
      ConvertTransitionCellCoordToVoxelCoord(1, 0, 0, direction),
      ConvertTransitionCellCoordToVoxelCoord(2, 0, 0, direction),
      ConvertTransitionCellCoordToVoxelCoord(0, 1, 0, direction),
      ConvertTransitionCellCoordToVoxelCoord(1, 1, 0, direction),
      ConvertTransitionCellCoordToVoxelCoord(2, 1, 0, direction),
      ConvertTransitionCellCoordToVoxelCoord(0, 2, 0, direction),
      ConvertTransitionCellCoordToVoxelCoord(1, 2, 0, direction),
      ConvertTransitionCellCoordToVoxelCoord(2, 2, 0, direction),
      ConvertTransitionCellCoordToVoxelCoord(0, 0, 0, direction),
      ConvertTransitionCellCoordToVoxelCoord(2, 0, 0, direction),
      ConvertTransitionCellCoordToVoxelCoord(0, 2, 0, direction),
      ConvertTransitionCellCoordToVoxelCoord(2, 2, 0, direction)
    ]
  }

  /** The grid numbers the nine full-resolution samples row by row, and 9..C repeat the corners 0, 2, 6, 8. */
  lemma GridNumbering()
    ensures forall i | 0 <= i < 9 :: GridX[i] == i % 3 && GridY[i] == i / 3
    ensures forall i | 0 <= i < 13 :: GridX[i] == GridX[AliasOf(i)] && GridY[i] == GridY[AliasOf(i)]
  {
  }

  /** Points 9..C sit on the voxels of samples 0, 2, 6, 8. */
  lemma HalfResolutionOffsetsAlias(direction: FaceMask)
    ensures var offsets := GetTransitionVertexIndices(direction);
      forall i | 0 <= i < 13 :: offsets[i] == offsets[AliasOf(i)]
  {
    GridNumbering();
  }

  /**
    The cell lies in the face plane: every offset is 0 along the face axis
    and 0..2 along the other two, and the nine full-resolution samples are
    nine different voxels.
   */
  lemma TransitionOffsetsOnFace(direction: FaceMask)
    ensures var offsets := GetTransitionVertexIndices(direction);
      && (forall i | 0 <= i < 13 :: offsets[i].Axis(FaceAxis(direction)) == 0)
      && (forall i | 0 <= i < 13 ::
            0 <= offsets[i].x <= 2 && 0 <= offsets[i].y <= 2 && 0 <= offsets[i].z <= 2)
      && (forall i, j | 0 <= i < 9 && 0 <= j < 9 && i != j :: offsets[i] != offsets[j])
  {
    var offsets := GetTransitionVertexIndices(direction);
    forall i, j | 0 <= i < 9 && 0 <= j < 9 && offsets[i] == offsets[j]
      ensures i == j
    {
      ConvertInjective(GridX[i], GridY[i], 0, GridX[j], GridY[j], 0, direction);
    }
  }

  /**
    The cell at `o` can be sampled, and the normals of its nine samples
    computed: one voxel of margin on every side of the 3x3 face grid, which
    spans 1 voxel along the face axis and 3 along the other two.
   */
  predicate TransitionCellInterior(v: VoxelData, o: Int3, direction: FaceMask) {
    var a := FaceAxis(direction);
    && 1 <= o.x && o.x + (if a == 0 then 1 else 3) < v.width
    && 1 <= o.y && o.y + (if a == 1 then 1 else 3) < v.height
    && 1 <= o.z && o.z + (if a == 2 then 1 else 3) < v.depth
  }

  lemma TransitionPointsInterior(v: VoxelData, o: Int3, direction: FaceMask)
    requires TransitionCellInterior(v, o, direction)
    ensures forall i | 0 <= i < 13 :: Interior(v, o.Add(GetTransitionVertexIndices(direction)[i]))
  {
    TransitionOffsetsOnFace(direction);
  }

  /** GetTransitionCellSamples: the density at each of the thirteen points. */
  function GetTransitionCellSamples(v: VoxelData, o: Int3, direction: FaceMask): (samples: seq<real>)
    requires v.Valid() && TransitionCellInterior(v, o, direction)
    ensures |samples| == 13
    ensures forall i | 0 <= i < 13 ::
      InGrid(v, o.Add(GetTransitionVertexIndices(direction)[i])) &&
      samples[i] == Sample(v, o.Add(GetTransitionVertexIndices(direction)[i]))
  {
    var offsets := GetTransitionVertexIndices(direction);
    TransitionPointsInterior(v, o, direction);
    seq(13, i requires 0 <= i < 13 => Sample(v, o.Add(offsets[i])))
  }

  /** The half-resolution points repeat the samples of the four corner voxels. */
  lemma HalfResolutionSamplesAlias(v: VoxelData, o: Int3, direction: FaceMask)
    requires v.Valid() && TransitionCellInterior(v, o, direction)
    ensures var samples := GetTransitionCellSamples(v, o, direction);
      forall i | 0 <= i < 13 :: samples[i] == samples[AliasOf(i)]
  {
    var samples := GetTransitionCellSamples(v, o, direction);
    var offsets := GetTransitionVertexIndices(direction);
    HalfResolutionOffsetsAlias(direction);
    forall i | 0 <= i < 13
      ensures samples[i] == samples[AliasOf(i)]
    {
      assert offsets[i] == offsets[AliasOf(i)];
    }
  }

  /** GetSignBit of the transition mesher: -1 (all ones) for a negative sample, else 0. */
  function GetSignBit(value: real): bv32 {
    if value < 0.0 then 0xFFFF_FFFF else 0
  }

  /**
    GetTransitionCaseCode (Figure 4.17 of Lengyel's thesis): the sign of
    full-resolution sample i goes to bit TransitionCodeBit[i] of a 9-bit code.
   */
  function GetTransitionCaseCode(cellSamples: seq<real>): (code: bv32)
    requires |cellSamples| >= 9
    ensures code < 512
    ensures forall i | 0 <= i < 9 :: CodeBit(code, TransitionCodeBit[i]) <==> cellSamples[i] < 0.0
  {
    ((GetSignBit(cellSamples[0]) >> 8) & 0x01)
    | ((GetSignBit(cellSamples[1]) >> 7) & 0x02)
    | ((GetSignBit(cellSamples[2]) >> 6) & 0x04)
    | ((GetSignBit(cellSamples[3]) >> 5) & 0x80)
    | ((GetSignBit(cellSamples[4]) >> 4) & 0x100)
    | ((GetSignBit(cellSamples[5]) >> 3) & 0x08)
    | ((GetSignBit(cellSamples[6]) >> 2) & 0x40)
    | ((GetSignBit(cellSamples[7]) >> 1) & 0x20)
    | (GetSignBit(cellSamples[8]) & 0x10)
  }

  /** TransitionCodeBit sends the nine samples to the nine bits 0..8, one each. */
  lemma TransitionCodeBitIsPermutation()
    ensures |TransitionCodeBit| == 9
    ensures forall i | 0 <= i < 9 :: TransitionCodeBit[i] < 9
    ensures forall i, j | 0 <= i < 9 && 0 <= j < 9 && i != j :: TransitionCodeBit[i] != TransitionCodeBit[j]
  {
  }

  /** No negative sample gives code 0; nine negative samples give code 511. */
  lemma UniformTransitionCodes(s: seq<real>)
    requires |s| >= 9
    ensures (forall i | 0 <= i < 9 :: s[i] >= 0.0) ==> GetTransitionCaseCode(s) == 0
    ensures (forall i | 0 <= i < 9 :: s[i] < 0.0) ==> GetTransitionCaseCode(s) == 511
  {
  }

  /** Extends the nine per-sample values with copies for points 9..C, as `cellNormals[0x9] = cellNormals[0]` and so on do. */
  function WithCornerCopies<T>(full: seq<T>): (r: seq<T>)
    requires |full| == 9
    ensures |r| == 13
    ensures forall i | 0 <= i < 13 :: r[i] == full[AliasOf(i)]
  {
    full + [full[0], full[2], full[6], full[8]]
  }

  /**
    The thirteen normals: the nine samples' central-difference normals, and
    copies of those of samples 0, 2, 6, 8 for points 9..C. Each equals the
    normal computed at that point's own voxel.
   */
  function TransitionNormals(ctx: MesherContext, o: Int3, direction: FaceMask): (normals: seq<Vec3>)
    requires ctx.voxelData.Valid() && TransitionCellInterior(ctx.voxelData, o, direction)
    ensures |normals| == 13
    ensures forall i | 0 <= i < 13 ::
      Interior(ctx.voxelData, o.Add(GetTransitionVertexIndices(direction)[i])) &&
      normals[i] == CentralDifferenceNormal(ctx, o.Add(GetTransitionVertexIndices(direction)[i]))
  {
    var offsets := GetTransitionVertexIndices(direction);
    TransitionPointsInterior(ctx.voxelData, o, direction);
    HalfResolutionOffsetsAlias(direction);
    var points := seq(9, i requires 0 <= i < 9 => o.Add(offsets[i]));
    WithCornerCopies(NormalsAt(ctx, points))
  }

  /** The central-difference normal at each of a list of interior points. */
  function NormalsAt(ctx: MesherContext, points: seq<Int3>): (normals: seq<Vec3>)
    requires ctx.voxelData.Valid() && forall i | 0 <= i < |points| :: Interior(ctx.voxelData, points[i])
    ensures |normals| == |points|
    ensures forall i | 0 <= i < |points| :: normals[i] == CentralDifferenceNormal(ctx, points[i])
  {
    seq(|points|, i requires 0 <= i < |points| => CentralDifferenceNormal(ctx, points[i]))
  }

  /**
    The triangle flip: bit 7 of the cell class says the stored winding must
    be reversed, and the source inverts that on the faces -Z, +X and +Y: the
    flip is the winding bit exclusive-or "the face is -Z, +X or +Y".
   */
  predicate FlipTriangles(direction: FaceMask, cellClass: bv8): (b: bool)
    ensures b <==> ((cellClass >> 7) == 1) != (direction in {NegativeZ, PositiveX, PositiveY})
  {
    if direction == NegativeZ || direction == PositiveX || direction == PositiveY then
      cellClass & 0x80 == 0
    else
      cellClass & 0x80 != 0
  }

  /** For one cell class, the two faces of each axis wind their triangles in opposite orders. */
  lemma OppositeFacesWindOppositely(cellClass: bv8)
    ensures FlipTriangles(NegativeX, cellClass) != FlipTriangles(PositiveX, cellClass)
    ensures FlipTriangles(NegativeY, cellClass) != FlipTriangles(PositiveY, cellClass)
    ensures FlipTriangles(NegativeZ, cellClass) != FlipTriangles(PositiveZ, cellClass)
  {
  }

  /**
    isFullResSide: for a vertex strictly inside its edge, whether either
    endpoint is a full-resolution sample; for a vertex on an endpoint
    (t = 0 puts it on v1, otherwise on v0), whether that endpoint is one.
    An edge between two full-resolution points always counts, one between
    two half-resolution points never does.
   */
  predicate IsFullResSide(t: real, v0: nat, v1: nat): (b: bool)
    ensures v0 < 9 && v1 < 9 ==> b
    ensures v0 >= 9 && v1 >= 9 ==> !b
    ensures 0.0 < t < 1.0 ==> (b <==> v0 < 9 || v1 < 9)
  {
    if 0.0 < t < 1.0 then v1 < 9 || v0 < 9
    else (if t == 0.0 then v1 else v0) < 9
  }

  /**
    On a crossing edge the weight is 0 exactly when the second sample is 0
    (the vertex is then the second endpoint) and 1 exactly when the first
    is; in those cases isFullResSide asks about the endpoint the vertex
    coincides with.
   */
  lemma FullResSideAtEndpoints(d0: real, d1: real, p0: Vec3, p1: Vec3, v0: nat, v1: nat)
    requires (d0 < 0.0) != (d1 < 0.0)
    ensures d1 - d0 != 0.0
    ensures EdgeParameter(d0, d1) == 0.0 <==> d1 == 0.0
    ensures EdgeParameter(d0, d1) == 1.0 <==> d0 == 0.0
    ensures d1 == 0.0 ==> Interpolate(p0, p1, EdgeParameter(d0, d1)) == p1 && (IsFullResSide(EdgeParameter(d0, d1), v0, v1) <==> v1 < 9)
    ensures d0 == 0.0 ==> Interpolate(p0, p1, EdgeParameter(d0, d1)) == p0 && (IsFullResSide(EdgeParameter(d0, d1), v0, v1) <==> v0 < 9)
  {
    InterpolationFindsZeroCrossing(d0, d1);
    var t := EdgeParameter(d0, d1);
    assert t * (d1 - d0) == d1;
    if t == 1.0 {
      assert d1 - d0 == d1;
    }
  }

  /** An edge between two of the thirteen points that lie on opposite sides of the surface. */
  predicate CrossingEdge(samples: seq<real>, loc: bv16) {
    EdgeStart(loc) < 13 && EdgeEnd(loc) < 13 && EdgeStart(loc) < |samples| && EdgeEnd(loc) < |samples| &&
    ((samples[EdgeStart(loc)] < 0.0) != (samples[EdgeEnd(loc)] < 0.0))
  }

  /** Every one of the first `count` vertex locations lies on a crossing edge. */
  predicate AllEdgesCross(samples: seq<real>, locs: seq<bv16>, count: nat) {
    count <= |locs| && forall k | 0 <= k < count :: CrossingEdge(samples, locs[k])
  }

  /** Whether the transition vertex on (v0, v1) at weight t is pushed back: it is on the full-resolution side and an endpoint qualifies. */
  predicate TransitionPushedBack(ctx: MesherContext, t: real, v0: nat, v1: nat, p0i: Int3, p1i: Int3) {
    IsFullResSide(t, v0, v1) &&
    (PositionShouldUseBePushedBack(p0i.Sub(ctx.min), ctx.size, ctx.chunkFacesWithLowerLod) ||
     PositionShouldUseBePushedBack(p1i.Sub(ctx.min), ctx.size, ctx.chunkFacesWithLowerLod))
  }

  /**
    The position and normal of the vertex the table places on edge `loc` of
    the transition cell. The on-edge point p sits where the linearly
    interpolated sample is zero. An unpushed vertex is p itself; a pushed one
    moves away from p only along the surface (for a unit normal), and not at
    all when p is already inside the band [1, size-2].
   */
  function TransitionVertex(ctx: MesherContext, o: Int3, direction: FaceMask, samples: seq<real>,
                            normals: seq<Vec3>, loc: bv16): (r: (Vec3, Vec3))
    requires |samples| == 13 && |normals| == 13 && CrossingEdge(samples, loc)
    ensures var v0, v1 := EdgeStart(loc), EdgeEnd(loc);
      var t := EdgeParameter(samples[v0], samples[v1]);
      var offsets := GetTransitionVertexIndices(direction);
      var p0i, p1i := o.Add(offsets[v0]), o.Add(offsets[v1]);
      var p := Interpolate(p0i.ToVec3(), p1i.ToVec3(), t);
      && samples[v1] - samples[v0] != 0.0 && 0.0 <= t <= 1.0
      && samples[v0] * t + samples[v1] * (1.0 - t) == 0.0
      && r.1 == Interpolate(normals[v0], normals[v1], t)
      && (!TransitionPushedBack(ctx, t, v0, v1, p0i, p1i) ==> r.0 == p)
      && (TransitionPushedBack(ctx, t, v0, v1, p0i, p1i) && r.1.Dot(r.1) == 1.0 ==> r.0.Sub(p).Dot(r.1) == 0.0)
      && (TransitionPushedBack(ctx, t, v0, v1, p0i, p1i) && ctx.size >= 3 && InBand(p, ctx.size) ==> r.0 == p)
  {
    var v0 := EdgeStart(loc);
    var v1 := EdgeEnd(loc);
    var d0 := samples[v0];
    var d1 := samples[v1];
    InterpolationFindsZeroCrossing(d0, d1);
    var t := EdgeParameter(d0, d1);
    var normal := Interpolate(normals[v0], normals[v1], t);
    var offsets := GetTransitionVertexIndices(direction);
    var p0i := o.Add(offsets[v0]);
    var p1i := o.Add(offsets[v1]);
    var vertex := Interpolate(p0i.ToVec3(), p1i.ToVec3(), t);
    if TransitionPushedBack(ctx, t, v0, v1, p0i, p1i) then
      (GetSecondaryVertexPosition(vertex, normal, ctx.size), normal)
    else
      (vertex, normal)
  }

  /** A vertex on the half-resolution side of the cell is never pushed back: it stays on its edge. */
  lemma HalfResolutionVertexStays(ctx: MesherContext, o: Int3, direction: FaceMask, samples: seq<real>,
                                  normals: seq<Vec3>, loc: bv16)
    requires |samples| == 13 && |normals| == 13 && CrossingEdge(samples, loc)
    requires EdgeStart(loc) >= 9 && EdgeEnd(loc) >= 9
    ensures var offsets := GetTransitionVertexIndices(direction);
      var d0 := samples[EdgeStart(loc)];
      var d1 := samples[EdgeEnd(loc)];
      exists t: real :: 0.0 <= t <= 1.0 && d0 * t + d1 * (1.0 - t) == 0.0 &&
        TransitionVertex(ctx, o, direction, samples, normals, loc).0 ==
          Interpolate(o.Add(offsets[EdgeStart(loc)]).ToVec3(), o.Add(offsets[EdgeEnd(loc)]).ToVec3(), t)
  {
    var d0 := samples[EdgeStart(loc)];
    var d1 := samples[EdgeEnd(loc)];
    InterpolationFindsZeroCrossing(d0, d1);
    var t := EdgeParameter(d0, d1);
    assert !IsFullResSide(t, EdgeStart(loc), EdgeEnd(loc));
    var offsets := GetTransitionVertexIndices(direction);
    assert 0.0 <= t <= 1.0 && d0 * t + d1 * (1.0 - t) == 0.0;
    assert TransitionVertex(ctx, o, direction, samples, normals, loc).0 ==
      Interpolate(o.Add(offsets[EdgeStart(loc)]).ToVec3(), o.Add(offsets[EdgeEnd(loc)]).ToVec3(), t);
  }

  /** The class index of a case code: the cell class with its winding bit cleared. */
  function TransitionClassIndex(tt: TransitionTables, code: bv32): nat
    requires tt.WellFormed() && code < 512
  {
    (tt.cellClass[code] & 0x7F) as nat
  }

  /** The class data the tables give for a case code, which has a location for each of its vertices. */
  function TransitionClassOf(tt: TransitionTables, code: bv32): (data: CellData)
    requires tt.WellFormed() && code < 512
    ensures data.WellFormed() && data.vertexCount <= |tt.vertexData[code as nat]|
  {
    assert tt.CaseWellFormed(code);
    tt.cellData[TransitionClassIndex(tt, code)]
  }

  /** The case-code bit of a point's (aliased) sample is the sign of that point's density. */
  lemma CodeBitIsSampleSign(samples: seq<real>, v: nat)
    requires |samples| == 13 && v < 13
    requires forall i | 0 <= i < 13 :: samples[i] == samples[AliasOf(i)]
    ensures AliasOf(v) < 9
    ensures CodeBit(GetTransitionCaseCode(samples), TransitionCodeBit[AliasOf(v)]) <==> samples[v] < 0.0
  {
    assert samples[v] == samples[AliasOf(v)];
  }

  /** Vertex k of the class of the cell's case code lies on an edge whose endpoints have opposite signs. */
  lemma TransitionTableEdgeCrosses(tt: TransitionTables, samples: seq<real>, k: nat)
    requires tt.WellFormed() && |samples| == 13
    requires forall i | 0 <= i < 13 :: samples[i] == samples[AliasOf(i)]
    requires k < TransitionClassOf(tt, GetTransitionCaseCode(samples)).vertexCount
    ensures CrossingEdge(samples, tt.vertexData[GetTransitionCaseCode(samples) as nat][k])
  {
    var code := GetTransitionCaseCode(samples);
    assert tt.CaseWellFormed(code);
    var loc := tt.vertexData[code as nat][k];
    CodeBitIsSampleSign(samples, EdgeStart(loc));
    CodeBitIsSampleSign(samples, EdgeEnd(loc));
  }

  /**
    With well-formed tables and the aliased samples of a real cell, every
    vertex the class of the case code asks for sits on an edge whose
    endpoints lie on opposite sides of the surface.
   */
  lemma TransitionTableEdgesCross(tt: TransitionTables, samples: seq<real>)
    requires tt.WellFormed() && |samples| == 13
    requires forall i | 0 <= i < 13 :: samples[i] == samples[AliasOf(i)]
    ensures var code := GetTransitionCaseCode(samples);
      AllEdgesCross(samples, tt.vertexData[code as nat], TransitionClassOf(tt, code).vertexCount)
  {
    var code := GetTransitionCaseCode(samples);
    var locs := tt.vertexData[code as nat];
    forall k | 0 <= k < TransitionClassOf(tt, code).vertexCount
      ensures CrossingEdge(samples, locs[k])
    {
      TransitionTableEdgeCrosses(tt, samples, k);
    }
  }

  /**
    The part of GenerateTransitionCell after the empty-case return: the
    shared vertex and triangle loops, placing each vertex with
    TransitionVertex and winding as FlipTriangles says.
   */
  function EmitTransitionCell(tt: TransitionTables, ctx: MesherContext, st: MesherState, o: Int3,
                              direction: FaceMask, samples: seq<real>): (r: MesherState)
    requires tt.WellFormed() && ctx.voxelData.Valid() && Valid(st)
    requires TransitionCellInterior(ctx.voxelData, o, direction)
    requires |samples| == 13 && forall i | 0 <= i < 13 :: samples[i] == samples[AliasOf(i)]
    ensures Valid(r) && Extends(st.mesh, r.mesh)
    ensures |r.mesh.triangles| ==
      |st.mesh.triangles| + 3 * TransitionClassOf(tt, GetTransitionCaseCode(samples)).triangleCount
  {
    var caseCode := GetTransitionCaseCode(samples);
    var cellNormals := TransitionNormals(ctx, o, direction);
    var flip := FlipTriangles(direction, tt.cellClass[caseCode]);
    var cellData := TransitionClassOf(tt, caseCode);
    var vertexLocations := tt.vertexData[caseCode as nat];
    TransitionTableEdgesCross(tt, samples);
    var place := (loc: bv16) requires CrossingEdge(samples, loc) =>
      TransitionVertex(ctx, o, direction, samples, cellNormals, loc);
    assert forall k | 0 <= k < cellData.vertexCount :: place.requires(vertexLocations[k]);
    EmitCell(place, vertexLocations, cellData, flip, st)
  }

  /** The case code of the transition cell at cell position `pos` on face `direction`. */
  function TransitionCaseCode(ctx: MesherContext, pos: Int3, direction: FaceMask): (code: bv32)
    requires ctx.voxelData.Valid() && TransitionCellInterior(ctx.voxelData, pos.Add(ctx.min), direction)
    ensures code < 512
  {
    GetTransitionCaseCode(GetTransitionCellSamples(ctx.voxelData, pos.Add(ctx.min), direction))
  }

  /**
    GenerateTransitionCell: codes 0 and 511 leave the state untouched; any
    other code appends the class's vertices (welded through the cache) and
    exactly 3 * triangleCount indices, each naming an existing vertex.
   */
  function GenerateTransitionCell(tt: TransitionTables, ctx: MesherContext, st: MesherState, pos: Int3,
                                  direction: FaceMask): (r: MesherState)
    requires tt.WellFormed() && ctx.voxelData.Valid() && Valid(st)
    requires TransitionCellInterior(ctx.voxelData, pos.Add(ctx.min), direction)
    ensures Valid(r) && Extends(st.mesh, r.mesh)
    ensures var code := TransitionCaseCode(ctx, pos, direction);
      && (code == 0 || code == 511 ==> r == st)
      && (code != 0 && code != 511 ==>
            |r.mesh.triangles| == |st.mesh.triangles| + 3 * TransitionClassOf(tt, code).triangleCount)
  {
    var offsetPos := pos.Add(ctx.min);
    var cellSamples := GetTransitionCellSamples(ctx.voxelData, offsetPos, direction);
    var caseCode := GetTransitionCaseCode(cellSamples);
    if caseCode == 0 || caseCode == 511 then
      st
    else
      HalfResolutionSamplesAlias(ctx.voxelData, offsetPos, direction);
      EmitTransitionCell(tt, ctx, st, offsetPos, direction, cellSamples)
  }
}
