/**
  Helpers shared by the regular and transition cell meshers (TransvoxelCommon):
  the face mask of a voxel position, the push-back rule of Figure 4.13 of
  Lengyel's Transvoxel paper, and the border offset of its equations 4.2 and 4.3.
 */
module Common {
  import opened Geometry
  import opened Faces

  function Flag(c: bool, i: nat): FaceMask
    requires i < 6
  {
    (if c then 1 else 0) << i
  }

  /**
    The faces of a cube of side `size` (corners 0 and size on each axis) on
    which a position lies: bit 2a for coordinate a equal to 0, bit 2a+1 for
    coordinate a equal to size.
   */
  function ConvertPositionToFaceMask(pos: Int3, size: int): (m: FaceMask)
    ensures Bit(m, 0) <==> pos.x == 0
    ensures Bit(m, 1) <==> pos.x == size
    ensures Bit(m, 2) <==> pos.y == 0
    ensures Bit(m, 3) <==> pos.y == size
    ensures Bit(m, 4) <==> pos.z == 0
    ensures Bit(m, 5) <==> pos.z == size
  {
    Flag(pos.x == 0, 0) | Flag(pos.x == size, 1) |
    Flag(pos.y == 0, 2) | Flag(pos.y == size, 3) |
    Flag(pos.z == 0, 4) | Flag(pos.z == size, 5)
  }

  /** Whether any face of the position mask is among the chunk faces that border a lower LOD. */
  predicate FaceTransitionsToLowerLod(faceMask: FaceMask, chunkFacesWithLowerLod: FaceMask) {
    var transitionMask := chunkFacesWithLowerLod;
    if transitionMask == 0 then false
    else transitionMask & faceMask > 0
  }

  /** The "not a power of two" test: the mask has two or more bits set. */
  predicate FaceMaskIsEdge(positionFaceMask: FaceMask) {
    positionFaceMask & (positionFaceMask - 1) != 0
  }

  /**
    Whether a vertex at `pos` must be pushed back to make room for transition
    cells: it lies on at least one face, and if it lies on an edge or corner
    (two or more faces) then all of them transition to a lower LOD. Stated
    without the case split: it lies on some face and every face it lies on
    transitions.
   */
  predicate PositionShouldUseBePushedBack(pos: Int3, size: int, chunkFacesWithLowerLod: FaceMask): (b: bool)
    ensures var fm := ConvertPositionToFaceMask(pos, size);
      b <==> fm != None && HasFlag(chunkFacesWithLowerLod, fm)
  {
    var positionFaceMask := ConvertPositionToFaceMask(pos, size);
    if positionFaceMask == 0 || !FaceTransitionsToLowerLod(positionFaceMask, chunkFacesWithLowerLod) then
      false
    else if FaceMaskIsEdge(positionFaceMask) then
      chunkFacesWithLowerLod & positionFaceMask == positionFaceMask
    else
      true
  }

  /** The edge test is exactly "at least two bits set"; in particular it is false for 0. */
  lemma FaceMaskIsEdgeIffTwoBits(m: FaceMask)
    ensures FaceMaskIsEdge(m) <==> PopCount(m) >= 2
  {
  }

  /** Positions on no face, and any position when no face transitions, are never pushed back. */
  lemma NeverPushedWithoutFaceOrTransition(pos: Int3, size: int, lower: FaceMask)
    requires ConvertPositionToFaceMask(pos, size) == None || lower == None
    ensures !PositionShouldUseBePushedBack(pos, size, lower)
  {
  }

  /** On exactly one face, the position is pushed back iff that face transitions. */
  lemma SingleFacePushBack(pos: Int3, size: int, lower: FaceMask, i: nat)
    requires i < 6 && ConvertPositionToFaceMask(pos, size) == Direction(i)
    ensures PositionShouldUseBePushedBack(pos, size, lower) <==> Bit(lower, i)
  {
  }

  /** On an edge or corner, the position is pushed back iff all of its faces transition. */
  lemma EdgePushBack(pos: Int3, size: int, lower: FaceMask)
    requires PopCount(ConvertPositionToFaceMask(pos, size)) >= 2
    ensures PositionShouldUseBePushedBack(pos, size, lower) <==>
      forall i | 0 <= i < 6 :: Bit(ConvertPositionToFaceMask(pos, size), i) ==> Bit(lower, i)
  {
  }

  // Equation 4.2, with the LOD index fixed at 0 as in the source.
  const LodIndex: nat := 0
  const TransitionCellScale: real := 0.25

  /** One axis of the border offset of equation 4.2 at LOD index 0. */
  function BorderOffsetAxis(p: real, size: int): real {
    var p2k := 1.0;          // 2^lodIndex with lodIndex = 0
    var p2mk := 1.0 / p2k;   // 2^-lodIndex
    var wk := TransitionCellScale * p2k;
    var s := size - 1;
    if p < p2k then (1.0 - p2mk * p) * wk
    else if p > p2k * (s - 1) as real then ((s - 1) as real - p2mk * p) * wk
    else 0.0
  }

  function Clamp(p: real, lo: real, hi: real): real
    requires lo <= hi
  {
    if p < lo then lo else if p > hi then hi else p
  }

  /**
    Reference form of equation 4.2 at LOD 0: the offset moves a coordinate a
    quarter of the way back to the band [1, size-2]; it is zero inside the
    band, positive below it and negative above it.
   */
  lemma BorderOffsetTowardsBand(p: real, size: int)
    requires size >= 3
    ensures BorderOffsetAxis(p, size) == (Clamp(p, 1.0, (size - 2) as real) - p) / 4.0
    ensures 1.0 <= p <= (size - 2) as real ==> BorderOffsetAxis(p, size) == 0.0
    ensures p < 1.0 ==> BorderOffsetAxis(p, size) == (1.0 - p) / 4.0 > 0.0
    ensures p > (size - 2) as real ==> BorderOffsetAxis(p, size) == ((size - 2) as real - p) / 4.0 < 0.0
  {
  }

  /**
    Equation 4.2 applied to each axis: every coordinate moves a quarter of the
    way back to the band [1, size-2].
   */
  function GetBorderOffset(pos: Vec3, size: int): (r: Vec3)
    ensures size >= 3 ==>
      r.x == (Clamp(pos.x, 1.0, (size - 2) as real) - pos.x) / 4.0 &&
      r.y == (Clamp(pos.y, 1.0, (size - 2) as real) - pos.y) / 4.0 &&
      r.z == (Clamp(pos.z, 1.0, (size - 2) as real) - pos.z) / 4.0
  {
    Vec3(BorderOffsetAxis(pos.x, size), BorderOffsetAxis(pos.y, size), BorderOffsetAxis(pos.z, size))
  }

  /**
    Equation 4.3 written out as the source does, as the matrix (I - n n^T)
    applied to delta. (The source also builds a swizzled copy of the result
    and discards it.) The matrix form is delta minus its component along
    the normal.
   */
  function ProjectBorderOffset(delta: Vec3, normal: Vec3): (r: Vec3)
    ensures r == delta.Sub(normal.Scale(normal.Dot(delta)))
  {
    var n, k := normal, normal.Dot(delta);
    assert n.x * k == n.x * n.x * delta.x + n.x * n.y * delta.y + n.x * n.z * delta.z;
    assert n.y * k == n.y * n.x * delta.x + n.y * n.y * delta.y + n.y * n.z * delta.z;
    assert n.z * k == n.z * n.x * delta.x + n.z * n.y * delta.y + n.z * n.z * delta.z;
    Vec3(
      (1.0 - normal.x * normal.x) * delta.x - normal.y * normal.x * delta.y - normal.z * normal.x * delta.z,
      -normal.x * normal.y * delta.x + (1.0 - normal.y * normal.y) * delta.y - normal.z * normal.y * delta.z,
      -normal.x * normal.z * delta.x - normal.y * normal.z * delta.y + (1.0 - normal.z * normal.z) * delta.z)
  }

  /** For a unit normal the projected offset is tangent to the surface, and projecting again changes nothing. */
  lemma ProjectionIsTangent(delta: Vec3, n: Vec3)
    requires n.Dot(n) == 1.0
    ensures ProjectBorderOffset(delta, n).Dot(n) == 0.0
    ensures ProjectBorderOffset(ProjectBorderOffset(delta, n), n) == ProjectBorderOffset(delta, n)
  {
    var k := n.Dot(delta);
    var q := delta.Sub(n.Scale(k));
    assert q.Dot(n) == delta.Dot(n) - k * n.Dot(n);
  }

  /**
    The pushed-back position: the primary position plus the projected border
    offset. For a unit normal it moves only along the surface, and a position
    already inside the band [1, size-2] on every axis does not move.
   */
  function GetSecondaryVertexPosition(primaryPosition: Vec3, normal: Vec3, size: int): (r: Vec3)
    ensures normal.Dot(normal) == 1.0 ==> r.Sub(primaryPosition).Dot(normal) == 0.0
    ensures size >= 3 && InBand(primaryPosition, size) ==> r == primaryPosition
  {
    var delta := ProjectBorderOffset(GetBorderOffset(primaryPosition, size), normal);
    var r := primaryPosition.Add(delta);
    assert r.Sub(primaryPosition) == delta;
    if normal.Dot(normal) == 1.0 then
      ProjectionIsTangent(GetBorderOffset(primaryPosition, size), normal);
      r
    else
      r
  }

  /** Every coordinate lies in [1, size-2], where the border offset is zero. */
  predicate InBand(p: Vec3, size: int) {
    1.0 <= p.x <= (size - 2) as real && 1.0 <= p.y <= (size - 2) as real && 1.0 <= p.z <= (size - 2) as real
  }
}
