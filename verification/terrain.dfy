/**
 * The endless-terrain manager (EndlessTerrain): builds the LOD octree around
 * the viewer, works out each leaf chunk's lower-detail neighbours, diffs the
 * leaves against the chunks it already has, hides chunks that left the tree,
 * and gates rebuilds on viewer movement.
 */
module Terrain {
  import opened Geometry
  import opened Wrappers
  import opened Faces
  import opened Octrees
  import opened Chunks

  // ---------------------------------------------------------------------
  // Neighbour level of detail
  // ---------------------------------------------------------------------

  /** The point one chunk side (the x size) beyond the chunk's centre, across face d. */
  function ProbePoint(b: Bounds, d: FaceMask): Vec3
    requires IsDirection(d)
  {
    var s := if IsPositive(d) then b.size.x else -b.size.x;
    var axis := AxisOf(d);
    b.center.Add(if axis == 0 then Vec3(s, 0.0, 0.0) else if axis == 1 then Vec3(0.0, s, 0.0) else Vec3(0.0, 0.0, s))
  }

  /** The leaf across face d exists and is strictly larger, i.e. of lower detail. */
  predicate NeighborIsCoarser(t: Octree, b: Bounds, d: FaceMask)
    requires IsDirection(d)
  {
    var n := GetBound(t, ProbePoint(b, d));
    n.Some? && n.value.size.x > b.size.x
  }

  /** One probe: adds `face` when the leaf found at centre + offset is larger than the chunk. */
  function AddIfCoarser(t: Octree, b: Bounds, m: FaceMask, offset: Vec3, face: FaceMask): (r: FaceMask)
    ensures var n := GetBound(t, b.center.Add(offset));
      forall i | 0 <= i < 6 :: Bit(r, i) <==> Bit(m, i) || (n.Some? && n.value.size.x > b.size.x && Bit(face, i))
  {
    var n := GetBound(t, b.center.Add(offset));
    if n.Some? && n.value.size.x > b.size.x then m | face else m
  }

  /**
   * GetNeighborChunksWithLowerLod. Face bit i of the mask is set exactly when
   * the neighbour across face i is coarser.
   */
  function NeighborMask(t: Octree, b: Bounds): (r: FaceMask)
    ensures forall i | 0 <= i < 6 :: Bit(r, i) <==> NeighborIsCoarser(t, b, Direction(i))
  {
    ProbeMaskBits(t, b);
    ProbeMask(t, b)
  }

  /** The six probes, in the source's order +X, -X, +Y, -Y, +Z, -Z. */
  function ProbeMask(t: Octree, b: Bounds): FaceMask {
    var a := b.size.x;
    var m0 := AddIfCoarser(t, b, Faces.None, Vec3(a, 0.0, 0.0), PositiveX);
    var m1 := AddIfCoarser(t, b, m0, Vec3(-a, 0.0, 0.0), NegativeX);
    var m2 := AddIfCoarser(t, b, m1, Vec3(0.0, a, 0.0), PositiveY);
    var m3 := AddIfCoarser(t, b, m2, Vec3(0.0, -a, 0.0), NegativeY);
    var m4 := AddIfCoarser(t, b, m3, Vec3(0.0, 0.0, a), PositiveZ);
    AddIfCoarser(t, b, m4, Vec3(0.0, 0.0, -a), NegativeZ)
  }

  lemma ProbeMaskBits(t: Octree, b: Bounds)
    ensures forall i | 0 <= i < 6 :: Bit(ProbeMask(t, b), i) <==> NeighborIsCoarser(t, b, Direction(i))
  {
    forall i | 0 <= i < 6
      ensures Bit(ProbeMask(t, b), i) <==> NeighborIsCoarser(t, b, Direction(i))
    {
      ProbeMaskBit(t, b, i);
    }
  }

  /** One face bit of the probe mask is that face's neighbour test. */
  lemma ProbeMaskBit(t: Octree, b: Bounds, i: nat)
    requires i < 6
    ensures Bit(ProbeMask(t, b), i) <==> NeighborIsCoarser(t, b, Direction(i))
  {
    ProbesAreFacePoints(b);
    DirectionsAreOrderedSingleBits();
  }

  lemma ProbesAreFacePoints(b: Bounds)
    ensures ProbePoint(b, PositiveX) == b.center.Add(Vec3(b.size.x, 0.0, 0.0))
    ensures ProbePoint(b, NegativeX) == b.center.Add(Vec3(-b.size.x, 0.0, 0.0))
    ensures ProbePoint(b, PositiveY) == b.center.Add(Vec3(0.0, b.size.x, 0.0))
    ensures ProbePoint(b, NegativeY) == b.center.Add(Vec3(0.0, -b.size.x, 0.0))
    ensures ProbePoint(b, PositiveZ) == b.center.Add(Vec3(0.0, 0.0, b.size.x))
    ensures ProbePoint(b, NegativeZ) == b.center.Add(Vec3(0.0, 0.0, -b.size.x))
  {
  }

  /**
   * Face bit i is set exactly when the first leaf (in leaf order) holding the
   * probe point across that face is larger than the chunk: a probe that finds
   * no leaf adds nothing.
   */
  lemma NeighborMaskFromLeaves(t: Octree, b: Bounds, i: nat)
    requires i < 6
    ensures var n := FirstContaining(Leaves(t), ProbePoint(b, Direction(i)));
      Bit(NeighborMask(t, b), i) <==> n.Some? && n.value.size.x > b.size.x
  {
  }

  /** Faces whose probe falls outside the octree never ask for a transition. */
  lemma ProbeOutsideRootAddsNoBit(t: Octree, b: Bounds, i: nat)
    requires i < 6 && Valid(t) && t.bounds.NonNegative()
    requires !t.bounds.Contains(ProbePoint(b, Direction(i)))
    ensures !Bit(NeighborMask(t, b), i)
  {
    OutsideRootFindsNothing(t, ProbePoint(b, Direction(i)));
  }

  // ---------------------------------------------------------------------
  // The octree around the viewer
  // ---------------------------------------------------------------------

  /**
   * The octree UpdateVisibleChunks builds: a cube of side chunkSize times the
   * render-distance multiplier centred on the viewer's chunk position, with
   * the division count as minimum node size, and that position inserted.
   */
  function TerrainOctree(chunkPosition: Vec3, chunkSize: int, renderDistanceMultiplier: int, octreeDivisionCount: int): (t: Octree)
    requires octreeDivisionCount > 0
    ensures Valid(t) && t.bounds.center == chunkPosition
  {
    var side := (chunkSize * renderDistanceMultiplier) as real;
    Build(Bounds(chunkPosition, Vec3(side, side, side)), octreeDivisionCount as real, chunkPosition)
  }

  /** The viewer sits at the root's centre, so the root splits whenever it is above the minimum size. */
  lemma RootSplitsAboveMinimum(chunkPosition: Vec3, chunkSize: int, renderDistanceMultiplier: int, octreeDivisionCount: int)
    requires octreeDivisionCount > 0
    requires chunkSize * renderDistanceMultiplier > octreeDivisionCount
    ensures TerrainOctree(chunkPosition, chunkSize, renderDistanceMultiplier, octreeDivisionCount).Node?
  {
    var side := (chunkSize * renderDistanceMultiplier) as real;
    var root := Bounds(chunkPosition, Vec3(side, side, side));
    assert side > 0.0;
    assert side * side > 0.0 by {
      PositiveSquare(side);
    }
    assert chunkPosition.Sub(chunkPosition) == Vec3(0.0, 0.0, 0.0);
    assert ShouldSubdivide(root, chunkPosition, octreeDivisionCount as real);
  }

  lemma PositiveSquare(x: real)
    requires x > 0.0
    ensures x * x > 0.0
  {
  }

  // ---------------------------------------------------------------------
  // Diffing the leaves against the chunk dictionary
  // ---------------------------------------------------------------------

  /**
   * The chunk dictionary, the set of bounds visible this round, and the chunks
   * (named by their bounds) queued for meshing.
   */
  datatype TerrainState = TerrainState(chunks: map<Bounds, TerrainChunk>, visibleBounds: set<Bounds>, needUpdate: seq<Bounds>)

  /** Every chunk is filed under its own bounds. */
  predicate KeysMatchBounds(chunks: map<Bounds, TerrainChunk>) {
    forall k | k in chunks :: chunks[k].bounds == k
  }

  /** Two states of one chunk that differ at most in what is shown and whether it is visible. */
  predicate SameBookkeeping(a: TerrainChunk, b: TerrainChunk) {
    a.bounds == b.bounds && a.voxelData == b.voxelData && a.currentConfig == b.currentConfig &&
    a.available == b.available && a.mesh == b.mesh && a.built == b.built
  }

  /** Whether a chunk still needs a new mesh; its definition is not part of this model. */
  type NeedsMeshUpdate = TerrainChunk -> bool

  /**
   * One leaf of GetChunksThatNeedToUpdate: a known chunk tries to reuse a
   * cached mesh for its new mask and is queued or shown; an unknown bound
   * gets a new chunk carrying its mask, queued and filed. The reuse's
   * success flag is ignored here, so the corrected TryReuse has the same
   * effect as the code as written.
   */
  function VisitLeaf(t: Octree, needsMeshUpdate: NeedsMeshUpdate, s: TerrainState, bound: Bounds): (r: TerrainState)
    ensures r.visibleBounds == s.visibleBounds + {bound}
    ensures r.chunks.Keys == s.chunks.Keys + {bound}
    ensures forall k | k in s.chunks && k != bound :: r.chunks[k] == s.chunks[k]
    ensures bound in s.chunks ==> SameBookkeeping(r.chunks[bound], s.chunks[bound])
    ensures bound !in s.chunks ==> r.chunks[bound] == NewChunk(bound, NeighborMask(t, bound)) && bound in r.needUpdate
    ensures s.needUpdate <= r.needUpdate && |r.needUpdate| <= |s.needUpdate| + 1
    ensures forall j | |s.needUpdate| <= j < |r.needUpdate| :: r.needUpdate[j] == bound
  {
    var mask := NeighborMask(t, bound);
    if bound in s.chunks then
      var c := TryReuse(s.chunks[bound], mask).0;
      if needsMeshUpdate(c) then
        TerrainState(s.chunks[bound := c], s.visibleBounds + {bound}, s.needUpdate + [bound])
      else
        TerrainState(s.chunks[bound := SetVisible(c, true)], s.visibleBounds + {bound}, s.needUpdate)
    else
      var c := NewChunk(bound, mask);
      TerrainState(s.chunks[bound := c], s.visibleBounds + {bound}, s.needUpdate + [bound])
  }

  function VisitLeaves(t: Octree, needsMeshUpdate: NeedsMeshUpdate, s: TerrainState, leaves: seq<Bounds>): (r: TerrainState)
    ensures r.visibleBounds == s.visibleBounds + set x | x in leaves
    ensures r.chunks.Keys == s.chunks.Keys + set x | x in leaves
    ensures s.needUpdate <= r.needUpdate
    decreases |leaves|
  {
    if leaves == [] then s
    else
      var s' := VisitLeaf(t, needsMeshUpdate, s, leaves[0]);
      assert (set x | x in leaves) == {leaves[0]} + set x | x in leaves[1..];
      VisitLeaves(t, needsMeshUpdate, s', leaves[1..])
  }

  /** Everything queued after position `from` is one of the leaves. */
  predicate QueuedOnly(queue: seq<Bounds>, from: nat, leaves: seq<Bounds>) {
    forall j | from <= j < |queue| :: queue[j] in leaves
  }

  /** Only leaves are queued. */
  lemma {:induction false} VisitQueuesLeaves(t: Octree, needsMeshUpdate: NeedsMeshUpdate, s: TerrainState, leaves: seq<Bounds>)
    ensures QueuedOnly(VisitLeaves(t, needsMeshUpdate, s, leaves).needUpdate, |s.needUpdate|, leaves)
    decreases |leaves|
  {
    if leaves != [] {
      var s' := VisitLeaf(t, needsMeshUpdate, s, leaves[0]);
      var r := VisitLeaves(t, needsMeshUpdate, s', leaves[1..]);
      assert r == VisitLeaves(t, needsMeshUpdate, s, leaves);
      VisitQueuesLeaves(t, needsMeshUpdate, s', leaves[1..]);
      assert QueuedOnly(r.needUpdate, |s'.needUpdate|, leaves[1..]);
      forall j | |s.needUpdate| <= j < |r.needUpdate|
        ensures r.needUpdate[j] in leaves
      {
        if j >= |s'.needUpdate| {
          assert r.needUpdate[j] in leaves[1..];
        } else {
          assert r.needUpdate[j] == s'.needUpdate[j] == leaves[0];
        }
      }
    }
  }

  /** GetChunksThatNeedToUpdate: a fresh visible set and queue, then every leaf in leaf order. */
  function GetChunksThatNeedToUpdate(t: Octree, needsMeshUpdate: NeedsMeshUpdate, chunks: map<Bounds, TerrainChunk>): (r: TerrainState)
    ensures r.visibleBounds == set x | x in Leaves(t)
    ensures r.chunks.Keys == chunks.Keys + r.visibleBounds
    ensures forall j | 0 <= j < |r.needUpdate| :: r.needUpdate[j] in r.visibleBounds
  {
    var r := VisitLeaves(t, needsMeshUpdate, TerrainState(chunks, {}, []), Leaves(t));
    VisitQueuesLeaves(t, needsMeshUpdate, TerrainState(chunks, {}, []), Leaves(t));
    assert QueuedOnly(r.needUpdate, 0, Leaves(t));
    r
  }

  /**
   * After the diff every leaf has a chunk; a leaf that had none gets one
   * carrying its neighbour mask and with nothing cached, and is queued for
   * meshing; chunks that already existed keep their mask and cache.
   */
  lemma DiffFilesEveryLeaf(t: Octree, needsMeshUpdate: NeedsMeshUpdate, chunks: map<Bounds, TerrainChunk>)
    ensures var r := GetChunksThatNeedToUpdate(t, needsMeshUpdate, chunks);
      && (forall x | x in Leaves(t) :: x in r.chunks)
      && (forall k | k in chunks :: k in r.chunks && r.chunks[k].currentConfig == chunks[k].currentConfig
                                     && r.chunks[k].available == chunks[k].available)
      && (forall x | x in Leaves(t) && x !in chunks ::
            r.chunks[x].bounds == x && r.chunks[x].currentConfig == NeighborMask(t, x) &&
            r.chunks[x].available == map[] && x in r.needUpdate)
  {
    var s0 := TerrainState(chunks, {}, []);
    VisitKeepsKnownChunks(t, needsMeshUpdate, s0, Leaves(t));
    VisitFilesNewChunks(t, needsMeshUpdate, s0, Leaves(t));
  }

  /** Chunks already filed keep everything but what they show and whether they are visible. */
  lemma {:induction false} VisitKeepsKnownChunks(t: Octree, needsMeshUpdate: NeedsMeshUpdate, s: TerrainState, leaves: seq<Bounds>)
    ensures var r := VisitLeaves(t, needsMeshUpdate, s, leaves);
      forall k | k in s.chunks :: SameBookkeeping(r.chunks[k], s.chunks[k])
    decreases |leaves|
  {
    if leaves != [] {
      var s' := VisitLeaf(t, needsMeshUpdate, s, leaves[0]);
      VisitKeepsKnownChunks(t, needsMeshUpdate, s', leaves[1..]);
    }
  }

  /** A leaf not yet filed gets a new chunk carrying its neighbour mask, and is queued. */
  lemma {:induction false} VisitFilesNewChunks(t: Octree, needsMeshUpdate: NeedsMeshUpdate, s: TerrainState, leaves: seq<Bounds>)
    ensures var r := VisitLeaves(t, needsMeshUpdate, s, leaves);
      forall x | x in leaves && x !in s.chunks ::
        SameBookkeeping(r.chunks[x], NewChunk(x, NeighborMask(t, x))) && x in r.needUpdate
    decreases |leaves|
  {
    if leaves != [] {
      var s' := VisitLeaf(t, needsMeshUpdate, s, leaves[0]);
      var r := VisitLeaves(t, needsMeshUpdate, s', leaves[1..]);
      VisitFilesNewChunks(t, needsMeshUpdate, s', leaves[1..]);
      VisitKeepsKnownChunks(t, needsMeshUpdate, s', leaves[1..]);
      if leaves[0] !in s.chunks {
        assert leaves[0] in s'.needUpdate;
        assert leaves[0] in r.needUpdate;
      }
      forall x | x in leaves && x !in s.chunks
        ensures SameBookkeeping(r.chunks[x], NewChunk(x, NeighborMask(t, x))) && x in r.needUpdate
      {
        if x != leaves[0] {
          assert x in leaves[1..];
        }
      }
    }
  }

  /** The diff keeps every chunk filed under its own bounds. */
  lemma {:induction false} VisitKeepsKeysMatching(t: Octree, needsMeshUpdate: NeedsMeshUpdate, s: TerrainState, leaves: seq<Bounds>)
    requires KeysMatchBounds(s.chunks)
    ensures KeysMatchBounds(VisitLeaves(t, needsMeshUpdate, s, leaves).chunks)
    decreases |leaves|
  {
    if leaves != [] {
      VisitKeepsKeysMatching(t, needsMeshUpdate, VisitLeaf(t, needsMeshUpdate, s, leaves[0]), leaves[1..]);
    }
  }

  // ---------------------------------------------------------------------
  // Hiding chunks that left the tree
  // ---------------------------------------------------------------------

  /** HideChunksThatAreNotVisible: hides each chunk whose bounds are not visible, leaves the rest alone. */
  function HideChunksThatAreNotVisible(chunks: map<Bounds, TerrainChunk>, visible: set<Bounds>): (r: map<Bounds, TerrainChunk>)
    ensures r.Keys == chunks.Keys
    ensures forall k | k in chunks :: chunks[k].bounds !in visible ==> !r[k].visible
    ensures forall k | k in chunks :: chunks[k].bounds in visible ==> r[k] == chunks[k]
    ensures forall k | k in chunks :: r[k].(visible := chunks[k].visible) == chunks[k]
  {
    map k | k in chunks :: if chunks[k].bounds !in visible then SetVisible(chunks[k], false) else chunks[k]
  }

  /**
   * After the diff and the hide, exactly the chunks of bounds that are no
   * longer leaves are hidden; chunks of leaves are as the diff left them.
   */
  lemma HiddenExactlyOffTree(t: Octree, needsMeshUpdate: NeedsMeshUpdate, chunks: map<Bounds, TerrainChunk>)
    requires KeysMatchBounds(chunks)
    ensures var r := GetChunksThatNeedToUpdate(t, needsMeshUpdate, chunks);
      var h := HideChunksThatAreNotVisible(r.chunks, r.visibleBounds);
      && h.Keys == chunks.Keys + (set x | x in Leaves(t))
      && (forall k | k in h && k !in Leaves(t) :: !h[k].visible)
      && (forall k | k in h && k in Leaves(t) :: h[k] == r.chunks[k])
  {
    VisitKeepsKeysMatching(t, needsMeshUpdate, TerrainState(chunks, {}, []), Leaves(t));
  }

  // ---------------------------------------------------------------------
  // Update gating
  // ---------------------------------------------------------------------

  /** The viewer position of the last rebuild and whether a generation is in flight. */
  datatype Scheduler = Scheduler(viewerPositionOld: Vec3, generationScheduled: bool)

  predicate MovedPastThreshold(s: Scheduler, viewer: Vec3, sqrThreshold: real) {
    s.viewerPositionOld.Sub(viewer).SqrMagnitude() > sqrThreshold
  }

  /** Update: a rebuild starts (and is marked scheduled) only when the viewer moved far enough and none is pending. */
  function Update(s: Scheduler, viewer: Vec3, sqrThreshold: real): (r: (Scheduler, bool))
    ensures r.1 <==> MovedPastThreshold(s, viewer, sqrThreshold) && !s.generationScheduled
    ensures r.1 ==> r.0 == Scheduler(viewer, true)
    ensures !r.1 ==> r.0 == s
  {
    if MovedPastThreshold(s, viewer, sqrThreshold) && !s.generationScheduled then
      (Scheduler(viewer, true), true)
    else
      (s, false)
  }

  /** The end of ProcessGeneratedChunks: results applied, a new rebuild may start. */
  function FinishGeneration(s: Scheduler): (r: Scheduler)
    ensures !r.generationScheduled && r.viewerPositionOld == s.viewerPositionOld
  {
    s.(generationScheduled := false)
  }

  /** Frames of Update with no generation finishing in between; returns the rebuilds started. */
  function RunUpdates(s: Scheduler, viewers: seq<Vec3>, sqrThreshold: real): (r: (Scheduler, nat))
    decreases |viewers|
  {
    if viewers == [] then (s, 0)
    else
      var step := Update(s, viewers[0], sqrThreshold);
      var rest := RunUpdates(step.0, viewers[1..], sqrThreshold);
      (rest.0, rest.1 + (if step.1 then 1 else 0))
  }

  /** While a generation is pending no frame starts another, and the state stays put. */
  lemma {:induction false} PendingBlocksRebuilds(s: Scheduler, viewers: seq<Vec3>, sqrThreshold: real)
    requires s.generationScheduled
    ensures RunUpdates(s, viewers, sqrThreshold) == (s, 0)
    decreases |viewers|
  {
    if viewers != [] {
      PendingBlocksRebuilds(s, viewers[1..], sqrThreshold);
    }
  }

  /** Between two finished generations at most one rebuild starts. */
  lemma {:induction false} AtMostOneRebuildInFlight(s: Scheduler, viewers: seq<Vec3>, sqrThreshold: real)
    ensures RunUpdates(s, viewers, sqrThreshold).1 <= 1
    ensures RunUpdates(s, viewers, sqrThreshold).1 == 1 ==> RunUpdates(s, viewers, sqrThreshold).0.generationScheduled
    decreases |viewers|
  {
    if viewers != [] {
      var step := Update(s, viewers[0], sqrThreshold);
      if step.1 {
        PendingBlocksRebuilds(step.0, viewers[1..], sqrThreshold);
      } else {
        AtMostOneRebuildInFlight(step.0, viewers[1..], sqrThreshold);
      }
    }
  }
}
