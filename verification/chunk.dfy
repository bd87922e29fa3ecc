/**
 * A terrain chunk's bookkeeping (TerrainChunk): its bounds, the face mask of
 * lower-detail neighbours its mesh was made for, and a cache of one mesh per
 * face mask so a chunk can switch seams without meshing again.
 */
module Chunks {
  import opened Wrappers
  import opened Faces
  import opened Octrees
  import opened Voxels
  import opened MeshData

  /**
   * `mesh` is the chunk's own mesh field, `shown` the mesh its renderer
   * displays, `built` whether its game object exists. The mesh cache is
   * keyed by the face mask's integer value, as the C# enum is.
   */
  datatype TerrainChunk = TerrainChunk(
    bounds: Bounds,
    voxelData: Option<VoxelData>,
    currentConfig: FaceMask,
    available: map<int, TerrainMeshData>,
    mesh: Option<TerrainMeshData>,
    shown: Option<TerrainMeshData>,
    built: bool,
    visible: bool)

  /** A mesh is cached for the face mask. */
  predicate Cached(c: TerrainChunk, mask: FaceMask) {
    mask as int in c.available
  }

  datatype ChunkError = MissingVoxelData | MissingMesh

  /**
   * The constructor: no voxels, no mesh, nothing cached yet. Seen through the
   * operations, no face mask can be reused and building fails for want of
   * voxel data.
   */
  function NewChunk(bounds: Bounds, neighborsWithLowerLod: FaceMask): (c: TerrainChunk)
    ensures c.bounds == bounds && c.currentConfig == neighborsWithLowerLod
    ensures c.available == map[] && c.mesh.None? && c.voxelData.None? && !c.built
    ensures forall m: FaceMask :: !Cached(c, m) && !TryReuse(c, m).1 && TryReuse(c, m).0 == c
    ensures BuildChunk(c) == Failure(MissingVoxelData)
  {
    TerrainChunk(bounds, None, neighborsWithLowerLod, map[], None, None, false, false)
  }

  /** Sets the chunk's mesh and files it under the current face mask. */
  function SetMesh(c: TerrainChunk, m: TerrainMeshData): (r: TerrainChunk)
    ensures r.mesh == Some(m) && r.currentConfig == c.currentConfig
    ensures Cached(r, r.currentConfig) && r.available[r.currentConfig as int] == m
    ensures r.available.Keys == c.available.Keys + {c.currentConfig as int}
    ensures forall k | k in c.available && k != c.currentConfig as int :: r.available[k] == c.available[k]
    ensures r.bounds == c.bounds && r.voxelData == c.voxelData
  {
    c.(mesh := Some(m), available := c.available[c.currentConfig as int := m])
  }

  /**
   * BuildChunk: refuses a chunk without voxel data first, then one without
   * a mesh; otherwise creates the game object showing the mesh.
   */
  function BuildChunk(c: TerrainChunk): (r: Result<TerrainChunk, ChunkError>)
    ensures r.Failure? <==> c.voxelData.None? || c.mesh.None?
    ensures c.voxelData.None? ==> r == Failure(MissingVoxelData)
    ensures c.voxelData.Some? && c.mesh.None? ==> r == Failure(MissingMesh)
    ensures r.Success? ==> r.value.built && r.value.shown == c.mesh && r.value.available == c.available
  {
    if c.voxelData.None? then Failure(MissingVoxelData)
    else if c.mesh.None? then Failure(MissingMesh)
    else Success(c.(built := true, visible := true, shown := c.mesh))
  }

  function SetVisible(c: TerrainChunk, visible: bool): (r: TerrainChunk)
    ensures r.visible == visible && r.(visible := c.visible) == c
  {
    c.(visible := visible)
  }

  /**
   * TryReuseMeshWithLodTransitionConfiguration as written: shows the cached
   * mesh for `mask` when there is one, and reports success either way.
   */
  function TryReuseAsWritten(c: TerrainChunk, mask: FaceMask): (r: (TerrainChunk, bool))
    ensures r.1
    ensures r.0 == TryReuse(c, mask).0
  {
    if Cached(c, mask) then (c.(shown := Some(c.available[mask as int])), true)
    else (c, true)
  }

  /** The same operation reporting success only when a mesh was cached for `mask`. */
  function TryReuse(c: TerrainChunk, mask: FaceMask): (r: (TerrainChunk, bool))
    ensures r.1 <==> Cached(c, mask)
    ensures r.1 ==> r.0.shown == Some(c.available[mask as int])
    ensures !r.1 ==> r.0 == c
    ensures r.0.currentConfig == c.currentConfig && r.0.available == c.available && r.0.mesh == c.mesh
  {
    if Cached(c, mask) then (c.(shown := Some(c.available[mask as int])), true)
    else (c, false)
  }

  /** The as-written reuse claims success on a fresh chunk, which has nothing cached. */
  lemma TryReuseAsWrittenClaimsMissingMesh(bounds: Bounds, built: FaceMask, asked: FaceMask)
    ensures var c := NewChunk(bounds, built);
      TryReuseAsWritten(c, asked).1 && !Cached(c, asked) && !TryReuse(c, asked).1
  {
  }

  /** A mesh set under the current mask is the one a later reuse of that mask shows. */
  lemma SetMeshThenReuse(c: TerrainChunk, m: TerrainMeshData)
    ensures var r := TryReuse(SetMesh(c, m), c.currentConfig);
      r.1 && r.0.shown == Some(m)
  {
  }
}
