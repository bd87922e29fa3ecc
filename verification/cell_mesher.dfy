/**
  What the regular and transition cell meshers share: the construction
  parameters, the mesh-and-cache state they both append to, voxel reads,
  central-difference normals, edge interpolation, vertex welding and
  triangle index emission. The C# code repeats these steps in both mesher
  classes; the model states them once.
 */
module CellMesher {
  import opened Geometry
  import opened Wrappers
  import opened Faces
  import opened Cache
  import opened Voxels
  import opened MeshData
  import opened Tables

  /**
    The constructor arguments of both meshers apart from the shared cache and
    mesh. `normalize` stands for Unity's Vector3.Normalize.
   */
  datatype MesherContext = MesherContext(
    voxelData: VoxelData,
    size: int,
    chunkFacesWithLowerLod: FaceMask,
    min: Int3,
    normalize: Vec3 -> Vec3)

  /** The mesh record and the vertex cache that one TransvoxelMesher hands to both cell meshers. */
  datatype MesherState = MesherState(mesh: TerrainMeshData, cache: VertexCache<Vec3>)

  /** The cache maps each emitted position to its index and knows no other position. */
  predicate CacheMatchesMesh(st: MesherState) {
    && (forall v | v in st.cache.entries ::
          0 <= st.cache.entries[v] < |st.mesh.vertices| && st.mesh.vertices[st.cache.entries[v]] == v)
    && (forall i | 0 <= i < |st.mesh.vertices| ::
          st.mesh.vertices[i] in st.cache.entries && st.cache.entries[st.mesh.vertices[i]] == i)
  }

  predicate Valid(st: MesherState) {
    WellFormed(st.mesh) && CacheMatchesMesh(st)
  }

  /** A fresh TerrainMeshData and a fresh VertexCache. */
  function InitialState(): (st: MesherState)
    ensures Valid(st)
    ensures st.mesh.vertices == [] && st.mesh.normals == [] && st.mesh.triangles == []
  {
    MesherState(NewMeshData(), Empty())
  }

  /** Welding works: no position is emitted twice. */
  lemma VerticesDistinct(st: MesherState)
    requires Valid(st)
    ensures forall i, j | 0 <= i < |st.mesh.vertices| && 0 <= j < |st.mesh.vertices| ::
      st.mesh.vertices[i] == st.mesh.vertices[j] ==> i == j
  {
    forall i, j | 0 <= i < |st.mesh.vertices| && 0 <= j < |st.mesh.vertices| &&
      st.mesh.vertices[i] == st.mesh.vertices[j]
      ensures i == j
    {
      assert st.cache.entries[st.mesh.vertices[i]] == i;
      assert st.cache.entries[st.mesh.vertices[j]] == j;
    }
  }

  predicate InGrid(v: VoxelData, p: Int3) {
    v.InRange(p.x, p.y, p.z)
  }

  /** A sample whose six axis neighbours can also be read (needed for its normal). */
  predicate Interior(v: VoxelData, p: Int3) {
    1 <= p.x && p.x + 1 < v.width && 1 <= p.y && p.y + 1 < v.height && 1 <= p.z && p.z + 1 < v.depth
  }

  /** One read of `_voxelData[x, y, z]`, which must stay inside the grid. */
  function Sample(v: VoxelData, p: Int3): real
    requires v.Valid() && InGrid(v, p)
  {
    FlatIndexInBounds(v.width, v.height, v.depth, p.x, p.y, p.z);
    v.Get(p.x, p.y, p.z)
  }

  /** The normal at a sample point: half the central difference on each axis, normalized. */
  function CentralDifferenceNormal(ctx: MesherContext, p: Int3): Vec3
    requires ctx.voxelData.Valid() && Interior(ctx.voxelData, p)
  {
    var v := ctx.voxelData;
    var nx := (Sample(v, Int3(p.x + 1, p.y, p.z)) - Sample(v, Int3(p.x - 1, p.y, p.z))) * 0.5;
    var ny := (Sample(v, Int3(p.x, p.y + 1, p.z)) - Sample(v, Int3(p.x, p.y - 1, p.z))) * 0.5;
    var nz := (Sample(v, Int3(p.x, p.y, p.z + 1)) - Sample(v, Int3(p.x, p.y, p.z - 1))) * 0.5;
    ctx.normalize(Vec3(nx, ny, nz))
  }

  /** t = d1 / (d1 - d0): the weight of the first endpoint. */
  function EdgeParameter(d0: real, d1: real): real
    requires d1 - d0 != 0.0
  {
    d1 / (d1 - d0)
  }

  /** p0 * t + p1 * (1 - t). */
  function Interpolate(p0: Vec3, p1: Vec3, t: real): Vec3 {
    p0.Scale(t).Add(p1.Scale(1.0 - t))
  }

  /**
    On an edge whose endpoints lie on opposite sides of the surface the
    division is defined, the weight lies in [0, 1] (the vertex is on the
    edge), and the linearly interpolated density at the vertex is zero.
   */
  lemma InterpolationFindsZeroCrossing(d0: real, d1: real)
    requires (d0 < 0.0) != (d1 < 0.0)
    ensures d1 - d0 != 0.0
    ensures 0.0 <= EdgeParameter(d0, d1) <= 1.0
    ensures d0 * EdgeParameter(d0, d1) + d1 * (1.0 - EdgeParameter(d0, d1)) == 0.0
  {
    var t := d1 / (d1 - d0);
    assert t * (d1 - d0) == d1;
    assert d0 * t + d1 * (1.0 - t) == d1 - t * (d1 - d0);
    if d0 < 0.0 {
      assert d1 - d0 > 0.0 && d1 >= 0.0 && d1 <= d1 - d0;
    } else {
      assert d1 - d0 < 0.0 && d1 < 0.0 && d1 >= d1 - d0;
    }
  }

  /**
    GetCachedIndex, then Vertices.Add / Normals.Add / StoreVertex when the
    position is new: the index of the (possibly welded) vertex.
   */
  function AddVertex(st: MesherState, vertex: Vec3, normal: Vec3): (r: (MesherState, int))
    requires Valid(st)
    ensures Valid(r.0) && Extends(st.mesh, r.0.mesh) && r.0.mesh.triangles == st.mesh.triangles
    ensures 0 <= r.1 < |r.0.mesh.vertices| && r.0.mesh.vertices[r.1] == vertex
    ensures vertex in st.cache.entries ==> r.0 == st && r.1 == st.cache.entries[vertex]
    ensures vertex !in st.cache.entries ==>
      && r.1 == |st.mesh.vertices|
      && r.0.mesh.vertices == st.mesh.vertices + [vertex]
      && r.0.mesh.normals == st.mesh.normals + [normal]
      && GetCachedIndex(r.0.cache, vertex) == Some(r.1)
  {
    var cached := GetCachedIndex(st.cache, vertex);
    if cached.Some? then
      (st, cached.value)
    else
      var m := st.mesh;
      var m' := TerrainMeshData(m.vertices + [vertex], m.normals + [normal], m.triangles);
      var index := |m'.vertices| - 1;
      var st' := MesherState(m', StoreVertex(st.cache, vertex, index));
      assert CacheMatchesMesh(st') by {
        forall i | 0 <= i < |m.vertices|
          ensures m.vertices[i] != vertex
        {
          assert m.vertices[i] in st.cache.entries;
        }
      }
      (st', index)
  }

  /** The `(ushort)` cast applied to each welded index before it is written to the triangle list. */
  function UShort(i: int): int {
    i % 65536
  }

  lemma UShortKeepsSmall(i: int)
    ensures 0 <= i < 65536 ==> UShort(i) == i
  {
  }

  /**
    The vertex loop of both meshers: place vertex i of the cell (`place`
    computes its position and normal from its vertex-data entry), weld it
    through the cache, and record its `(ushort)` index in mappedIndices.
   */
  function MapVertices(place: bv16 --> (Vec3, Vec3), locs: seq<bv16>, count: nat, i: nat,
                       st: MesherState, mapped: seq<int>): (r: (MesherState, seq<int>))
    requires Valid(st)
    requires i <= count <= |locs| && |mapped| == i
    requires forall k | 0 <= k < count :: place.requires(locs[k])
    requires forall k | 0 <= k < i :: 0 <= mapped[k] < |st.mesh.vertices|
    ensures Valid(r.0) && Extends(st.mesh, r.0.mesh) && r.0.mesh.triangles == st.mesh.triangles
    ensures |r.1| == count && r.1[..i] == mapped
    ensures forall k | 0 <= k < count :: 0 <= r.1[k] < |r.0.mesh.vertices|
    ensures |r.0.mesh.vertices| <= 65536 ==>
      forall k | i <= k < count :: r.0.mesh.vertices[r.1[k]] == place(locs[k]).0
    decreases count - i
  {
    if i == count then (st, mapped)
    else
      var vn := place(locs[i]);
      var added := AddVertex(st, vn.0, vn.1);
      var u := UShort(added.1);
      var r := MapVertices(place, locs, count, i + 1, added.0, mapped + [u]);
      assert r.1[..i + 1] == mapped + [u];
      assert r.1[i] == (mapped + [u])[i] == u;
      assert r.1[..i] == (mapped + [u])[..i] == mapped;
      UShortKeepsSmall(added.1);
      assert added.0.mesh.vertices[added.1] == r.0.mesh.vertices[added.1];
      r
  }

  /** Within one triangle, which slot of the stored triangle feeds output position k. */
  function WindingSlot(k: nat, flip: bool): nat {
    if flip then 3 * (k / 3) + (2 - k % 3) else k
  }

  /** Triangle t, forwards or with its three indices reversed. */
  function Triangle(mappedIndices: seq<int>, indices: seq<nat>, t: nat, flip: bool): seq<int>
    requires 3 * t + 2 < |indices|
    requires indices[3 * t] < |mappedIndices| && indices[3 * t + 1] < |mappedIndices| &&
             indices[3 * t + 2] < |mappedIndices|
  {
    if flip then
      [mappedIndices[indices[3 * t + 2]], mappedIndices[indices[3 * t + 1]], mappedIndices[indices[3 * t]]]
    else
      [mappedIndices[indices[3 * t]], mappedIndices[indices[3 * t + 1]], mappedIndices[indices[3 * t + 2]]]
  }

  /**
    The indices the triangle loop appends: for each of `count` triangles,
    the mapped indices of its three table vertices, in stored order or reversed.
   */
  function TriangleIndices(mappedIndices: seq<int>, indices: seq<nat>, count: nat, flip: bool): (r: seq<int>)
    requires 3 * count <= |indices|
    requires forall k | 0 <= k < 3 * count :: indices[k] < |mappedIndices|
    ensures |r| == 3 * count && |r| % 3 == 0
    ensures forall k | 0 <= k < |r| ::
      WindingSlot(k, flip) < 3 * count && r[k] == mappedIndices[indices[WindingSlot(k, flip)]]
    decreases count
  {
    if count == 0 then []
    else
      var prefix := TriangleIndices(mappedIndices, indices, count - 1, flip);
      var last := Triangle(mappedIndices, indices, count - 1, flip);
      assert forall k | 3 * (count - 1) <= k < 3 * count :: k / 3 == count - 1;
      prefix + last
  }

  /** Every appended index is one of the mapped indices, so bounds on those carry over. */
  lemma TriangleIndicesBounded(mappedIndices: seq<int>, indices: seq<nat>, count: nat, flip: bool, bound: int)
    requires 3 * count <= |indices|
    requires forall k | 0 <= k < 3 * count :: indices[k] < |mappedIndices|
    requires forall k | 0 <= k < |mappedIndices| :: 0 <= mappedIndices[k] < bound
    ensures forall k | 0 <= k < 3 * count :: 0 <= TriangleIndices(mappedIndices, indices, count, flip)[k] < bound
  {
  }

  /** A flipped triangle is the forward triangle with its three indices in reverse order. */
  lemma FlipReversesEachTriangle(mappedIndices: seq<int>, indices: seq<nat>, count: nat, t: nat)
    requires 3 * count <= |indices|
    requires forall k | 0 <= k < 3 * count :: indices[k] < |mappedIndices|
    requires t < count
    ensures var fwd := TriangleIndices(mappedIndices, indices, count, false);
      var rev := TriangleIndices(mappedIndices, indices, count, true);
      rev[3 * t] == fwd[3 * t + 2] && rev[3 * t + 1] == fwd[3 * t + 1] && rev[3 * t + 2] == fwd[3 * t]
  {
    var fwd := TriangleIndices(mappedIndices, indices, count, false);
    var rev := TriangleIndices(mappedIndices, indices, count, true);
    assert WindingSlot(3 * t, true) == 3 * t + 2;
    assert WindingSlot(3 * t + 1, true) == 3 * t + 1;
    assert WindingSlot(3 * t + 2, true) == 3 * t;
  }

  /** Appending a cell's triangle indices to the shared mesh. */
  function AppendTriangles(st: MesherState, tris: seq<int>): (r: MesherState)
    requires Valid(st)
    requires |tris| % 3 == 0 && forall k | 0 <= k < |tris| :: 0 <= tris[k] < |st.mesh.vertices|
    ensures Valid(r) && Extends(st.mesh, r.mesh)
    ensures r.mesh.vertices == st.mesh.vertices && r.mesh.triangles == st.mesh.triangles + tris
  {
    st.(mesh := st.mesh.(triangles := st.mesh.triangles + tris))
  }

  /**
    The tail both meshers share once a cell has triangles: the vertex loop
    over the class's vertices, then the triangle loop. Every index appended
    names an existing vertex.
   */
  function EmitCell(place: bv16 --> (Vec3, Vec3), locs: seq<bv16>, data: CellData, flip: bool, st: MesherState): (r: MesherState)
    requires Valid(st) && data.WellFormed() && data.vertexCount <= |locs|
    requires forall k | 0 <= k < data.vertexCount :: place.requires(locs[k])
    ensures Valid(r) && Extends(st.mesh, r.mesh)
    ensures |r.mesh.triangles| == |st.mesh.triangles| + 3 * data.triangleCount
  {
    var mapped := MapVertices(place, locs, data.vertexCount, 0, st, []);
    var tris := TriangleIndices(mapped.1, data.indices, data.triangleCount, flip);
    TriangleIndicesBounded(mapped.1, data.indices, data.triangleCount, flip, |mapped.0.mesh.vertices|);
    AppendTriangles(mapped.0, tris)
  }

  /**
    While the mesh has at most 65536 vertices (so the `(ushort)` cast is the
    identity), corner k of the triangles EmitCell appends is the vertex
    placed for table vertex indices[WindingSlot(k, flip)]: stored order, or
    each triangle reversed when flipped.
   */
  lemma EmitCellCornersArePlaced(place: bv16 --> (Vec3, Vec3), locs: seq<bv16>, data: CellData, flip: bool, st: MesherState)
    requires Valid(st) && data.WellFormed() && data.vertexCount <= |locs|
    requires forall k | 0 <= k < data.vertexCount :: place.requires(locs[k])
    ensures var r := EmitCell(place, locs, data, flip, st);
      |r.mesh.vertices| <= 65536 ==>
        forall k | 0 <= k < 3 * data.triangleCount ::
          && WindingSlot(k, flip) < 3 * data.triangleCount
          && r.mesh.vertices[r.mesh.triangles[|st.mesh.triangles| + k]] ==
               place(locs[data.indices[WindingSlot(k, flip)]]).0
  {
    var r := EmitCell(place, locs, data, flip, st);
    var mapped := MapVertices(place, locs, data.vertexCount, 0, st, []);
    var tris := TriangleIndices(mapped.1, data.indices, data.triangleCount, flip);
    assert r.mesh.triangles == st.mesh.triangles + tris;
    if |r.mesh.vertices| <= 65536 {
      CornersArePlacedVertices(place, locs, data, flip, mapped.1, r.mesh.vertices);
      assert forall k | 0 <= k < 3 * data.triangleCount :: r.mesh.triangles[|st.mesh.triangles| + k] == tris[k];
    }
  }

  /** Corner k of the emitted triangles is the vertex placed for table vertex indices[WindingSlot(k, flip)]. */
  lemma CornersArePlacedVertices(place: bv16 --> (Vec3, Vec3), locs: seq<bv16>, data: CellData, flip: bool,
                                 mapped: seq<int>, vertices: seq<Vec3>)
    requires data.WellFormed() && data.vertexCount <= |locs| && |mapped| == data.vertexCount
    requires forall k | 0 <= k < data.vertexCount :: place.requires(locs[k])
    requires forall j | 0 <= j < data.vertexCount ::
      0 <= mapped[j] < |vertices| && vertices[mapped[j]] == place(locs[j]).0
    ensures forall k | 0 <= k < 3 * data.triangleCount ::
      && WindingSlot(k, flip) < 3 * data.triangleCount
      && vertices[TriangleIndices(mapped, data.indices, data.triangleCount, flip)[k]] ==
           place(locs[data.indices[WindingSlot(k, flip)]]).0
  {
    var tris := TriangleIndices(mapped, data.indices, data.triangleCount, flip);
    forall k | 0 <= k < 3 * data.triangleCount
      ensures WindingSlot(k, flip) < 3 * data.triangleCount
      ensures vertices[tris[k]] == place(locs[data.indices[WindingSlot(k, flip)]]).0
    {
      assert data.indices[WindingSlot(k, flip)] < data.vertexCount;
    }
  }
}
