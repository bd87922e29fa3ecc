/** The mesh record the meshers fill in (TerrainMeshData). */
module MeshData {
  import opened Geometry

  /** Vertex positions, a parallel list of normals, and triangle vertex indices. */
  datatype TerrainMeshData = TerrainMeshData(vertices: seq<Vec3>, normals: seq<Vec3>, triangles: seq<int>)

  /** The constructor: all three lists start empty. */
  function NewMeshData(): (m: TerrainMeshData)
    ensures m.vertices == [] && m.normals == [] && m.triangles == []
    ensures WellFormed(m)
  {
    TerrainMeshData([], [], [])
  }

  /**
    A usable triangle mesh: one normal per vertex, whole triangles only, and
    every index naming an existing vertex.
   */
  predicate WellFormed(m: TerrainMeshData) {
    && |m.vertices| == |m.normals|
    && |m.triangles| % 3 == 0
    && forall k | 0 <= k < |m.triangles| :: 0 <= m.triangles[k] < |m.vertices|
  }

  /** `m'` only appended to each of the three lists of `m`. */
  predicate Extends(m: TerrainMeshData, m': TerrainMeshData) {
    && m.vertices <= m'.vertices
    && m.normals <= m'.normals
    && m.triangles <= m'.triangles
  }

  lemma ExtendsTransitive(a: TerrainMeshData, b: TerrainMeshData, c: TerrainMeshData)
    requires Extends(a, b) && Extends(b, c)
    ensures Extends(a, c)
  {
  }
}
