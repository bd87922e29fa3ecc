/** Integer and real 3-vectors: Unity's Vector3Int and Vector3. */
module Geometry {

  /** A voxel or cell coordinate (Vector3Int). */
  datatype Int3 = Int3(x: int, y: int, z: int) {

    function Add(o: Int3): Int3 {
      Int3(x + o.x, y + o.y, z + o.z)
    }

    function Sub(o: Int3): Int3 {
      Int3(x - o.x, y - o.y, z - o.z)
    }

    /** Component along axis 0 (x), 1 (y) or 2 (z). */
    function Axis(a: nat): int
      requires a < 3
    {
      if a == 0 then x else if a == 1 then y else z
    }

    function ToVec3(): Vec3 {
      Vec3(x as real, y as real, z as real)
    }
  }

  /** A position, normal or offset in space (Vector3). */
  datatype Vec3 = Vec3(x: real, y: real, z: real) {

    function Add(o: Vec3): Vec3 {
      Vec3(x + o.x, y + o.y, z + o.z)
    }

    function Sub(o: Vec3): Vec3 {
      Vec3(x - o.x, y - o.y, z - o.z)
    }

    function Scale(k: real): Vec3 {
      Vec3(x * k, y * k, z * k)
    }

    function Dot(o: Vec3): real {
      x * o.x + y * o.y + z * o.z
    }

    function SqrMagnitude(): real {
      Dot(this)
    }
  }

  const Zero: Vec3 := Vec3(0.0, 0.0, 0.0)
  const One: Int3 := Int3(1, 1, 1)
}
