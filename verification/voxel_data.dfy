/**
  Dense voxel storage (VoxelData): a flat array of density samples read and
  written through a 3D indexer, and copied into and out of numbered slots of
  a larger shared array.
 */
module Voxels {

  datatype VoxelData = VoxelData(values: seq<real>, width: int, height: int, depth: int) {

    /** ArraySize: the length of the backing array. */
    function ArraySize(): nat {
      |values|
    }

    /** The flat position the indexer uses: z*W*H + y*W + x. */
    function FlatIndex(x: int, y: int, z: int): int {
      z * width * height + y * width + x
    }

    /** Per-axis bounds; the indexer itself does not check them. */
    predicate InRange(x: int, y: int, z: int) {
      0 <= x < width && 0 <= y < height && 0 <= z < depth
    }

    /** The backing array holds exactly one sample per cell. */
    predicate Valid() {
      width >= 0 && height >= 0 && depth >= 0 && |values| == width * height * depth
    }

    /** The indexer's getter; only the flat index is checked, by the array access. */
    function Get(x: int, y: int, z: int): real
      requires 0 <= FlatIndex(x, y, z) < |values|
    {
      values[FlatIndex(x, y, z)]
    }

    /** The indexer's setter. */
    function Set(x: int, y: int, z: int, v: real): (r: VoxelData)
      requires 0 <= FlatIndex(x, y, z) < |values|
      ensures r.width == width && r.height == height && r.depth == depth
      ensures |r.values| == |values|
    {
      this.(values := values[FlatIndex(x, y, z) := v])
    }
  }

  /**
    The cube constructor VoxelData(values, size). The result is well formed
    exactly when the array holds size^3 samples, and then cell (x, y, z)
    reads sample z*size^2 + y*size + x of the given array.
   */
  function FromCube(values: seq<real>, size: int): (r: VoxelData)
    ensures r.width == size && r.height == size && r.depth == size
    ensures r.values == values
    ensures r.Valid() <==> size >= 0 && |values| == size * size * size
    ensures r.Valid() ==> forall x, y, z | r.InRange(x, y, z) ::
      0 <= r.FlatIndex(x, y, z) < |values| && r.Get(x, y, z) == values[z * size * size + y * size + x]
  {
    AllFlatIndicesInBounds(VoxelData(values, size, size, size));
    VoxelData(values, size, size, size)
  }

  /**
    The constructor VoxelData(values, width, height, depth). The result is
    well formed exactly when the array holds W*H*D samples for non-negative
    sides, and then cell (x, y, z) reads sample z*W*H + y*W + x.
   */
  function FromArray(values: seq<real>, width: int, height: int, depth: int): (r: VoxelData)
    ensures r.width == width && r.height == height && r.depth == depth
    ensures r.values == values
    ensures r.Valid() <==> width >= 0 && height >= 0 && depth >= 0 && |values| == width * height * depth
    ensures r.Valid() ==> forall x, y, z | r.InRange(x, y, z) ::
      0 <= r.FlatIndex(x, y, z) < |values| && r.Get(x, y, z) == values[z * width * height + y * width + x]
  {
    AllFlatIndicesInBounds(VoxelData(values, width, height, depth));
    VoxelData(values, width, height, depth)
  }

  /** The constructor VoxelData(width, height, depth): a zeroed array of W*H*D floats. */
  function Allocate(width: int, height: int, depth: int): (r: VoxelData)
    requires width * height * depth >= 0
    ensures r.width == width && r.height == height && r.depth == depth
    ensures |r.values| == width * height * depth
    ensures forall i | 0 <= i < |r.values| :: r.values[i] == 0.0
    ensures width >= 0 && height >= 0 && depth >= 0 ==> r.Valid()
  {
    VoxelData(seq(width * height * depth, _ => 0.0), width, height, depth)
  }

  lemma MulMono(a: int, b: int, c: int)
    requires 0 <= a <= b && c >= 0
    ensures a * c <= b * c
  {
  }

  /** In-range coordinates land inside a W*H*D array. */
  lemma FlatIndexInBounds(w: int, h: int, d: int, x: int, y: int, z: int)
    requires 0 <= x < w && 0 <= y < h && 0 <= z < d
    ensures 0 <= z * w * h + y * w + x < w * h * d
  {
    MulMono(y + 1, h, w);
    assert y * w + x < h * w;
    MulMono(z + 1, d, w * h);
    assert z * w * h == z * (w * h);
    assert (z + 1) * (w * h) == z * (w * h) + w * h;
    assert w * h * d == d * (w * h);
    assert 0 <= y * w;
    assert 0 <= z * (w * h);
  }

  /** In a well-formed grid every in-range coordinate has a flat index inside the array. */
  lemma AllFlatIndicesInBounds(v: VoxelData)
    ensures v.Valid() ==> forall x, y, z | v.InRange(x, y, z) :: 0 <= v.FlatIndex(x, y, z) < |v.values|
  {
    if v.Valid() {
      forall x, y, z | v.InRange(x, y, z)
        ensures 0 <= v.FlatIndex(x, y, z) < |v.values|
      {
        FlatIndexInBounds(v.width, v.height, v.depth, x, y, z);
      }
    }
  }

  /** Below the row stride, a * s + r determines a and r. */
  lemma MixedRadixUnique(s: int, a: int, r: int, a': int, r': int)
    requires 0 <= r < s && 0 <= r' < s && 0 <= a && 0 <= a'
    requires a * s + r == a' * s + r'
    ensures a == a' && r == r'
  {
    if a < a' {
      assert (a + 1) * s == a * s + s;
      MulMono(a + 1, a', s);
    } else if a' < a {
      assert (a' + 1) * s == a' * s + s;
      MulMono(a' + 1, a, s);
    }
  }

  /** The offset of (x, y) within one z-slice is below the slice size. */
  lemma SliceOffsetBound(w: int, h: int, x: int, y: int)
    requires 0 <= x < w && 0 <= y < h
    ensures 0 <= y * w + x < w * h
  {
    MulMono(y + 1, h, w);
    assert (y + 1) * w == y * w + w;
  }

  /** Distinct in-range coordinates have distinct flat indices. */
  lemma FlatIndexInjective(w: int, h: int, x: int, y: int, z: int, x': int, y': int, z': int)
    requires 0 <= x < w && 0 <= y < h && 0 <= z
    requires 0 <= x' < w && 0 <= y' < h && 0 <= z'
    requires z * w * h + y * w + x == z' * w * h + y' * w + x'
    ensures x == x' && y == y' && z == z'
  {
    SliceOffsetBound(w, h, x, y);
    SliceOffsetBound(w, h, x', y');
    var p := w * h;
    assert z * w * h == z * p;
    assert z' * w * h == z' * p;
    MixedRadixUnique(p, z, y * w + x, z', y' * w + x');
    MixedRadixUnique(w, y, x, y', x');
  }

  /** Reading back a coordinate after writing it yields the written value; every other cell is unchanged. */
  lemma GetAfterSet(v: VoxelData, x: int, y: int, z: int, val: real, x': int, y': int, z': int)
    requires v.Valid() && v.InRange(x, y, z) && v.InRange(x', y', z')
    ensures 0 <= v.FlatIndex(x, y, z) < |v.values| && 0 <= v.FlatIndex(x', y', z') < |v.values|
    ensures v.Set(x, y, z, val).Get(x', y', z') ==
      (if (x, y, z) == (x', y', z') then val else v.Get(x', y', z'))
  {
    FlatIndexInBounds(v.width, v.height, v.depth, x, y, z);
    FlatIndexInBounds(v.width, v.height, v.depth, x', y', z');
    if (x, y, z) != (x', y', z') && v.FlatIndex(x, y, z) == v.FlatIndex(x', y', z') {
      FlatIndexInjective(v.width, v.height, x, y, z, x', y', z');
    }
  }

  /**
    Without per-axis checks an x one past the row end reads the first cell of
    the next row: the indexer aliases instead of failing.
   */
  lemma RowOverflowAliases(v: VoxelData, y: int, z: int)
    ensures v.FlatIndex(v.width, y, z) == v.FlatIndex(0, y + 1, z)
  {
  }

  /** AppendToNativeArray: copy the samples into slot `index` (of ArraySize floats) of a shared array. */
  function AppendToNativeArray(voxelsArray: seq<real>, v: VoxelData, index: int): (r: seq<real>)
    requires 0 <= index * v.ArraySize() && index * v.ArraySize() + v.ArraySize() <= |voxelsArray|
    ensures |r| == |voxelsArray|
    ensures r[index * v.ArraySize()..index * v.ArraySize() + v.ArraySize()] == v.values
    ensures forall k | 0 <= k < |r| && !(index * v.ArraySize() <= k < index * v.ArraySize() + v.ArraySize()) ::
      r[k] == voxelsArray[k]
  {
    var start := index * v.ArraySize();
    voxelsArray[..start] + v.values + voxelsArray[start + v.ArraySize()..]
  }

  /** ExtractFromNativeArray: read slot `index` (of size^3 floats) back as a cube of side `size`. */
  function ExtractFromNativeArray(nativeArray: seq<real>, index: int, size: int): (r: VoxelData)
    requires size >= 0
    requires 0 <= index * (size * size * size) && index * (size * size * size) + size * size * size <= |nativeArray|
    ensures r.width == size && r.height == size && r.depth == size && r.Valid()
    ensures forall x, y, z | r.InRange(x, y, z) ::
      0 <= r.FlatIndex(x, y, z) < |r.values| && r.Get(x, y, z) == nativeArray[index * (size * size * size) + z * size * size + y * size + x]
  {
    var flattenedArraySize := size * size * size;
    var start := index * flattenedArraySize;
    FromCube(nativeArray[start..start + flattenedArraySize], size)
  }

  /** Appending a cube of side `size` into slot i and extracting slot i gives the same voxel data back. */
  lemma AppendThenExtract(arr: seq<real>, v: VoxelData, index: int, size: int)
    requires size >= 0 && v.width == size && v.height == size && v.depth == size && v.Valid()
    requires 0 <= index * v.ArraySize() && index * v.ArraySize() + v.ArraySize() <= |arr|
    ensures ExtractFromNativeArray(AppendToNativeArray(arr, v, index), index, size) == v
  {
    var n := v.ArraySize();
    assert n == size * size * size;
    var a := AppendToNativeArray(arr, v, index);
    assert a[index * n..index * n + n] == v.values;
  }

  /** Overwriting [start, start + |vals|) leaves any disjoint window of the same length as it was. */
  lemma DisjointWindowUnchanged(arr: seq<real>, vals: seq<real>, start: int, j0: int)
    requires 0 <= start && start + |vals| <= |arr| && 0 <= j0 && j0 + |vals| <= |arr|
    requires j0 + |vals| <= start || start + |vals| <= j0
    ensures (arr[..start] + vals + arr[start + |vals|..])[j0..j0 + |vals|] == arr[j0..j0 + |vals|]
  {
    var a := arr[..start] + vals + arr[start + |vals|..];
    assert |a| == |arr|;
    forall k | j0 <= k < j0 + |vals|
      ensures a[k] == arr[k]
    {
      if k < start {
        assert a[k] == arr[..start][k];
      } else {
        assert a[k] == arr[start + |vals|..][k - start - |vals|];
      }
    }
  }

  /** Two different slots of n floats do not overlap. */
  lemma SlotsDisjoint(i: int, j: int, n: int)
    requires 0 <= i && 0 <= j && i != j && n >= 0
    ensures 0 <= i * n && 0 <= j * n
    ensures i * n + n <= j * n || j * n + n <= i * n
  {
    if i < j {
      MulMono(i + 1, j, n);
      assert (i + 1) * n == i * n + n;
    } else {
      MulMono(j + 1, i, n);
      assert (j + 1) * n == j * n + n;
    }
  }

  /** Appending into slot i leaves every other slot j as it was. */
  lemma AppendLeavesOtherSlots(arr: seq<real>, v: VoxelData, i: int, j: int, size: int)
    requires size >= 0 && v.width == size && v.height == size && v.depth == size && v.Valid()
    requires 0 <= i && 0 <= j && i != j
    requires i * v.ArraySize() + v.ArraySize() <= |arr| && j * v.ArraySize() + v.ArraySize() <= |arr|
    ensures ExtractFromNativeArray(AppendToNativeArray(arr, v, i), j, size) == ExtractFromNativeArray(arr, j, size)
  {
    var n := |v.values|;
    assert n == size * size * size;
    SlotsDisjoint(i, j, n);
    var a := AppendToNativeArray(arr, v, i);
    assert a == arr[..i * n] + v.values + arr[i * n + n..];
    DisjointWindowUnchanged(arr, v.values, i * n, j * n);
    assert a[j * n..j * n + n] == arr[j * n..j * n + n];
  }
}
