/**
  The shape of the Transvoxel lookup tables (TransvoxelTables). Their
  contents are not part of this model: every mesher takes the tables as a
  parameter and relies only on the well-formedness stated here, which
  Lengyel's published tables satisfy.
 */
module Tables {

  /**
    One equivalence class: how many vertices it generates, how many
    triangles, and the vertex numbers of each triangle (three per triangle).
   */
  datatype CellData = CellData(vertexCount: nat, triangleCount: nat, indices: seq<nat>) {

    predicate WellFormed() {
      && vertexCount <= 12
      && vertexCount <= |indices|
      && 3 * triangleCount <= |indices|
      && forall k | 0 <= k < 3 * triangleCount :: indices[k] < vertexCount
    }
  }

  /** The first corner of a vertex's edge: the high nibble of the low byte. */
  function EdgeStart(vertexLocation: bv16): nat {
    (((vertexLocation & 0xFF) as bv8) >> 4) as nat
  }

  /** The second corner of a vertex's edge: the low nibble of the low byte. */
  function EdgeEnd(vertexLocation: bv16): nat {
    (((vertexLocation & 0xFF) as bv8) & 0x0F) as nat
  }

  /** Bit b of a case code. */
  predicate CodeBit(code: bv32, b: nat)
    requires b < 32
  {
    (code >> b) & 1 == 1
  }

  /** The regular-cell tables of Listing 3.1 and Figure 3.7, indexed by the 8-bit case code. */
  datatype RegularTables = RegularTables(
    cellClass: seq<nat>,           // regularCellClass[256]
    cellData: seq<CellData>,       // regularCellData[classes]
    vertexData: seq<seq<bv16>>)    // regularVertexData[256][<= 12]
  {
    /** The class of case code c, its vertex locations, and the corner numbers on each edge. */
    predicate CaseWellFormed(c: bv32)
      requires c < 256 && (c as nat) < |cellClass| && (c as nat) < |vertexData|
    {
      && cellClass[c] < |cellData|
      && var count := cellData[cellClass[c]].vertexCount;
      && count <= |vertexData[c]|
      && forall i | 0 <= i < count ::
           var loc := vertexData[c][i];
           // Both corners are cell corners, and they lie on opposite sides
           // of the surface for this case code.
           EdgeStart(loc) < 8 && EdgeEnd(loc) < 8 &&
           (CodeBit(c, EdgeStart(loc)) != CodeBit(c, EdgeEnd(loc)))
    }

    ghost predicate WellFormed() {
      && |cellClass| == 256
      && |vertexData| == 256
      && (forall c: bv32 | c < 256 :: CaseWellFormed(c))
      && (forall k | 0 <= k < |cellData| :: cellData[k].WellFormed())
    }
  }

  /** Bit position in the transition case code of fine sample i (Figure 4.17). */
  const TransitionCodeBit: seq<nat> := [0, 1, 2, 7, 8, 3, 6, 5, 4]

  /** The fine sample that a logical transition-cell point stands for: 9, A, B, C repeat 0, 2, 6, 8. */
  function AliasOf(v: nat): nat
    requires v < 13
  {
    if v < 9 then v else [0, 2, 6, 8][v - 9]
  }

  /** The transition-cell tables of Figure 4.17, indexed by the 9-bit case code. */
  datatype TransitionTables = TransitionTables(
    cellClass: seq<bv8>,           // transitionCellClass[512]; bit 7 flags the stored winding
    cellData: seq<CellData>,       // transitionCellData[classes]
    vertexData: seq<seq<bv16>>)    // transitionVertexData[512][<= 12]
  {
    predicate CaseWellFormed(c: bv32)
      requires c < 512 && (c as nat) < |cellClass| && (c as nat) < |vertexData|
    {
      && ((cellClass[c] & 0x7F) as nat) < |cellData|
      && var count := cellData[(cellClass[c] & 0x7F) as nat].vertexCount;
      && count <= |vertexData[c]|
      && forall i | 0 <= i < count ::
           var loc := vertexData[c][i];
           EdgeStart(loc) < 13 && EdgeEnd(loc) < 13 &&
           (CodeBit(c, TransitionCodeBit[AliasOf(EdgeStart(loc))]) !=
            CodeBit(c, TransitionCodeBit[AliasOf(EdgeEnd(loc))]))
    }

    ghost predicate WellFormed() {
      && |cellClass| == 512
      && |vertexData| == 512
      && (forall c: bv32 | c < 512 :: CaseWellFormed(c))
      && (forall k | 0 <= k < |cellData| :: cellData[k].WellFormed())
    }
  }

  /** The nibble decoding recovers the two corner numbers packed into an entry. */
  lemma EdgeNibblesRoundTrip(hi: bv16, lo: bv16, reuse: bv16)
    requires hi < 16 && lo < 16 && reuse < 256
    ensures EdgeStart((reuse << 8) | (hi << 4) | lo) == hi as nat
    ensures EdgeEnd((reuse << 8) | (hi << 4) | lo) == lo as nat
  {
  }
}
