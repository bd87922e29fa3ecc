/**
  The six-bit face flag set of a terrain chunk cube (CubeFaceDirection).
  Bit i stands for the face on axis i / 2, on the negative side when i is
  even and on the positive side when i is odd.
 */
module Faces {

  /** Any combination of the six flags; as a 6-bit vector it lies in 0..63 by construction. */
  type FaceMask = bv6

  const None: FaceMask := 0
  const NegativeX: FaceMask := 1 << 0
  const PositiveX: FaceMask := 1 << 1
  const NegativeY: FaceMask := 1 << 2
  const PositiveY: FaceMask := 1 << 3
  const NegativeZ: FaceMask := 1 << 4
  const PositiveZ: FaceMask := 1 << 5

  /** The direction `(CubeFaceDirection)(1 << i)` built by the mesher's face loop. */
  function Direction(i: nat): FaceMask
    requires i < 6
  {
    1 << i
  }

  /** Whether bit i of the mask is set. */
  predicate Bit(m: FaceMask, i: nat)
    requires i < 6
  {
    (m >> i) & 1 == 1
  }

  /** Enum.HasFlag: every bit of d is set in m. */
  predicate HasFlag(m: FaceMask, d: FaceMask) {
    m & d == d
  }

  /** The six named directions, each a single flag. */
  predicate IsDirection(d: FaceMask) {
    d == NegativeX || d == PositiveX || d == NegativeY ||
    d == PositiveY || d == NegativeZ || d == PositiveZ
  }

  /** Number of set bits. */
  function PopCount(m: FaceMask): nat {
    (if Bit(m, 0) then 1 else 0) + (if Bit(m, 1) then 1 else 0) +
    (if Bit(m, 2) then 1 else 0) + (if Bit(m, 3) then 1 else 0) +
    (if Bit(m, 4) then 1 else 0) + (if Bit(m, 5) then 1 else 0)
  }

  /** The axis (0 = x, 1 = y, 2 = z) whose face a direction names. */
  function AxisOf(d: FaceMask): nat
    requires IsDirection(d)
  {
    if d == NegativeX || d == PositiveX then 0
    else if d == NegativeY || d == PositiveY then 1
    else 2
  }

  /** Whether a direction names the face on the positive side of its axis. */
  predicate IsPositive(d: FaceMask)
    requires IsDirection(d)
  {
    d == PositiveX || d == PositiveY || d == PositiveZ
  }

  /**
    The six flags are the single bits 0..5 in the order -X, +X, -Y, +Y, -Z, +Z,
    the loop index i names exactly the direction with bit i, and None has no bit.
   */
  lemma DirectionsAreOrderedSingleBits()
    ensures None == 0 && PopCount(None) == 0
    ensures Direction(0) == NegativeX && Direction(1) == PositiveX
    ensures Direction(2) == NegativeY && Direction(3) == PositiveY
    ensures Direction(4) == NegativeZ && Direction(5) == PositiveZ
    ensures forall i | 0 <= i < 6 :: IsDirection(Direction(i)) && PopCount(Direction(i)) == 1
    ensures forall i, j | 0 <= i < 6 && 0 <= j < 6 :: Bit(Direction(i), j) <==> i == j
    ensures forall i | 0 <= i < 6 :: AxisOf(Direction(i)) == i / 2 && (IsPositive(Direction(i)) <==> i % 2 == 1)
  {
  }

  /** A mask is a direction exactly when it has one bit set. */
  lemma DirectionIffSingleBit(m: FaceMask)
    ensures IsDirection(m) <==> PopCount(m) == 1
  {
  }
}
