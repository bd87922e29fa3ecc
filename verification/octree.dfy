/**
 * The level-of-detail octree: a cube around the viewer is split into eight
 * half-size children wherever the viewer is closer than the node's side, down
 * to a minimum node size; the leaves become the terrain chunks.
 */
module Octrees {
  import opened Geometry
  import opened Wrappers

  // ---------------------------------------------------------------------
  // Axis-aligned boxes (Unity's Bounds)
  // ---------------------------------------------------------------------

  datatype Bounds = Bounds(center: Vec3, size: Vec3) {

    function Min(): Vec3 {
      Vec3(center.x - size.x / 2.0, center.y - size.y / 2.0, center.z - size.z / 2.0)
    }

    function Max(): Vec3 {
      Vec3(center.x + size.x / 2.0, center.y + size.y / 2.0, center.z + size.z / 2.0)
    }

    /** The closed box holds the point. */
    predicate Contains(p: Vec3) {
      Min().x <= p.x <= Max().x && Min().y <= p.y <= Max().y && Min().z <= p.z <= Max().z
    }

    predicate NonNegative() {
      size.x >= 0.0 && size.y >= 0.0 && size.z >= 0.0
    }
  }

  /** `inner` lies within `outer`. */
  predicate Inside(inner: Bounds, outer: Bounds) {
    outer.Min().x <= inner.Min().x && inner.Max().x <= outer.Max().x &&
    outer.Min().y <= inner.Min().y && inner.Max().y <= outer.Max().y &&
    outer.Min().z <= inner.Min().z && inner.Max().z <= outer.Max().z
  }

  /** The two boxes' interiors do not meet: some axis separates them. */
  predicate Separated(a: Bounds, b: Bounds) {
    a.Max().x <= b.Min().x || b.Max().x <= a.Min().x ||
    a.Max().y <= b.Min().y || b.Max().y <= a.Min().y ||
    a.Max().z <= b.Min().z || b.Max().z <= a.Min().z
  }

  lemma InsideContains(inner: Bounds, outer: Bounds, p: Vec3)
    requires Inside(inner, outer) && inner.Contains(p)
    ensures outer.Contains(p)
  {
  }

  lemma InsideTransitive(a: Bounds, b: Bounds, c: Bounds)
    requires Inside(a, b) && Inside(b, c)
    ensures Inside(a, c)
  {
  }

  lemma InsideKeepsSeparation(inner: Bounds, outer: Bounds, other: Bounds)
    requires Inside(inner, outer) && Separated(outer, other)
    ensures Separated(inner, other) && Separated(other, inner)
  {
  }

  function Half(v: Vec3): Vec3 {
    Vec3(v.x / 2.0, v.y / 2.0, v.z / 2.0)
  }

  // ---------------------------------------------------------------------
  // Children
  // ---------------------------------------------------------------------

  /**
   * The sign of child i's offset on each axis. Bit 0 of the index selects
   * +x, bit 1 selects +z and bit 2 selects +y.
   */
  function ChildOffsetSign(i: nat): (r: Int3)
    requires i < 8
    ensures r.x == (if i % 2 == 1 then 1 else -1)
    ensures r.z == (if (i / 2) % 2 == 1 then 1 else -1)
    ensures r.y == (if i / 4 == 1 then 1 else -1)
  {
    match i
    case 0 => Int3(-1, -1, -1)
    case 1 => Int3(1, -1, -1)
    case 2 => Int3(-1, -1, 1)
    case 3 => Int3(1, -1, 1)
    case 4 => Int3(-1, 1, -1)
    case 5 => Int3(1, 1, -1)
    case 6 => Int3(-1, 1, 1)
    case _ => Int3(1, 1, 1)
  }

  /** Child i: half the parent's size, centre moved a quarter of the parent's size per axis. */
  function ChildBounds(b: Bounds, i: nat): (r: Bounds)
    requires i < 8
    ensures r.size == Half(b.size)
  {
    var childSize := Half(b.size);
    var offset := Half(childSize);
    var sign := ChildOffsetSign(i);
    Bounds(b.center.Add(Vec3(offset.x * sign.x as real, offset.y * sign.y as real, offset.z * sign.z as real)),
           childSize)
  }

  /** Each child fills one octant: it lies within its parent. */
  lemma ChildInside(b: Bounds, i: nat)
    requires i < 8 && b.NonNegative()
    ensures Inside(ChildBounds(b, i), b) && ChildBounds(b, i).NonNegative()
  {
    var s := ChildOffsetSign(i);
    assert s.x == 1 || s.x == -1;
    assert s.y == 1 || s.y == -1;
    assert s.z == 1 || s.z == -1;
  }

  /** Distinct children overlap at most on a shared face. */
  lemma ChildrenSeparated(b: Bounds, i: nat, j: nat)
    requires i < 8 && j < 8 && i != j
    ensures Separated(ChildBounds(b, i), ChildBounds(b, j))
  {
    var si, sj := ChildOffsetSign(i), ChildOffsetSign(j);
    assert si.x != sj.x || si.y != sj.y || si.z != sj.z;
  }

  /** The octant of `b` a point falls in, by the same bit layout as the child index. */
  function OctantOf(b: Bounds, p: Vec3): (i: nat)
    ensures i < 8
  {
    (if p.x >= b.center.x then 1 else 0) + (if p.z >= b.center.z then 2 else 0) + (if p.y >= b.center.y then 4 else 0)
  }

  /** The children cover their parent: a point of the box lies in its octant's child. */
  lemma OctantContains(b: Bounds, p: Vec3)
    requires b.Contains(p)
    ensures ChildBounds(b, OctantOf(b, p)).Contains(p)
  {
    var i := OctantOf(b, p);
    var s := ChildOffsetSign(i);
    assert s.x == (if p.x >= b.center.x then 1 else -1);
    assert s.z == (if p.z >= b.center.z then 1 else -1);
    assert s.y == (if p.y >= b.center.y then 1 else -1);
  }

  // ---------------------------------------------------------------------
  // Trees and insertion
  // ---------------------------------------------------------------------

  /** A node keeps its bounds; an internal node has its children in index order. */
  datatype Octree = Leaf(bounds: Bounds) | Node(bounds: Bounds, children: seq<Octree>)

  /** Inserting a position splits a node when the position is nearer than the node's side and the node is above the minimum size. */
  predicate ShouldSubdivide(b: Bounds, pos: Vec3, minNodeSize: real) {
    b.size.x > minNodeSize && b.center.Sub(pos).SqrMagnitude() < b.size.x * b.size.x
  }

  /**
    The squared comparison is the source's distance test: for the true
    distance `dist` (the non-negative root of the squared magnitude) and a
    non-negative minimum, a node splits exactly when dist < size.x and the
    node is above the minimum size.
   */
  lemma {:induction false} ShouldSubdivideIsDistanceTest(b: Bounds, pos: Vec3, minNodeSize: real, dist: real)
    requires minNodeSize >= 0.0 && dist >= 0.0 && dist * dist == b.center.Sub(pos).SqrMagnitude()
    ensures ShouldSubdivide(b, pos, minNodeSize) <==> dist < b.size.x && b.size.x > minNodeSize
  {
    var s := b.size.x;
    if s > minNodeSize {
      if dist < s {
        SquareLess(dist, s);
      } else if s < dist {
        SquareLess(s, dist);
      }
    }
  }

  /** Squaring is strictly increasing on the non-negative reals. */
  lemma SquareLess(a: real, s: real)
    requires 0.0 <= a < s
    ensures a * a < s * s
  {
    var d := s - a;
    assert s * s == a * a + d * (s + a);
    assert d * (s + a) > 0.0;
  }

  /** How many more halvings a side of `s` allows before it reaches the minimum size. */
  function Levels(s: real, minNodeSize: real): (r: int)
    requires minNodeSize > 0.0
    ensures r >= 0
  {
    if s > minNodeSize then (s / minNodeSize).Floor else 0
  }

  lemma HalvingShrinks(s: real, minNodeSize: real)
    requires minNodeSize > 0.0 && s > minNodeSize
    ensures Levels(s / 2.0, minNodeSize) < Levels(s, minNodeSize)
  {
    var q := s / minNodeSize;
    assert q > 1.0 by {
      assert q * minNodeSize == s;
    }
    assert (s / 2.0) / minNodeSize == q / 2.0;
    assert q.Floor >= 1;
    if s / 2.0 > minNodeSize {
      assert (q / 2.0).Floor as real <= q / 2.0;
      assert q.Floor as real > q - 1.0;
    }
  }

  /** The tree `new Octree(b, minNodeSize)` becomes after `Insert(pos)`. */
  function Build(b: Bounds, minNodeSize: real, pos: Vec3): (t: Octree)
    requires minNodeSize > 0.0
    ensures t.bounds == b && Valid(t) && Refined(t, minNodeSize, pos)
    decreases Levels(b.size.x, minNodeSize), 1, 0
  {
    if ShouldSubdivide(b, pos, minNodeSize) then
      var cs := BuildChildren(b, minNodeSize, pos, 0);
      Node(b, cs)
    else
      Leaf(b)
  }

  /** Children i..7 of a node being split, each created and then given the position. */
  function BuildChildren(b: Bounds, minNodeSize: real, pos: Vec3, i: nat): (cs: seq<Octree>)
    requires minNodeSize > 0.0 && b.size.x > minNodeSize && i <= 8
    ensures |cs| == 8 - i
    ensures forall k | 0 <= k < |cs| ::
      cs[k].bounds == ChildBounds(b, i + k) && Valid(cs[k]) && Refined(cs[k], minNodeSize, pos)
    decreases Levels(b.size.x, minNodeSize), 0, 8 - i
  {
    if i == 8 then
      []
    else
      HalvingShrinks(b.size.x, minNodeSize);
      [Build(ChildBounds(b, i), minNodeSize, pos)] + BuildChildren(b, minNodeSize, pos, i + 1)
  }

  /** Every internal node has its eight children at the child bounds. */
  predicate Valid(t: Octree) {
    match t
    case Leaf(_) => true
    case Node(b, cs) =>
      |cs| == 8 && forall i | 0 <= i < 8 :: cs[i].bounds == ChildBounds(b, i) && Valid(cs[i])
  }

  /** Exactly the nodes that meet the split rule for `pos` are split. */
  predicate Refined(t: Octree, minNodeSize: real, pos: Vec3) {
    match t
    case Leaf(b) => !ShouldSubdivide(b, pos, minNodeSize)
    case Node(b, cs) => ShouldSubdivide(b, pos, minNodeSize) && forall i | 0 <= i < |cs| :: Refined(cs[i], minNodeSize, pos)
  }

  lemma {:induction false} BuildChildrenFrom(b: Bounds, minNodeSize: real, pos: Vec3, cs: seq<Octree>, i: nat)
    requires minNodeSize > 0.0 && b.size.x > minNodeSize && i <= 8 && |cs| == 8
    requires forall k | 0 <= k < 8 :: cs[k] == Build(ChildBounds(b, k), minNodeSize, pos)
    ensures BuildChildren(b, minNodeSize, pos, i) == cs[i..]
    decreases 8 - i
  {
    if i < 8 {
      BuildChildrenFrom(b, minNodeSize, pos, cs, i + 1);
    }
  }

  /** Insertion is characterised by the split rule: a valid tree split exactly where the rule says is the built one. */
  lemma {:induction false} RefinedTreeIsBuilt(t: Octree, minNodeSize: real, pos: Vec3)
    requires minNodeSize > 0.0 && Valid(t) && Refined(t, minNodeSize, pos)
    ensures t == Build(t.bounds, minNodeSize, pos)
  {
    match t
    case Leaf(b) =>
    case Node(b, cs) =>
      forall k | 0 <= k < 8
        ensures cs[k] == Build(ChildBounds(b, k), minNodeSize, pos)
      {
        RefinedTreeIsBuilt(cs[k], minNodeSize, pos);
      }
      BuildChildrenFrom(b, minNodeSize, pos, cs, 0);
      assert cs[0..] == cs;
  }

  // ---------------------------------------------------------------------
  // Leaves
  // ---------------------------------------------------------------------

  /** GetAllLeafBounds: a leaf yields its bounds, a node its children's leaves in index order. */
  function Leaves(t: Octree): seq<Bounds>
    decreases t, 1
  {
    match t
    case Leaf(b) => [b]
    case Node(_, cs) => LeavesOf(cs)
  }

  function LeavesOf(cs: seq<Octree>): seq<Bounds>
    decreases cs, 0
  {
    if cs == [] then [] else Leaves(cs[0]) + LeavesOf(cs[1..])
  }

  function InternalCount(t: Octree): nat
    decreases t, 1
  {
    match t
    case Leaf(_) => 0
    case Node(_, cs) => 1 + InternalCountOf(cs)
  }

  function InternalCountOf(cs: seq<Octree>): nat
    decreases cs, 0
  {
    if cs == [] then 0 else InternalCount(cs[0]) + InternalCountOf(cs[1..])
  }

  /** A tree of eight-way splits has seven more leaves per split. */
  lemma {:induction false} LeafCount(t: Octree)
    requires Valid(t)
    ensures |Leaves(t)| == 1 + 7 * InternalCount(t)
    decreases t, 1
  {
    match t
    case Leaf(_) =>
    case Node(_, cs) =>
      LeafCountOf(cs);
  }

  lemma {:induction false} LeafCountOf(cs: seq<Octree>)
    requires forall k | 0 <= k < |cs| :: Valid(cs[k])
    ensures |LeavesOf(cs)| == |cs| + 7 * InternalCountOf(cs)
    decreases cs, 0
  {
    if cs != [] {
      LeafCount(cs[0]);
      LeafCountOf(cs[1..]);
    }
  }

  /** Every leaf lies within the root. */
  lemma {:induction false} LeavesInside(t: Octree)
    requires Valid(t) && t.bounds.NonNegative()
    ensures forall x | x in Leaves(t) :: Inside(x, t.bounds)
    decreases t, 1
  {
    match t
    case Leaf(_) =>
    case Node(b, cs) =>
      forall k | 0 <= k < |cs|
        ensures Inside(cs[k].bounds, b) && cs[k].bounds.NonNegative()
      {
        ChildInside(b, k);
      }
      LeavesOfInside(cs, b);
  }

  lemma {:induction false} LeavesOfInside(cs: seq<Octree>, box: Bounds)
    requires forall k | 0 <= k < |cs| :: Valid(cs[k]) && cs[k].bounds.NonNegative() && Inside(cs[k].bounds, box)
    ensures forall x | x in LeavesOf(cs) :: Inside(x, box)
    decreases cs, 0
  {
    if cs != [] {
      LeavesInside(cs[0]);
      forall x | x in Leaves(cs[0])
        ensures Inside(x, box)
      {
        InsideTransitive(x, cs[0].bounds, box);
      }
      LeavesOfInside(cs[1..], box);
    }
  }

  /** The leaves' interiors are pairwise disjoint. */
  lemma {:induction false} LeavesSeparated(t: Octree)
    requires Valid(t) && t.bounds.NonNegative()
    ensures forall i, j | 0 <= i < j < |Leaves(t)| :: Separated(Leaves(t)[i], Leaves(t)[j])
    decreases t, 1
  {
    match t
    case Leaf(_) =>
    case Node(b, cs) =>
      forall k | 0 <= k < |cs|
        ensures cs[k].bounds.NonNegative()
      {
        ChildInside(b, k);
      }
      forall k, l | 0 <= k < |cs| && 0 <= l < |cs| && k != l
        ensures Separated(cs[k].bounds, cs[l].bounds)
      {
        ChildrenSeparated(b, k, l);
      }
      LeavesOfSeparated(cs);
  }

  lemma {:induction false} LeavesOfSeparated(cs: seq<Octree>)
    requires forall k | 0 <= k < |cs| :: Valid(cs[k]) && cs[k].bounds.NonNegative()
    requires forall k, l | 0 <= k < |cs| && 0 <= l < |cs| && k != l :: Separated(cs[k].bounds, cs[l].bounds)
    ensures forall i, j | 0 <= i < j < |LeavesOf(cs)| :: Separated(LeavesOf(cs)[i], LeavesOf(cs)[j])
    decreases cs, 0
  {
    if cs != [] {
      var a, rest := Leaves(cs[0]), LeavesOf(cs[1..]);
      LeavesSeparated(cs[0]);
      LeavesOfSeparated(cs[1..]);
      LeavesInside(cs[0]);
      forall i, j | 0 <= i < |a| && 0 <= j < |rest|
        ensures Separated(a[i], rest[j])
      {
        forall k | 0 <= k < |cs[1..]|
          ensures Separated(cs[1..][k].bounds, a[i])
        {
          assert Separated(cs[0].bounds, cs[k + 1].bounds);
          InsideKeepsSeparation(a[i], cs[0].bounds, cs[k + 1].bounds);
        }
        LeavesOfSeparatedFrom(cs[1..], a[i]);
        assert rest[j] in rest;
      }
      var all := a + rest;
      forall i, j | 0 <= i < j < |all|
        ensures Separated(all[i], all[j])
      {
        if j < |a| {
          assert all[i] == a[i] && all[j] == a[j];
        } else if i >= |a| {
          assert all[i] == rest[i - |a|] && all[j] == rest[j - |a|];
        } else {
          assert all[i] == a[i] && all[j] == rest[j - |a|];
        }
      }
    }
  }

  /** A box separated from every child's bounds is separated from all their leaves. */
  lemma {:induction false} LeavesOfSeparatedFrom(cs: seq<Octree>, d: Bounds)
    requires forall k | 0 <= k < |cs| :: Valid(cs[k]) && cs[k].bounds.NonNegative() && Separated(cs[k].bounds, d)
    ensures forall y | y in LeavesOf(cs) :: Separated(y, d)
    decreases cs
  {
    if cs != [] {
      LeavesInside(cs[0]);
      forall y | y in Leaves(cs[0])
        ensures Separated(y, d)
      {
        InsideKeepsSeparation(y, cs[0].bounds, d);
      }
      LeavesOfSeparatedFrom(cs[1..], d);
    }
  }

  /** Side lengths after k halvings. */
  function Halved(s: Vec3, k: nat): Vec3 {
    if k == 0 then s else Half(Halved(s, k - 1))
  }

  lemma {:induction false} HalvedShift(s: Vec3, k: nat)
    ensures Halved(Half(s), k) == Halved(s, k + 1)
  {
    if k > 0 {
      HalvedShift(s, k - 1);
    }
  }

  /** `v` is `s` halved some number of times. */
  ghost predicate IsHalving(v: Vec3, s: Vec3) {
    exists k: nat :: v == Halved(s, k)
  }

  /** Every leaf is the root halved some number of times. */
  lemma {:induction false} LeafSizesAreHalvings(t: Octree)
    requires Valid(t)
    ensures forall x | x in Leaves(t) :: IsHalving(x.size, t.bounds.size)
    decreases t, 1
  {
    match t
    case Leaf(b) =>
      assert b.size == Halved(b.size, 0);
    case Node(b, cs) =>
      assert forall k | 0 <= k < |cs| :: cs[k].bounds == ChildBounds(b, k);
      LeafSizesAreHalvingsOf(cs, b.size);
  }

  lemma {:induction false} LeafSizesAreHalvingsOf(cs: seq<Octree>, parent: Vec3)
    requires forall k | 0 <= k < |cs| :: Valid(cs[k]) && cs[k].bounds.size == Half(parent)
    ensures forall x | x in LeavesOf(cs) :: IsHalving(x.size, parent)
    decreases cs, 0
  {
    if cs != [] {
      LeafSizesAreHalvings(cs[0]);
      LeafSizesAreHalvingsOf(cs[1..], parent);
      forall x | x in LeavesOf(cs)
        ensures IsHalving(x.size, parent)
      {
        if x in Leaves(cs[0]) {
          var k: nat :| x.size == Halved(Half(parent), k);
          HalvedShift(parent, k);
          assert x.size == Halved(parent, k + 1);
        } else {
          assert x in LeavesOf(cs[1..]);
        }
      }
    }
  }

  /** The leaves of an inserted tree are exactly where splitting stopped. */
  lemma {:induction false} LeavesStopSplitting(t: Octree, minNodeSize: real, pos: Vec3)
    requires Refined(t, minNodeSize, pos)
    ensures forall x | x in Leaves(t) :: !ShouldSubdivide(x, pos, minNodeSize)
    decreases t, 1
  {
    match t
    case Leaf(_) =>
    case Node(_, cs) =>
      LeavesOfStopSplitting(cs, minNodeSize, pos);
  }

  lemma {:induction false} LeavesOfStopSplitting(cs: seq<Octree>, minNodeSize: real, pos: Vec3)
    requires forall k | 0 <= k < |cs| :: Refined(cs[k], minNodeSize, pos)
    ensures forall x | x in LeavesOf(cs) :: !ShouldSubdivide(x, pos, minNodeSize)
    decreases cs, 0
  {
    if cs != [] {
      LeavesStopSplitting(cs[0], minNodeSize, pos);
      LeavesOfStopSplitting(cs[1..], minNodeSize, pos);
    }
  }

  // ---------------------------------------------------------------------
  // Point lookup
  // ---------------------------------------------------------------------

  /**
    GetBound: a leaf answers whether it holds the point; a node asks its
    children in index order. The result is the first leaf, in
    GetAllLeafBounds order, that holds the point.
   */
  function GetBound(t: Octree, p: Vec3): (r: Option<Bounds>)
    ensures r == FirstContaining(Leaves(t), p)
    decreases t, 1
  {
    match t
    case Leaf(b) =>
      assert [b][1..] == [];
      if b.Contains(p) then Some(b) else None
    case Node(_, cs) => FirstBound(cs, p)
  }

  /** Asks the children in order; the answer is the first of their leaves holding the point. */
  function FirstBound(cs: seq<Octree>, p: Vec3): (r: Option<Bounds>)
    ensures r == FirstContaining(LeavesOf(cs), p)
    decreases cs, 0
  {
    if cs == [] then None
    else
      FirstContainingConcat(Leaves(cs[0]), LeavesOf(cs[1..]), p);
      var r := GetBound(cs[0], p);
      if r.Some? then r else FirstBound(cs[1..], p)
  }

  /** Reference lookup: the first box of the list holding the point. */
  function FirstContaining(s: seq<Bounds>, p: Vec3): (r: Option<Bounds>)
    ensures r.Some? ==> r.value in s && r.value.Contains(p)
    ensures r.None? <==> forall x | x in s :: !x.Contains(p)
  {
    if s == [] then None
    else if s[0].Contains(p) then Some(s[0])
    else FirstContaining(s[1..], p)
  }

  lemma {:induction false} FirstContainingConcat(a: seq<Bounds>, b: seq<Bounds>, p: Vec3)
    ensures FirstContaining(a + b, p) ==
      (if FirstContaining(a, p).Some? then FirstContaining(a, p) else FirstContaining(b, p))
  {
    if a != [] {
      assert (a + b)[0] == a[0];
      assert (a + b)[1..] == a[1..] + b;
      FirstContainingConcat(a[1..], b, p);
    } else {
      assert a + b == b;
    }
  }

  /** A found box is a leaf holding the point; nothing is found only when no leaf holds it. */
  lemma GetBoundFindsLeaf(t: Octree, p: Vec3)
    ensures GetBound(t, p).Some? ==> GetBound(t, p).value in Leaves(t) && GetBound(t, p).value.Contains(p)
    ensures GetBound(t, p).None? <==> forall x | x in Leaves(t) :: !x.Contains(p)
  {
  }

  /** A point outside the root is in no leaf. */
  lemma OutsideRootFindsNothing(t: Octree, p: Vec3)
    requires Valid(t) && t.bounds.NonNegative() && !t.bounds.Contains(p)
    ensures GetBound(t, p) == None
  {
    LeavesInside(t);
    forall x | x in Leaves(t)
      ensures !x.Contains(p)
    {
      if x.Contains(p) {
        InsideContains(x, t.bounds, p);
      }
    }
  }

  /** The leaves cover the root: every point of it is found. */
  lemma {:induction false} InsideRootFindsLeaf(t: Octree, p: Vec3)
    requires Valid(t) && t.bounds.Contains(p)
    ensures GetBound(t, p).Some?
    decreases t
  {
    match t
    case Leaf(_) =>
    case Node(b, cs) =>
      var k := OctantOf(b, p);
      OctantContains(b, p);
      InsideRootFindsLeaf(cs[k], p);
      FirstBoundFindsChild(cs, p, k);
  }

  lemma {:induction false} FirstBoundFindsChild(cs: seq<Octree>, p: Vec3, k: nat)
    requires k < |cs| && GetBound(cs[k], p).Some?
    ensures FirstBound(cs, p).Some?
    decreases k
  {
    if k > 0 && GetBound(cs[0], p).None? {
      FirstBoundFindsChild(cs[1..], p, k - 1);
    }
  }
}
