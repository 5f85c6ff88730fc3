/** Properties of `Inside` and `SplitIntoOctants`: strictness, translation
    invariance, the fixed sign order of the octants, and the fact that the
    eight octants nest in their parent and are pairwise disjoint. */
module Octants {
  import opened Vectors
  import opened Geometry

  // ---------------------------------------------------------------------
  // Containment
  // ---------------------------------------------------------------------

  /** Containment read against the cube's two opposite corners: the point
      lies strictly between the low and the high corner on every axis. */
  predicate BetweenCorners(c: AABC, p: Vec3) {
    var lo := Sub(c.center, Scale(c.size / 2.0, Vec3(1.0, 1.0, 1.0)));
    var hi := Add(c.center, Scale(c.size / 2.0, Vec3(1.0, 1.0, 1.0)));
    && lo.x < p.x < hi.x
    && lo.y < p.y < hi.y
    && lo.z < p.z < hi.z
  }

  lemma InsideIffBetweenCorners(c: AABC, p: Vec3)
    ensures Inside(c, p) <==> BetweenCorners(c, p)
  {
  }

  /** A point on a face of the cube (local coordinate exactly plus or minus
      half the edge on some axis) is not inside. */
  lemma FaceIsOutside(c: AABC, p: Vec3)
    requires var l := Sub(p, c.center);
      || Abs(l.x) == c.size / 2.0
      || Abs(l.y) == c.size / 2.0
      || Abs(l.z) == c.size / 2.0
    ensures !Inside(c, p)
  {
  }

  /** A cube whose edge is not positive contains no point. */
  lemma NonPositiveSizeIsEmpty(c: AABC, p: Vec3)
    requires c.size <= 0.0
    ensures !Inside(c, p)
  {
  }

  /** The cube's own center is inside exactly when the edge is positive. */
  lemma CenterInsideIffPositive(c: AABC)
    ensures Inside(c, c.center) <==> c.size > 0.0
  {
  }

  function Translate(c: AABC, v: Vec3): AABC {
    AABC(c.size, Add(c.center, v))
  }

  /** `Inside` depends only on `point - center`: moving the cube and the
      point by the same vector does not change the answer. */
  lemma InsideTranslationInvariant(c: AABC, p: Vec3, v: Vec3)
    ensures Inside(Translate(c, v), Add(p, v)) == Inside(c, p)
  {
    SubTranslate(p, c.center, v);
  }

  // ---------------------------------------------------------------------
  // Sign order
  // ---------------------------------------------------------------------

  predicate IsSign(s: real) {
    s == 1.0 || s == -1.0
  }

  predicate IsSignTriple(s: Vec3) {
    IsSign(s.x) && IsSign(s.y) && IsSign(s.z)
  }

  /** The octant index of a sign triple: bit 2 for a negative x, bit 1 for
      a negative y, bit 0 for a negative z. */
  function SignIndex(s: Vec3): (i: nat)
    ensures i < 8
  {
    (if s.x < 0.0 then 4 else 0) + (if s.y < 0.0 then 2 else 0) + (if s.z < 0.0 then 1 else 0)
  }

  /** The bits of `SignIndex(s)` record which coordinates of `s` are
      negative. */
  lemma AxisSignsOfSignIndex(s: Vec3)
    ensures AxisSign(SignIndex(s), 2) == (if s.x < 0.0 then -1.0 else 1.0)
    ensures AxisSign(SignIndex(s), 1) == (if s.y < 0.0 then -1.0 else 1.0)
    ensures AxisSign(SignIndex(s), 0) == (if s.z < 0.0 then -1.0 else 1.0)
  {
    var i := SignIndex(s);
    assert i == 0 || i == 1 || i == 2 || i == 3 || i == 4 || i == 5 || i == 6 || i == 7;
  }

  /** `SignVector` and `SignIndex` are inverse bijections between the
      indices 0..7 and the eight sign triples. */
  lemma SignIndexOfSignVector(i: nat)
    requires i < 8
    ensures IsSignTriple(SignVector(i))
    ensures SignIndex(SignVector(i)) == i
  {
    assert i == 0 || i == 1 || i == 2 || i == 3 || i == 4 || i == 5 || i == 6 || i == 7;
  }

  lemma SignVectorOfSignIndex(s: Vec3)
    requires IsSignTriple(s)
    ensures SignVector(SignIndex(s)) == s
  {
  }

  lemma ScaleDistinct(k: real, a: Vec3, b: Vec3)
    requires k != 0.0
    requires a != b
    ensures Scale(k, a) != Scale(k, b)
  {
    if a.x != b.x {
      assert k * a.x != k * b.x;
    } else if a.y != b.y {
      assert k * a.y != k * b.y;
    } else {
      assert k * a.z != k * b.z;
    }
  }

  /** Octant `i`'s center is the parent center moved a quarter edge along
      each axis, the sign of each move given by the bits of `i`. */
  lemma OctantCenterSigns(c: AABC, i: nat)
    requires i < 8
    ensures var o := SplitIntoOctants(c)[i].center;
      && o.x == c.center.x + (if i >= 4 then -c.size / 4.0 else c.size / 4.0)
      && o.y == c.center.y + (if (i / 2) % 2 == 1 then -c.size / 4.0 else c.size / 4.0)
      && o.z == c.center.z + (if i % 2 == 1 then -c.size / 4.0 else c.size / 4.0)
  {
    assert i == 0 || i == 1 || i == 2 || i == 3 || i == 4 || i == 5 || i == 6 || i == 7;
  }

  /** For a cube with a non-zero edge the eight octant centers are pairwise
      distinct. */
  lemma OctantCentersDistinct(c: AABC, i: nat, j: nat)
    requires i < 8 && j < 8 && i != j
    requires c.size != 0.0
    ensures SplitIntoOctants(c)[i].center != SplitIntoOctants(c)[j].center
  {
    SignIndexOfSignVector(i);
    SignIndexOfSignVector(j);
    ScaleDistinct(c.size / 4.0, SignVector(i), SignVector(j));
  }

  /** Every sign triple is the direction of exactly one octant: the one at
      `SignIndex(s)`. */
  lemma EachSignTripleOnce(c: AABC, s: Vec3)
    requires IsSignTriple(s)
    requires c.size != 0.0
    ensures SplitIntoOctants(c)[SignIndex(s)].center == Add(c.center, Scale(c.size / 4.0, s))
    ensures forall i ::
      (0 <= i < 8 && SplitIntoOctants(c)[i].center == Add(c.center, Scale(c.size / 4.0, s))) ==> i == SignIndex(s)
  {
    SignVectorOfSignIndex(s);
    forall i | 0 <= i < 8 && SplitIntoOctants(c)[i].center == Add(c.center, Scale(c.size / 4.0, s))
      ensures i == SignIndex(s)
    {
      if i != SignIndex(s) {
        OctantCentersDistinct(c, i, SignIndex(s));
      }
    }
  }

  // ---------------------------------------------------------------------
  // Nesting and disjointness
  // ---------------------------------------------------------------------

  /** On one axis, the open slab strictly between the parent's center plane
      and its face on the side of sign `s`. */
  predicate InSlab(l: real, s: real, size: real) {
    0.0 < s * l < size / 2.0
  }

  /** On one axis, a local coordinate `l` (relative to the parent center)
      lies within a quarter edge of the octant center `s * size / 4` exactly
      when it lies in the half-open slab of sign `s`. */
  lemma AxisOfOctant(l: real, s: real, size: real)
    requires IsSign(s)
    ensures (-(0.5 * (size / 2.0)) < l - size / 4.0 * s < 0.5 * (size / 2.0))
        <==> InSlab(l, s, size)
  {
    if s == 1.0 {
      assert s * l == l;
    } else {
      assert s * l == -l;
    }
  }

  /** Exactly the points inside octant `i` are those strictly between the
      parent's center plane and the parent's face on each axis, on the side
      that the bits of `i` select. */
  lemma InsideOctantIff(c: AABC, i: nat, p: Vec3)
    requires i < 8
    ensures var l := Sub(p, c.center);
      Inside(SplitIntoOctants(c)[i], p) <==>
        && InSlab(l.x, AxisSign(i, 2), c.size)
        && InSlab(l.y, AxisSign(i, 1), c.size)
        && InSlab(l.z, AxisSign(i, 0), c.size)
  {
    var l := Sub(p, c.center);
    var o := SplitIntoOctants(c)[i];
    var lo := Sub(p, o.center);
    assert lo.x == l.x - c.size / 4.0 * AxisSign(i, 2);
    assert lo.y == l.y - c.size / 4.0 * AxisSign(i, 1);
    assert lo.z == l.z - c.size / 4.0 * AxisSign(i, 0);
    AxisOfOctant(l.x, AxisSign(i, 2), c.size);
    AxisOfOctant(l.y, AxisSign(i, 1), c.size);
    AxisOfOctant(l.z, AxisSign(i, 0), c.size);
  }

  /** Any point inside an octant is inside the parent cube. */
  lemma OctantNestsInParent(c: AABC, i: nat, p: Vec3)
    requires i < 8
    requires Inside(SplitIntoOctants(c)[i], p)
    ensures Inside(c, p)
  {
    InsideOctantIff(c, i, p);
  }

  /** No point is inside two different octants. */
  lemma OctantsDisjoint(c: AABC, i: nat, j: nat, p: Vec3)
    requires i < 8 && j < 8 && i != j
    requires Inside(SplitIntoOctants(c)[i], p)
    ensures !Inside(SplitIntoOctants(c)[j], p)
  {
    InsideOctantIff(c, i, p);
    InsideOctantIff(c, j, p);
    SignIndexOfSignVector(i);
    SignIndexOfSignVector(j);
  }

  /** The octant whose sign pattern matches the signs of `p - center`
      (a zero coordinate counts as positive). */
  function LocalOctant(c: AABC, p: Vec3): (i: nat)
    ensures i < 8
  {
    SignIndex(Sub(p, c.center))
  }

  /** The octants cover the parent's interior except the three center
      planes: such a point is inside the octant its signs select, and that
      octant is the only one containing it. */
  lemma OctantsCoverInterior(c: AABC, p: Vec3)
    requires Inside(c, p)
    requires var l := Sub(p, c.center); l.x != 0.0 && l.y != 0.0 && l.z != 0.0
    ensures Inside(SplitIntoOctants(c)[LocalOctant(c, p)], p)
    ensures forall i :: 0 <= i < 8 && Inside(SplitIntoOctants(c)[i], p) ==> i == LocalOctant(c, p)
  {
    var k := LocalOctant(c, p);
    AxisSignsOfSignIndex(Sub(p, c.center));
    InsideOctantIff(c, k, p);
    forall i | 0 <= i < 8 && Inside(SplitIntoOctants(c)[i], p)
      ensures i == LocalOctant(c, p)
    {
      if i != LocalOctant(c, p) {
        OctantsDisjoint(c, LocalOctant(c, p), i, p);
      }
    }
  }

  /** A point on one of the parent's three center planes is in no octant. */
  lemma CenterPlaneInNoOctant(c: AABC, i: nat, p: Vec3)
    requires i < 8
    requires var l := Sub(p, c.center); l.x == 0.0 || l.y == 0.0 || l.z == 0.0
    ensures !Inside(SplitIntoOctants(c)[i], p)
  {
    InsideOctantIff(c, i, p);
  }

  /** For a positive edge, each octant contains its own center, which the
      sign classification maps back to that octant's index. */
  lemma OctantCenterClassifiedBack(c: AABC, i: nat)
    requires i < 8
    requires c.size > 0.0
    ensures Inside(SplitIntoOctants(c)[i], SplitIntoOctants(c)[i].center)
    ensures LocalOctant(c, SplitIntoOctants(c)[i].center) == i
  {
    var o := SplitIntoOctants(c)[i];
    CenterInsideIffPositive(o);
    SignIndexOfSignVector(i);
    var l := Sub(o.center, c.center);
    assert l == Scale(c.size / 4.0, SignVector(i));
    assert SignIndex(l) == SignIndex(SignVector(i));
  }
}
