/** Repeated subdivision: following a path of octant indices from a root
    cube, splitting at each step, as an octree does when it refines a cell.
    Cells reached this way halve in edge at every level, nest in every
    ancestor, and two different cells of the same depth never overlap. */
module Subdivision {
  import opened Vectors
  import opened Geometry
  import opened Octants

  /** A path is a sequence of octant indices, each in 0..7. */
  predicate ValidPath(path: seq<nat>) {
    forall k :: 0 <= k < |path| ==> path[k] < 8
  }

  /** The cell reached from `c` by splitting and taking octant `path[0]`,
      then `path[1]`, and so on. */
  function Descend(c: AABC, path: seq<nat>): AABC
    requires ValidPath(path)
    decreases |path|
  {
    if |path| == 0 then c
    else Descend(SplitIntoOctants(c)[path[0]], path[1..])
  }

  function Pow2(n: nat): (r: real)
    ensures r >= 1.0
  {
    if n == 0 then 1.0 else 2.0 * Pow2(n - 1)
  }

  /** One level of `DescendSize`: halving an edge `s` and then dividing by
      `q` is dividing by `p == 2 * q`. */
  lemma HalveThenDivide(s: real, half: real, d: real, q: real, p: real)
    requires q > 0.0 && p == 2.0 * q
    requires half == s / 2.0 && d == half / q
    ensures d == s / p
  {
  }

  /** One step of the descent: the first index picks an octant of half the
      edge, and the rest of the path continues from it. */
  lemma DescendStep(c: AABC, path: seq<nat>)
    requires ValidPath(path) && |path| > 0
    ensures ValidPath(path[1..])
    ensures Descend(c, path) == Descend(SplitIntoOctants(c)[path[0]], path[1..])
    ensures SplitIntoOctants(c)[path[0]].size == c.size / 2.0
  {
  }

  /** A cell at depth `n` has edge `c.size / 2^n`. */
  lemma {:induction false} DescendSize(c: AABC, path: seq<nat>)
    requires ValidPath(path)
    ensures Descend(c, path).size == c.size / Pow2(|path|)
    decreases |path|
  {
    if |path| > 0 {
      var child := SplitIntoOctants(c)[path[0]];
      var rest := path[1..];
      DescendStep(c, path);
      DescendSize(child, rest);
      HalveThenDivide(c.size, child.size, Descend(child, rest).size, Pow2(|rest|), Pow2(|path|));
    }
  }

  /** Descending along `a` and then along `b` reaches the cell of `a + b`. */
  lemma {:induction false} DescendConcat(c: AABC, a: seq<nat>, b: seq<nat>)
    requires ValidPath(a) && ValidPath(b)
    ensures ValidPath(a + b)
    ensures Descend(c, a + b) == Descend(Descend(c, a), b)
    decreases |a|
  {
    assert ValidPath(a + b) by {
      forall k | 0 <= k < |a + b| ensures (a + b)[k] < 8 {
        if k < |a| {
          assert (a + b)[k] == a[k];
        } else {
          assert (a + b)[k] == b[k - |a|];
        }
      }
    }
    if |a| == 0 {
      assert a + b == b;
    } else {
      assert (a + b)[0] == a[0];
      assert (a + b)[1..] == a[1..] + b;
      var child := SplitIntoOctants(c)[a[0]];
      assert Descend(c, a + b) == Descend(child, a[1..] + b);
      assert Descend(c, a) == Descend(child, a[1..]);
      DescendConcat(child, a[1..], b);
    }
  }

  /** A point inside a descendant cell is inside the root cell. */
  lemma {:induction false} DescendNests(c: AABC, path: seq<nat>, p: Vec3)
    requires ValidPath(path)
    requires Inside(Descend(c, path), p)
    ensures Inside(c, p)
    decreases |path|
  {
    if |path| > 0 {
      var child := SplitIntoOctants(c)[path[0]];
      DescendNests(child, path[1..], p);
      OctantNestsInParent(c, path[0], p);
    }
  }

  /** Two different cells at the same depth share no point. */
  lemma {:induction false} DescendDisjoint(c: AABC, a: seq<nat>, b: seq<nat>, p: Vec3)
    requires ValidPath(a) && ValidPath(b)
    requires |a| == |b| && a != b
    requires Inside(Descend(c, a), p)
    ensures !Inside(Descend(c, b), p)
    decreases |a|
  {
    assert |a| > 0;
    var octants := SplitIntoOctants(c);
    assert a == [a[0]] + a[1..] && b == [b[0]] + b[1..];
    if a[0] == b[0] {
      DescendDisjoint(octants[a[0]], a[1..], b[1..], p);
    } else {
      DescendNests(octants[a[0]], a[1..], p);
      if Inside(Descend(c, b), p) {
        DescendNests(octants[b[0]], b[1..], p);
        OctantsDisjoint(c, a[0], b[0], p);
      }
    }
  }
}
