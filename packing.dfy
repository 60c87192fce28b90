/**
 * The packing argument behind the strip step of the closest-pair search.
 *
 * All distances are squared, so a "square of side sqrt(w)" is described by
 * Sq(coordinate) < w. The key fact is NoFourFarApart: four points that are
 * pairwise at squared distance at least w do not fit in the half-open square
 * [0, s) x [0, s) with s * s == w. A strip window of height below s on one
 * side of the dividing line therefore holds at most three points of that
 * side, and two strip points closer than s are at most five places apart in
 * the strip sorted by y (WindowBound).
 */
module Packing {
  import opened Points

  function Abs(n: int): nat { if n < 0 then -n else n }

  /** p lies in the half-open square [0, s) x [0, s), where s * s == w. */
  predicate InCell(p: Point, w: int) {
    0 <= p.x && Sq(p.x) < w && 0 <= p.y && Sq(p.y) < w
  }

  predicate Near(p: Point, q: Point, w: int) {
    DistanceSq(p, q) < w
  }

  lemma SumOfSquaresBound(a: int, b: int, c: int)
    requires 0 <= a && 0 <= b && a + b <= c
    ensures Sq(a) + Sq(b) <= Sq(c)
  {
    assert Sq(a + b) == Sq(a) + 2 * (a * b) + Sq(b);
    assert a * b >= 0;
    SquareMonotone(a + b, c);
  }

  /** Two points whose coordinate differences add up to at most c, with c * c < w, are near. */
  lemma CloseByManhattan(p: Point, q: Point, c: int, w: int)
    requires Abs(p.x - q.x) + Abs(p.y - q.y) <= c && Sq(c) < w
    ensures DistanceSq(p, q) < w
  {
    SquareFacts(p.x - q.x);
    SquareFacts(p.y - q.y);
    assert Sq(Abs(p.x - q.x)) == Sq(p.x - q.x);
    assert Sq(Abs(p.y - q.y)) == Sq(p.y - q.y);
    SumOfSquaresBound(Abs(p.x - q.x), Abs(p.y - q.y), c);
  }

  /**
   * a and b are the lower two points, c and d the upper two, each pair
   * ordered by x. Whichever of a.x - b.x, c.x - d.x, a.y - c.y, b.y - d.y is
   * largest picks a pair whose coordinate differences add up to at most one
   * coordinate of a point of the square, hence to less than s.
   */
  lemma {:induction false} FourInCellOrdered(a: Point, b: Point, c: Point, d: Point, w: int)
    requires InCell(a, w) && InCell(b, w) && InCell(c, w) && InCell(d, w)
    requires a.x <= b.x && c.x <= d.x
    requires a.y <= c.y && a.y <= d.y && b.y <= c.y && b.y <= d.y
    ensures Near(a, b, w) || Near(c, d, w) || Near(a, c, w) || Near(b, d, w)
  {
    var m1, m2, m3, m4 := a.x - b.x, c.x - d.x, a.y - c.y, b.y - d.y;
    if m1 >= m2 && m1 >= m3 && m1 >= m4 {
      if a.y >= b.y { CloseByManhattan(a, b, c.y, w); } else { CloseByManhattan(a, b, d.y, w); }
    } else if m2 >= m3 && m2 >= m4 {
      if d.y >= c.y { CloseByManhattan(c, d, d.y, w); } else { CloseByManhattan(c, d, c.y, w); }
    } else if m3 >= m4 {
      if a.x >= c.x { CloseByManhattan(a, c, b.x, w); } else { CloseByManhattan(a, c, d.x, w); }
    } else {
      if d.x >= b.x { CloseByManhattan(b, d, d.x, w); } else { CloseByManhattan(b, d, b.x, w); }
    }
  }

  predicate SomePairNear(a: Point, b: Point, c: Point, d: Point, w: int) {
    Near(a, b, w) || Near(a, c, w) || Near(a, d, w) || Near(b, c, w) || Near(b, d, w) || Near(c, d, w)
  }

  /** As FourInCellOrdered, with a, b below c, d but in any order by x. */
  lemma FourInCellSplit(a: Point, b: Point, c: Point, d: Point, w: int)
    requires InCell(a, w) && InCell(b, w) && InCell(c, w) && InCell(d, w)
    requires a.y <= c.y && a.y <= d.y && b.y <= c.y && b.y <= d.y
    ensures SomePairNear(a, b, c, d, w)
  {
    if a.x <= b.x {
      if c.x <= d.x { FourInCellOrdered(a, b, c, d, w); } else { FourInCellOrdered(a, b, d, c, w); }
    } else {
      if c.x <= d.x { FourInCellOrdered(b, a, c, d, w); } else { FourInCellOrdered(b, a, d, c, w); }
    }
  }

  /** Some two of any four points of the half-open square are at squared distance below w. */
  lemma FourInCell(a: Point, b: Point, c: Point, d: Point, w: int)
    requires InCell(a, w) && InCell(b, w) && InCell(c, w) && InCell(d, w)
    ensures SomePairNear(a, b, c, d, w)
  {
    DistanceSymmetric(a, b); DistanceSymmetric(a, c); DistanceSymmetric(a, d);
    DistanceSymmetric(b, c); DistanceSymmetric(b, d); DistanceSymmetric(c, d);
    if a.y <= c.y && a.y <= d.y && b.y <= c.y && b.y <= d.y {
      FourInCellSplit(a, b, c, d, w);
    } else if a.y <= b.y && a.y <= d.y && c.y <= b.y && c.y <= d.y {
      FourInCellSplit(a, c, b, d, w);
    } else if a.y <= b.y && a.y <= c.y && d.y <= b.y && d.y <= c.y {
      FourInCellSplit(a, d, b, c, w);
    } else if b.y <= a.y && b.y <= d.y && c.y <= a.y && c.y <= d.y {
      FourInCellSplit(b, c, a, d, w);
    } else if b.y <= a.y && b.y <= c.y && d.y <= a.y && d.y <= c.y {
      FourInCellSplit(b, d, a, c, w);
    } else {
      FourInCellSplit(c, d, a, b, w);
    }
  }

  /**
   * Four points pairwise at squared distance at least w do not fit in the
   * half-open square: two of them are closer.
   */
  lemma NoFourFarApart(ps: seq<Point>, w: int)
    requires |ps| == 4
    requires forall i :: 0 <= i < 4 ==> InCell(ps[i], w)
    ensures exists i, j :: 0 <= i < 4 && 0 <= j < 4 && i != j && DistanceSq(ps[i], ps[j]) < w
  {
    FourInCell(ps[0], ps[1], ps[2], ps[3], w);
  }

  /** Coordinates of p relative to the corner (m, y0) of the square on p's side of the line x == m. */
  function Local(p: Point, m: int, y0: int, left: bool): Point {
    Point(if left then m - p.x else p.x - m, p.y - y0)
  }

  lemma LocalDistance(p: Point, q: Point, m: int, y0: int, left: bool)
    ensures DistanceSq(Local(p, m, y0, left), Local(q, m, y0, left)) == DistanceSq(p, q)
  {
    SquareFacts(p.x - q.x);
    assert Local(p, m, y0, left).y - Local(q, m, y0, left).y == p.y - q.y;
    if left {
      assert Local(p, m, y0, left).x - Local(q, m, y0, left).x == -(p.x - q.x);
    }
  }

  /** s is ordered by y (the same as Sorting.SortedBy with the key y). */
  predicate SortedByY(s: seq<Point>) {
    forall i, j :: 0 <= i < j < |s| ==> s[i].y <= s[j].y
  }

  /** The positions t in [lo, hi) with left[t] == side, in increasing order. */
  function SidePositions(left: seq<bool>, lo: int, hi: int, side: bool): (ps: seq<int>)
    requires 0 <= lo <= hi <= |left|
    ensures forall k :: 0 <= k < |ps| ==> lo <= ps[k] < hi && left[ps[k]] == side
    ensures forall k, l :: 0 <= k < l < |ps| ==> ps[k] < ps[l]
    decreases hi - lo
  {
    if lo == hi then []
    else (if left[lo] == side then [lo] else []) + SidePositions(left, lo + 1, hi, side)
  }

  /** Every position of [lo, hi) is on one side or the other. */
  lemma {:induction false} SidePositionsCount(left: seq<bool>, lo: int, hi: int)
    requires 0 <= lo <= hi <= |left|
    ensures |SidePositions(left, lo, hi, true)| + |SidePositions(left, lo, hi, false)| == hi - lo
    decreases hi - lo
  {
    if lo < hi {
      SidePositionsCount(left, lo + 1, hi);
    }
  }

  /** A strip point between positions i and j lies in the square of its side. */
  lemma WindowPointInCell(s: seq<Point>, m: int, w: int, i: int, j: int, t: int, left: bool)
    requires SortedByY(s)
    requires 0 <= i <= t <= j < |s| && DistanceSq(s[i], s[j]) < w
    requires Sq(s[t].x - m) < w && (left ==> s[t].x <= m) && (!left ==> m <= s[t].x)
    ensures InCell(Local(s[t], m, s[i].y, left), w)
  {
    var p := Local(s[t], m, s[i].y, left);
    SquareFacts(s[t].x - m);
    assert Sq(p.x) == Sq(s[t].x - m);
    SquareFacts(s[i].y - s[j].y);
    assert s[i].y - s[j].y == -(s[j].y - s[i].y);
    assert Sq(s[j].y - s[i].y) <= DistanceSq(s[i], s[j]);
    SquareMonotone(p.y, s[j].y - s[i].y);
  }

  /** Seven consecutive positions hold four of one side. */
  lemma FourOnOneSide(left: seq<bool>, lo: int) returns (side: bool, pos: seq<int>)
    requires 0 <= lo && lo + 7 <= |left|
    ensures |pos| == 4
    ensures forall k :: 0 <= k < 4 ==> lo <= pos[k] < lo + 7 && left[pos[k]] == side
    ensures forall k, l :: 0 <= k < l < 4 ==> pos[k] < pos[l]
  {
    SidePositionsCount(left, lo, lo + 7);
    side := |SidePositions(left, lo, lo + 7, true)| >= 4;
    var all := SidePositions(left, lo, lo + 7, side);
    pos := all[..4];
  }

  /**
   * Of four points from positions i..j of the strip, all on one side, some
   * two are at squared distance below w.
   */
  lemma FourOnOneSideNear(s: seq<Point>, m: int, w: int, i: int, j: int, side: bool, pos: seq<int>)
    requires SortedByY(s)
    requires 0 <= i <= j < |s| && DistanceSq(s[i], s[j]) < w
    requires |pos| == 4
    requires forall k :: 0 <= k < 4 ==> i <= pos[k] <= j
    requires forall k :: 0 <= k < 4 ==>
      Sq(s[pos[k]].x - m) < w && (side ==> s[pos[k]].x <= m) && (!side ==> m <= s[pos[k]].x)
    ensures exists a, b :: 0 <= a < 4 && 0 <= b < 4 && a != b && DistanceSq(s[pos[a]], s[pos[b]]) < w
  {
    var ps := LocalCells(s, m, w, i, j, side, pos);
    NoFourFarApart(ps, w);
    var a, b :| 0 <= a < 4 && 0 <= b < 4 && a != b && DistanceSq(ps[a], ps[b]) < w;
    LocalDistance(s[pos[a]], s[pos[b]], m, s[i].y, side);
  }

  /** The four points, moved into the cell of side sqrt(w) at the corner (m, s[i].y). */
  lemma LocalCells(s: seq<Point>, m: int, w: int, i: int, j: int, side: bool, pos: seq<int>) returns (ps: seq<Point>)
    requires SortedByY(s)
    requires 0 <= i <= j < |s| && DistanceSq(s[i], s[j]) < w
    requires |pos| == 4
    requires forall k :: 0 <= k < 4 ==> i <= pos[k] <= j
    requires forall k :: 0 <= k < 4 ==>
      Sq(s[pos[k]].x - m) < w && (side ==> s[pos[k]].x <= m) && (!side ==> m <= s[pos[k]].x)
    ensures |ps| == 4
    ensures forall k :: 0 <= k < 4 ==> ps[k] == Local(s[pos[k]], m, s[i].y, side) && InCell(ps[k], w)
  {
    ps := seq(4, k requires 0 <= k < 4 => Local(s[pos[k]], m, s[i].y, side));
    forall k | 0 <= k < 4 ensures InCell(ps[k], w) {
      WindowPointInCell(s, m, w, i, j, pos[k], side);
    }
  }

  /**
   * Every point of s is within the strip around x == m (closer to the line
   * than the square root of w) and on the side of the line of the half
   * left[t] names.
   */
  predicate OnOwnSide(s: seq<Point>, left: seq<bool>, m: int, w: int) {
    && |left| == |s|
    && forall t :: 0 <= t < |s| ==>
         Sq(s[t].x - m) < w && (left[t] ==> s[t].x <= m) && (!left[t] ==> m <= s[t].x)
  }

  /** Two different points of s from the same half are at squared distance at least w. */
  predicate HalvesApart(s: seq<Point>, left: seq<bool>, w: int)
    requires |left| == |s|
  {
    forall t, u :: 0 <= t < |s| && 0 <= u < |s| && t != u && left[t] == left[u] ==>
      DistanceSq(s[t], s[u]) >= w
  }

  /**
   * s is the strip sorted by y, left[t] tells from which half of the split
   * s[t] comes, every point is within the strip around x == m and on its
   * half's side of the line, and points of one half are pairwise at squared
   * distance at least w. Then two strip points at squared distance below w
   * are at most five positions apart.
   */
  lemma WindowBound(s: seq<Point>, left: seq<bool>, m: int, w: int, i: int, j: int)
    requires SortedByY(s) && OnOwnSide(s, left, m, w) && HalvesApart(s, left, w)
    requires 0 <= i < j < |s| && DistanceSq(s[i], s[j]) < w
    ensures j - i <= 5
  {
    if j - i > 5 {
      var side, pos := FourOnOneSide(left, i);
      FourOnOneSideNear(s, m, w, i, j, side, pos);
      assert false;
    }
  }
}
