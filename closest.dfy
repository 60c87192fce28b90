/**
 * ClosestPointsCalculator: the divide-and-conquer search for the closest
 * pair of points of an array, with its brute-force base case, the strip
 * step that looks for a pair across the split, and the `Range` descriptor.
 *
 * Distances are squared integers (Points.DistanceSq); the `double`
 * distances of the source are their square roots, and every comparison the
 * search makes has the same outcome on either.
 */
module ClosestPoints {
  import opened Points
  import opened Sorting
  import Packing

  /** Ranges of at most this many points are searched exhaustively. */
  const BRUTE_FORCE_BOUNDARY := 25
  /** Each strip point is compared with the points at most STRIP_CHECK_LIMIT - 1 places after it. */
  const STRIP_CHECK_LIMIT := 7

  /** The two points the search returns (a two-element `Point[]` in the source). */
  datatype Pair = Pair(first: Point, second: Point)

  function PairDistance(p: Pair): int { DistanceSq(p.first, p.second) }

  function KeyX(p: Point): int { p.x }
  function KeyY(p: Point): int { p.y }

  /** `Math.min` */
  function Min(a: int, b: int): int { if a < b then a else b }

  // ---------------------------------------------------------------------
  // Range
  // ---------------------------------------------------------------------

  /** The half-open index interval [start, end) of one recursive call, with its midpoint. */
  datatype Range = Range(start: int, mid: int, end: int)

  /** Java's `/ 2` on int, which rounds toward zero. */
  function HalfTowardZero(n: int): int { if n >= 0 then n / 2 else -((-n) / 2) }

  /** `new Range(start, end)`: mid = start + (end - start) / 2. */
  function NewRange(start: int, end: int): (r: Range)
    ensures r.start == start && r.end == end
    ensures start <= end ==> start <= r.mid <= end
    ensures start <= end ==> r.mid - start <= end - r.mid <= r.mid - start + 1
  {
    Range(start, start + HalfTowardZero(end - start), end)
  }

  /**
   * Splitting a range larger than the brute-force boundary leaves at least
   * 13 points on each side; in particular both halves are smaller than the
   * range, so the recursion terminates, and both hold at least two points,
   * so the brute-force search always finds a first pair to start from.
   */
  lemma SplitHalves(start: int, end: int)
    requires end - start > BRUTE_FORCE_BOUNDARY
    ensures var r := NewRange(start, end);
      && 13 <= r.mid - start < end - start
      && 13 <= end - r.mid < end - start
  {
  }

  // ---------------------------------------------------------------------
  // Specification predicates
  // ---------------------------------------------------------------------

  /** p consists of the points at two different positions of [lo, hi). */
  ghost predicate DrawnFrom(s: seq<Point>, lo: int, hi: int, p: Pair)
    requires 0 <= lo && hi <= |s|
  {
    exists k, l :: lo <= k < hi && lo <= l < hi && k != l && p == Pair(s[k], s[l])
  }

  /** No two positions of [lo, hi) hold points at squared distance below d. */
  ghost predicate NoPairCloser(s: seq<Point>, lo: int, hi: int, d: int)
    requires 0 <= lo && hi <= |s|
  {
    forall k, l :: lo <= k < l < hi ==> d <= DistanceSq(s[k], s[l])
  }

  /** s[lo..hi] is ordered by x: Sorting.SortedBy with the key x, on a slice (see SortedByKeyAgrees). */
  ghost predicate SortedByXIn(s: seq<Point>, lo: int, hi: int)
    requires 0 <= lo && hi <= |s|
  {
    forall k, l :: lo <= k < l < hi ==> s[k].x <= s[l].x
  }

  /** The orderings by x and by y used by the search are SortedBy with the keys KeyX and KeyY. */
  lemma SortedByKeyAgrees(s: seq<Point>, lo: int, hi: int)
    requires 0 <= lo <= hi <= |s|
    ensures SortedByXIn(s, lo, hi) <==> SortedBy(s[lo..hi], KeyX)
    ensures Packing.SortedByY(s) <==> SortedBy(s, KeyY)
  {
    if SortedBy(s[lo..hi], KeyX) {
      forall k, l | lo <= k < l < hi ensures s[k].x <= s[l].x {
        assert s[k] == s[lo..hi][k - lo] && s[l] == s[lo..hi][l - lo];
      }
    }
  }

  // ---------------------------------------------------------------------
  // bruteForceSearch
  // ---------------------------------------------------------------------

  /** (k, l) comes before (i, j) in the order in which the nested loops visit pairs. */
  predicate LexBefore(k: int, l: int, i: int, j: int) {
    k < i || (k == i && l < j)
  }

  /** No pair of [lo, hi) visited before (i, j) is closer than d. */
  ghost predicate NoneCloserBefore(s: seq<Point>, lo: int, hi: int, d: int, i: int, j: int)
    requires 0 <= lo && hi <= |s|
  {
    forall k, l {:trigger DistanceSq(s[k], s[l])} :: lo <= k < l < hi && LexBefore(k, l, i, j) ==> d <= DistanceSq(s[k], s[l])
  }

  /** Every pair of [lo, hi) visited before (i, j) is farther apart than the pair (i, j). */
  ghost predicate FirstOfLeast(s: seq<Point>, lo: int, hi: int, i: int, j: int)
    requires 0 <= lo <= i < j < hi <= |s|
  {
    forall k, l {:trigger DistanceSq(s[k], s[l])} :: lo <= k < l < hi && LexBefore(k, l, i, j) ==> DistanceSq(s[i], s[j]) < DistanceSq(s[k], s[l])
  }

  /**
   * The state of the nested loops of `bruteForceSearch` before they compare
   * (i, j): `closest` is the pair at positions (bi, bj), the first pair of
   * least distance among those already compared.
   */
  ghost predicate BestSoFar(s: seq<Point>, lo: int, hi: int, closest: Pair, bi: int, bj: int, i: int, j: int)
    requires 0 <= lo && hi <= |s|
  {
    && lo <= bi < bj < hi && closest == Pair(s[bi], s[bj])
    && NoneCloserBefore(s, lo, hi, PairDistance(closest), i, j)
    && FirstOfLeast(s, lo, hi, bi, bj)
  }

  /** Before any comparison the first pair of the range is the best one. */
  lemma NoneCloserFirst(s: seq<Point>, lo: int, hi: int)
    requires 0 <= lo && lo + 2 <= hi <= |s|
    ensures BestSoFar(s, lo, hi, Pair(s[lo], s[lo + 1]), lo, lo + 1, lo, lo + 1)
  {
  }

  /** A pair that is not strictly closer leaves the best pair as it is. */
  lemma NoneCloserStep(s: seq<Point>, lo: int, hi: int, closest: Pair, bi: int, bj: int, i: int, j: int)
    requires 0 <= lo <= i < j < hi <= |s|
    requires BestSoFar(s, lo, hi, closest, bi, bj, i, j) && PairDistance(closest) <= DistanceSq(s[i], s[j])
    ensures BestSoFar(s, lo, hi, closest, bi, bj, i, j + 1)
  {
  }

  /** Having compared (i, j) for every j, the inner loop starts over at (i + 1, i + 2). */
  lemma NoneCloserNextRow(s: seq<Point>, lo: int, hi: int, closest: Pair, bi: int, bj: int, i: int)
    requires 0 <= lo <= i < hi <= |s|
    requires BestSoFar(s, lo, hi, closest, bi, bj, i, hi)
    ensures BestSoFar(s, lo, hi, closest, bi, bj, i + 1, i + 2)
  {
  }

  /**
   * p is the first pair of [lo, hi), in the order of the nested loops, of
   * least distance, and no pair of the range is closer.
   */
  ghost predicate IsFirstClosest(s: seq<Point>, lo: int, hi: int, p: Pair)
    requires 0 <= lo && hi <= |s|
  {
    && (exists i, j :: lo <= i < j < hi && p == Pair(s[i], s[j]) && FirstOfLeast(s, lo, hi, i, j))
    && NoPairCloser(s, lo, hi, PairDistance(p))
  }

  /** Once every pair has been compared, the best pair is the first closest pair. */
  lemma NoneCloserAll(s: seq<Point>, lo: int, hi: int, closest: Pair, bi: int, bj: int)
    requires 0 <= lo <= hi <= |s|
    requires BestSoFar(s, lo, hi, closest, bi, bj, hi, hi + 1)
    ensures IsFirstClosest(s, lo, hi, closest)
  {
  }

  /** A strictly closer pair becomes the new best pair. */
  lemma CloserPairFound(s: seq<Point>, lo: int, hi: int, closest: Pair, bi: int, bj: int, i: int, j: int)
    requires 0 <= lo <= i < j < hi <= |s|
    requires BestSoFar(s, lo, hi, closest, bi, bj, i, j) && DistanceSq(s[i], s[j]) < PairDistance(closest)
    ensures BestSoFar(s, lo, hi, Pair(s[i], s[j]), i, j, i, j + 1)
  {
  }

  /**
   * Compares every pair of [start, end) and keeps the first pair, in the
   * order of the nested loops, of least distance: a pair is replaced only
   * by a strictly closer one.
   */
  method BruteForceSearch(points: array<Point>, range: Range) returns (closest: Pair)
    requires 0 <= range.start && range.start + 2 <= range.end <= points.Length
    ensures IsFirstClosest(points[..], range.start, range.end, closest)
  {
    ghost var s := points[..];
    var lo, hi := range.start, range.end;
    closest := Pair(points[lo], points[lo + 1]);
    ghost var bi, bj := lo, lo + 1;
    NoneCloserFirst(s, lo, hi);
    for i := lo to hi
      invariant BestSoFar(s, lo, hi, closest, bi, bj, i, i + 1)
    {
      for j := i + 1 to hi
        invariant BestSoFar(s, lo, hi, closest, bi, bj, i, j)
      {
        if DistanceSq(points[i], points[j]) < PairDistance(closest) {
          CloserPairFound(s, lo, hi, closest, bi, bj, i, j);
          closest := Pair(points[i], points[j]);
          bi, bj := i, j;
        } else {
          NoneCloserStep(s, lo, hi, closest, bi, bj, i, j);
        }
      }
      NoneCloserNextRow(s, lo, hi, closest, bi, bj, i);
    }
    NoneCloserAll(s, lo, hi, closest, bi, bj);
  }

  // ---------------------------------------------------------------------
  // strip
  // ---------------------------------------------------------------------

  /**
   * `Math.abs(p.x() - m) < stripWidth`, with the width squared: the point is
   * closer to the vertical line x == m than the width.
   */
  predicate InStrip(p: Point, m: int, width: int) { Sq(p.x - m) < width }

  /** The positions of [lo, hi) whose point lies in the strip, in increasing order. */
  function StripPositions(s: seq<Point>, lo: int, hi: int, m: int, width: int): (ids: seq<int>)
    requires 0 <= lo <= hi <= |s|
    ensures forall t :: 0 <= t < |ids| ==> lo <= ids[t] < hi && InStrip(s[ids[t]], m, width)
    ensures forall t, u :: 0 <= t < u < |ids| ==> ids[t] < ids[u]
    ensures forall k :: lo <= k < hi && InStrip(s[k], m, width) ==> k in ids
    decreases hi - lo
  {
    if hi == lo then []
    else StripPositions(s, lo, hi - 1, m, width) + (if InStrip(s[hi - 1], m, width) then [hi - 1] else [])
  }

  /** The points of [lo, hi) inside the strip, in array order: what the first loop of `strip` collects. */
  function StripPoints(s: seq<Point>, lo: int, hi: int, m: int, width: int): (r: seq<Point>)
    requires 0 <= lo <= hi <= |s|
    ensures |r| <= hi - lo
    ensures forall t :: 0 <= t < |r| ==> InStrip(r[t], m, width)
    decreases hi - lo
  {
    if hi == lo then []
    else StripPoints(s, lo, hi - 1, m, width) + (if InStrip(s[hi - 1], m, width) then [s[hi - 1]] else [])
  }

  function PointAt(s: seq<Point>): int -> Point {
    k => if 0 <= k < |s| then s[k] else Point(0, 0)
  }

  function KeyYAt(s: seq<Point>): int -> int {
    k => if 0 <= k < |s| then s[k].y else 0
  }

  /** The strip of a range: its points within `width` of the midpoint's x, sorted (stably) by y. */
  function StripOf(s: seq<Point>, range: Range, width: int): (r: seq<Point>)
    requires 0 <= range.start <= range.mid < range.end <= |s|
    ensures Packing.SortedByY(r)
    ensures multiset(r) == multiset(StripPoints(s, range.start, range.end, s[range.mid].x, width))
  {
    var collected := StripPoints(s, range.start, range.end, s[range.mid].x, width);
    SortBySorted(collected, KeyY);
    SortByPermutes(collected, KeyY);
    SortBy(collected, KeyY)
  }

  /** The position in s of each point of the strip, in the strip's order. */
  function StripOrder(s: seq<Point>, range: Range, width: int): seq<int>
    requires 0 <= range.start <= range.mid < range.end <= |s|
  {
    SortBy(StripPositions(s, range.start, range.end, s[range.mid].x, width), KeyYAt(s))
  }

  /** (i, j) is a pair of strip positions that the nested loops of `strip` compare. */
  predicate Examined(i: int, j: int, n: int) {
    0 <= i < j < n && j < i + STRIP_CHECK_LIMIT
  }

  /** No pair the loops examine before (i, j) is closer than d. */
  ghost predicate NoneExaminedCloserBefore(s: seq<Point>, d: int, i: int, j: int) {
    forall k, l {:trigger DistanceSq(s[k], s[l])} :: Examined(k, l, |s|) && LexBefore(k, l, i, j) ==> d <= DistanceSq(s[k], s[l])
  }

  /** No pair the loops examine is closer than d. */
  ghost predicate NoneExaminedCloser(s: seq<Point>, d: int) {
    forall k, l :: Examined(k, l, |s|) ==> d <= DistanceSq(s[k], s[l])
  }

  /** Every pair examined before (i, j) is farther apart than the pair (i, j). */
  ghost predicate FirstOfLeastExamined(s: seq<Point>, i: int, j: int)
    requires 0 <= i < j < |s|
  {
    forall k, l {:trigger DistanceSq(s[k], s[l])} :: Examined(k, l, |s|) && LexBefore(k, l, i, j) ==> DistanceSq(s[i], s[j]) < DistanceSq(s[k], s[l])
  }

  /**
   * What `strip` returns for the sorted strip s and the width: nothing when
   * no examined pair is closer than the width, otherwise the first examined
   * pair (in loop order) of least distance, which is closer than the width.
   */
  ghost predicate IsStripResult(s: seq<Point>, width: int, res: Option<Pair>) {
    && (res.None? ==> NoneExaminedCloser(s, width))
    && (res.Some? ==>
         && PairDistance(res.value) < width
         && NoneExaminedCloser(s, PairDistance(res.value))
         && exists i, j :: Examined(i, j, |s|) && res.value == Pair(s[i], s[j]) && FirstOfLeastExamined(s, i, j))
  }

  /**
   * The state of the nested loops of `strip` before they compare (i, j):
   * `best` is None and `d` the width while no examined pair was closer than
   * the width; otherwise `best` is the pair at positions (bi, bj), the first
   * of least distance so far, and `d` its distance.
   */
  ghost predicate ScanState(s: seq<Point>, width: int, best: Option<Pair>, d: int, bi: int, bj: int, i: int, j: int) {
    && (best.None? ==> d == width)
    && (best.Some? ==>
         && Examined(bi, bj, |s|) && best.value == Pair(s[bi], s[bj])
         && d == PairDistance(best.value) && d < width
         && FirstOfLeastExamined(s, bi, bj))
    && NoneExaminedCloserBefore(s, d, i, j)
  }

  /** Before any comparison nothing is found and the bound is the width. */
  lemma ScanFirst(s: seq<Point>, width: int)
    ensures ScanState(s, width, None, width, 0, 0, 0, 1)
  {
  }

  /** Comparing (i, j) keeps the state, or makes (i, j) the best pair when it is closer. */
  lemma ScanStep(s: seq<Point>, width: int, best: Option<Pair>, d: int, bi: int, bj: int, i: int, j: int)
    requires Examined(i, j, |s|)
    ensures ScanState(s, width, best, d, bi, bj, i, j) && d <= DistanceSq(s[i], s[j]) ==>
      ScanState(s, width, best, d, bi, bj, i, j + 1)
    ensures ScanState(s, width, best, d, bi, bj, i, j) && DistanceSq(s[i], s[j]) < d ==>
      ScanState(s, width, Some(Pair(s[i], s[j])), DistanceSq(s[i], s[j]), i, j, i, j + 1)
  {
  }

  /** Having compared s[i] with the points of its window, the loops go on with s[i + 1]. */
  lemma ScanNextRow(s: seq<Point>, width: int, best: Option<Pair>, d: int, bi: int, bj: int, i: int)
    requires 0 <= i < |s|
    ensures ScanState(s, width, best, d, bi, bj, i, Min(i + STRIP_CHECK_LIMIT, |s|)) ==>
      ScanState(s, width, best, d, bi, bj, i + 1, i + 2)
  {
  }

  /** When the loops end, every examined pair has been compared. */
  lemma ScanDone(s: seq<Point>, width: int, best: Option<Pair>, d: int, bi: int, bj: int)
    ensures ScanState(s, width, best, d, bi, bj, |s|, |s| + 1) ==> IsStripResult(s, width, best)
  {
  }

  /**
   * Collects the points of the range inside the strip, sorts them by y and
   * compares each with its next successors, looking for a pair closer than
   * min(leftDistance, rightDistance).
   */
  method Strip(points: array<Point>, leftDistance: int, rightDistance: int, range: Range)
    returns (stripClosest: Option<Pair>)
    requires 0 <= range.start <= range.mid < range.end <= points.Length
    ensures IsStripResult(StripOf(points[..], range, Min(leftDistance, rightDistance)),
                          Min(leftDistance, rightDistance), stripClosest)
  {
    var stripWidth := Min(leftDistance, rightDistance);
    var m := points[range.mid].x;
    ghost var ps := points[..];
    var strip: seq<Point> := [];
    for i := range.start to range.end
      invariant strip == StripPoints(ps, range.start, i, m, stripWidth)
    {
      if Sq(points[i].x - m) < stripWidth {
        strip := strip + [points[i]];
      }
    }
    strip := SortBy(strip, KeyY);

    stripClosest := None;
    var stripDistance := stripWidth;
    ghost var bi, bj := 0, 0;
    ScanFirst(strip, stripWidth);
    for i := 0 to |strip|
      invariant ScanState(strip, stripWidth, stripClosest, stripDistance, bi, bj, i, i + 1)
    {
      for j := i + 1 to Min(i + STRIP_CHECK_LIMIT, |strip|)
        invariant ScanState(strip, stripWidth, stripClosest, stripDistance, bi, bj, i, j)
      {
        ScanStep(strip, stripWidth, stripClosest, stripDistance, bi, bj, i, j);
        if DistanceSq(strip[i], strip[j]) < stripDistance {
          stripDistance := DistanceSq(strip[i], strip[j]);
          stripClosest := Some(Pair(strip[i], strip[j]));
          bi, bj := i, j;
        }
      }
      ScanNextRow(strip, stripWidth, stripClosest, stripDistance, bi, bj, i);
    }
    ScanDone(strip, stripWidth, stripClosest, stripDistance, bi, bj);
  }

  // ---------------------------------------------------------------------
  // What the strip holds
  // ---------------------------------------------------------------------

  /** strip[t] is the point at position order[t] of [lo, hi), and no position is used twice. */
  ghost predicate TracedTo(strip: seq<Point>, order: seq<int>, s: seq<Point>, lo: int, hi: int) {
    && |order| == |strip| && Distinct(order)
    && forall t :: 0 <= t < |strip| ==> lo <= order[t] < hi && 0 <= order[t] < |s| && strip[t] == s[order[t]]
  }

  /**
   * Each strip point is the point at the matching position of StripOrder:
   * a position of the range whose point is in the strip. Every such
   * position occurs exactly once, and the strip is ordered by y.
   */
  lemma StripOrderFacts(s: seq<Point>, range: Range, width: int)
    requires 0 <= range.start <= range.mid < range.end <= |s|
    ensures var strip, order := StripOf(s, range, width), StripOrder(s, range, width);
      && TracedTo(strip, order, s, range.start, range.end) && Packing.SortedByY(strip)
      && (forall t :: 0 <= t < |strip| ==> InStrip(strip[t], s[range.mid].x, width))
      && (forall k :: range.start <= k < range.end && InStrip(s[k], s[range.mid].x, width) ==> k in order)
  {
    StripTraced(s, range, width);
    StripMembers(s, range, width);
  }

  /** The collected points are the points at the strip positions. */
  lemma {:induction false} StripPointsPositions(s: seq<Point>, lo: int, hi: int, m: int, width: int)
    requires 0 <= lo <= hi <= |s|
    ensures StripPoints(s, lo, hi, m, width) == MapSeq(StripPositions(s, lo, hi, m, width), PointAt(s))
    decreases hi - lo
  {
    if hi > lo {
      StripPointsPositions(s, lo, hi - 1, m, width);
      MapSeqAppend(StripPositions(s, lo, hi - 1, m, width),
                   if InStrip(s[hi - 1], m, width) then [hi - 1] else [], PointAt(s));
    }
  }

  lemma StripTraced(s: seq<Point>, range: Range, width: int)
    requires 0 <= range.start <= range.mid < range.end <= |s|
    ensures TracedTo(StripOf(s, range, width), StripOrder(s, range, width), s, range.start, range.end)
    ensures multiset(StripOrder(s, range, width)) == multiset(StripPositions(s, range.start, range.end, s[range.mid].x, width))
  {
    var m := s[range.mid].x;
    var ids := StripPositions(s, range.start, range.end, m, width);
    var order := StripOrder(s, range, width);
    StripPointsPositions(s, range.start, range.end, m, width);
    SortMapCommute(ids, PointAt(s), KeyY, KeyYAt(s));
    SortByPermutes(ids, KeyYAt(s));
    SortByDistinct(ids, KeyYAt(s));
    forall t | 0 <= t < |order| ensures range.start <= order[t] < range.end {
      assert order[t] in multiset(ids);
    }
  }

  lemma StripMembers(s: seq<Point>, range: Range, width: int)
    requires 0 <= range.start <= range.mid < range.end <= |s|
    ensures var strip := StripOf(s, range, width);
      forall t :: 0 <= t < |strip| ==> InStrip(strip[t], s[range.mid].x, width)
    ensures forall k :: range.start <= k < range.end && InStrip(s[k], s[range.mid].x, width) ==>
      k in StripOrder(s, range, width)
  {
    var m := s[range.mid].x;
    var ids := StripPositions(s, range.start, range.end, m, width);
    var strip, order := StripOf(s, range, width), StripOrder(s, range, width);
    StripTraced(s, range, width);
    forall t | 0 <= t < |strip| ensures InStrip(strip[t], m, width) {
      assert order[t] in multiset(ids);
    }
    forall k | range.start <= k < range.end && InStrip(s[k], m, width) ensures k in order {
      assert k in multiset(ids);
    }
  }

  /**
   * The strip result names two different positions of the range: the
   * points `strip` returns are drawn from the range.
   */
  lemma StripResultDrawn(s: seq<Point>, range: Range, width: int, res: Option<Pair>)
    requires 0 <= range.start <= range.mid < range.end <= |s|
    requires IsStripResult(StripOf(s, range, width), width, res) && res.Some?
    ensures DrawnFrom(s, range.start, range.end, res.value)
  {
    var strip, order := StripOf(s, range, width), StripOrder(s, range, width);
    StripOrderFacts(s, range, width);
    var i, j :| Examined(i, j, |strip|) && res.value == Pair(strip[i], strip[j]) && FirstOfLeastExamined(strip, i, j);
    assert order[i] != order[j];
  }

  /** Which half of the range each strip point comes from: true for the left half. */
  function StripSides(s: seq<Point>, range: Range, width: int): seq<bool>
    requires 0 <= range.start <= range.mid < range.end <= |s|
  {
    MapSeq(StripOrder(s, range, width), k => k < range.mid)
  }

  /** Two different points of one half are at least as far apart as that half's closest pair. */
  lemma SameHalfApart(s: seq<Point>, strip: seq<Point>, order: seq<int>, range: Range, dL: int, dR: int, t: int, u: int)
    requires 0 <= range.start <= range.mid < range.end <= |s|
    requires TracedTo(strip, order, s, range.start, range.end)
    requires NoPairCloser(s, range.start, range.mid, dL) && NoPairCloser(s, range.mid, range.end, dR)
    requires 0 <= t < |strip| && 0 <= u < |strip| && t != u
    requires (order[t] < range.mid) == (order[u] < range.mid)
    ensures DistanceSq(strip[t], strip[u]) >= Min(dL, dR)
  {
    var k, l := order[t], order[u];
    assert k != l;
    DistanceSymmetric(s[k], s[l]);
    if k > l {
      k, l := l, k;
    }
  }

  /** A point of the left half is left of the midpoint's x, one of the right half right of it. */
  lemma SideOfLine(s: seq<Point>, strip: seq<Point>, order: seq<int>, range: Range, t: int)
    requires 0 <= range.start <= range.mid < range.end <= |s|
    requires TracedTo(strip, order, s, range.start, range.end)
    requires SortedByXIn(s, range.start, range.end)
    requires 0 <= t < |strip|
    ensures order[t] < range.mid ==> strip[t].x <= s[range.mid].x
    ensures range.mid <= order[t] ==> s[range.mid].x <= strip[t].x
  {
  }

  /** Each strip point is within the width of x == m and on its own half's side of it. */
  lemma StripOnOwnSide(s: seq<Point>, range: Range, w: int)
    requires 0 <= range.start <= range.mid < range.end <= |s|
    requires SortedByXIn(s, range.start, range.end)
    ensures Packing.OnOwnSide(StripOf(s, range, w), StripSides(s, range, w), s[range.mid].x, w)
  {
    var strip, order, left := StripOf(s, range, w), StripOrder(s, range, w), StripSides(s, range, w);
    StripOrderFacts(s, range, w);
    forall t | 0 <= t < |strip|
      ensures left[t] ==> strip[t].x <= s[range.mid].x
      ensures !left[t] ==> s[range.mid].x <= strip[t].x
    {
      SideOfLine(s, strip, order, range, t);
    }
  }

  /** Two different strip points of one half are at least min(dL, dR) apart. */
  lemma StripHalvesApart(s: seq<Point>, range: Range, dL: int, dR: int)
    requires 0 <= range.start <= range.mid < range.end <= |s|
    requires NoPairCloser(s, range.start, range.mid, dL) && NoPairCloser(s, range.mid, range.end, dR)
    ensures |StripSides(s, range, Min(dL, dR))| == |StripOf(s, range, Min(dL, dR))|
    ensures Packing.HalvesApart(StripOf(s, range, Min(dL, dR)), StripSides(s, range, Min(dL, dR)), Min(dL, dR))
  {
    var w := Min(dL, dR);
    var strip, order, left := StripOf(s, range, w), StripOrder(s, range, w), StripSides(s, range, w);
    StripOrderFacts(s, range, w);
    forall t, u | 0 <= t < |strip| && 0 <= u < |strip| && t != u && left[t] == left[u]
      ensures DistanceSq(strip[t], strip[u]) >= w
    {
      SameHalfApart(s, strip, order, range, dL, dR, t, u);
    }
  }

  /**
   * Two points of different halves that are closer than both halves'
   * closest pairs both lie in the strip, at most five places apart: the
   * loops of `strip` examine them.
   */
  lemma CrossPairExamined(s: seq<Point>, range: Range, dL: int, dR: int, k: int, l: int)
    requires 0 <= range.start <= range.mid < range.end <= |s|
    requires SortedByXIn(s, range.start, range.end)
    requires NoPairCloser(s, range.start, range.mid, dL) && NoPairCloser(s, range.mid, range.end, dR)
    requires range.start <= k < range.mid <= l < range.end && DistanceSq(s[k], s[l]) < Min(dL, dR)
    ensures var strip := StripOf(s, range, Min(dL, dR));
      exists i, j :: Examined(i, j, |strip|) && DistanceSq(strip[i], strip[j]) == DistanceSq(s[k], s[l])
  {
    var w := Min(dL, dR);
    var strip, sides := StripOf(s, range, w), StripSides(s, range, w);
    var i, j := CrossPairInStripPositions(s, range, w, k, l);
    StripOnOwnSide(s, range, w);
    StripHalvesApart(s, range, dL, dR);
    Packing.WindowBound(strip, sides, s[range.mid].x, w, i, j);
    assert Examined(i, j, |strip|);
  }

  /** Two points of different halves closer than the width are at two positions i < j of the strip. */
  lemma CrossPairInStripPositions(s: seq<Point>, range: Range, w: int, k: int, l: int) returns (i: int, j: int)
    requires 0 <= range.start <= range.mid < range.end <= |s|
    requires SortedByXIn(s, range.start, range.end)
    requires range.start <= k < range.mid <= l < range.end && DistanceSq(s[k], s[l]) < w
    ensures var strip := StripOf(s, range, w);
      0 <= i < j < |strip| && DistanceSq(strip[i], strip[j]) == DistanceSq(s[k], s[l])
  {
    CrossPairInStrip(s[k], s[l], s[range.mid].x, w);
    StripTraced(s, range, w);
    StripMembers(s, range, w);
    i, j := TracedPair(StripOf(s, range, w), StripOrder(s, range, w), s, range.start, range.end, k, l);
  }

  /** Two different positions that occur in order are at two positions i < j of the traced sequence. */
  lemma TracedPair(strip: seq<Point>, order: seq<int>, s: seq<Point>, lo: int, hi: int, k: int, l: int)
    returns (i: int, j: int)
    requires TracedTo(strip, order, s, lo, hi)
    requires k in order && l in order && k != l && 0 <= k < |s| && 0 <= l < |s|
    ensures 0 <= i < j < |strip| && DistanceSq(strip[i], strip[j]) == DistanceSq(s[k], s[l])
  {
    var t :| 0 <= t < |order| && order[t] == k;
    var u :| 0 <= u < |order| && order[u] == l;
    assert strip[t] == s[k] && strip[u] == s[l];
    if t < u {
      i, j := t, u;
    } else {
      DistanceSymmetric(s[k], s[l]);
      i, j := u, t;
    }
  }

  /** Two points on either side of x == m closer than w are both within w of the line. */
  lemma CrossPairInStrip(p: Point, q: Point, m: int, w: int)
    requires p.x <= m <= q.x && DistanceSq(p, q) < w
    ensures InStrip(p, m, w) && InStrip(q, m, w)
  {
    var dx := q.x - p.x;
    SquareFacts(q.y - p.y);
    SquareFacts(p.x - q.x);
    SquareFacts(m - p.x);
    SquareMonotone(m - p.x, dx);
    SquareMonotone(q.x - m, dx);
  }

  // ---------------------------------------------------------------------
  // Combining the two halves and the strip
  // ---------------------------------------------------------------------

  /**
   * The choice at the end of each recursive call: the closest of the left
   * pair, the right pair and the strip pair (when `strip` found one). On a
   * tie the strip pair wins over the halves, and the right pair over the
   * left one.
   */
  function Combine(left: Pair, right: Pair, strip: Option<Pair>): (r: Pair)
    ensures r == left || r == right || (strip.Some? && r == strip.value)
    ensures PairDistance(r) <= PairDistance(left) && PairDistance(r) <= PairDistance(right)
    ensures strip.Some? ==> PairDistance(r) <= PairDistance(strip.value)
    ensures PairDistance(r) == PairDistance(right) ==> r == right || (strip.Some? && r == strip.value)
    ensures strip.Some? && PairDistance(r) == PairDistance(strip.value) ==> r == strip.value
  {
    var leftDistance, rightDistance := PairDistance(left), PairDistance(right);
    if strip.None? then
      (if leftDistance < rightDistance then left else right)
    else
      var stripDistance := PairDistance(strip.value);
      if leftDistance < rightDistance && leftDistance < stripDistance then left
      else if rightDistance < stripDistance then right
      else strip.value
  }

  /** A cross pair is no closer than the strip result, or than both halves when there is none. */
  lemma CrossPairNotCloser(s: seq<Point>, range: Range, left: Pair, right: Pair, strip: Option<Pair>, k: int, l: int)
    requires 0 <= range.start <= range.mid < range.end <= |s|
    requires SortedByXIn(s, range.start, range.end)
    requires NoPairCloser(s, range.start, range.mid, PairDistance(left))
    requires NoPairCloser(s, range.mid, range.end, PairDistance(right))
    requires var w := Min(PairDistance(left), PairDistance(right)); IsStripResult(StripOf(s, range, w), w, strip)
    requires range.start <= k < range.mid <= l < range.end
    ensures PairDistance(Combine(left, right, strip)) <= DistanceSq(s[k], s[l])
  {
    var dL, dR := PairDistance(left), PairDistance(right);
    if DistanceSq(s[k], s[l]) < Min(dL, dR) {
      CrossPairExamined(s, range, dL, dR, k, l);
    }
  }

  /**
   * The pair Combine picks is drawn from the whole range, and no pair of
   * the range is closer: a pair inside one half is no closer than that
   * half's result, and a closer pair across the halves is one the strip
   * examines.
   */
  lemma CombineCorrect(s: seq<Point>, range: Range, left: Pair, right: Pair, strip: Option<Pair>)
    requires 0 <= range.start <= range.mid < range.end <= |s|
    requires SortedByXIn(s, range.start, range.end)
    requires DrawnFrom(s, range.start, range.mid, left) && NoPairCloser(s, range.start, range.mid, PairDistance(left))
    requires DrawnFrom(s, range.mid, range.end, right) && NoPairCloser(s, range.mid, range.end, PairDistance(right))
    requires var w := Min(PairDistance(left), PairDistance(right)); IsStripResult(StripOf(s, range, w), w, strip)
    ensures DrawnFrom(s, range.start, range.end, Combine(left, right, strip))
    ensures NoPairCloser(s, range.start, range.end, PairDistance(Combine(left, right, strip)))
  {
    var r := Combine(left, right, strip);
    if r == left {
      var k, l :| range.start <= k < range.mid && range.start <= l < range.mid && k != l && left == Pair(s[k], s[l]);
    } else if r == right {
      var k, l :| range.mid <= k < range.end && range.mid <= l < range.end && k != l && right == Pair(s[k], s[l]);
    } else {
      StripResultDrawn(s, range, Min(PairDistance(left), PairDistance(right)), strip);
    }
    forall k, l | range.start <= k < l < range.end ensures PairDistance(r) <= DistanceSq(s[k], s[l]) {
      if range.mid <= k {
      } else if l < range.mid {
      } else {
        CrossPairNotCloser(s, range, left, right, strip, k, l);
      }
    }
  }

  // ---------------------------------------------------------------------
  // findClosestPairOfPoints
  // ---------------------------------------------------------------------

  /**
   * The recursive search over a range of an array sorted by x: small
   * ranges are searched exhaustively, larger ones are split at the
   * midpoint, both halves are searched, and the strip across the split is
   * checked for a closer pair. The result is a closest pair of the range.
   */
  method FindClosestInRange(points: array<Point>, range: Range) returns (closest: Pair)
    requires 0 <= range.start && range.start + 2 <= range.end <= points.Length
    requires range == NewRange(range.start, range.end)
    requires SortedByXIn(points[..], range.start, range.end)
    ensures DrawnFrom(points[..], range.start, range.end, closest)
    ensures NoPairCloser(points[..], range.start, range.end, PairDistance(closest))
    decreases range.end - range.start
  {
    if range.end - range.start <= BRUTE_FORCE_BOUNDARY {
      closest := BruteForceSearch(points, range);
      return;
    }
    SplitHalves(range.start, range.end);
    var leftClosest := FindClosestInRange(points, NewRange(range.start, range.mid));
    var rightClosest := FindClosestInRange(points, NewRange(range.mid, range.end));
    var leftDistance := PairDistance(leftClosest);
    var rightDistance := PairDistance(rightClosest);
    var stripClosest := Strip(points, leftDistance, rightDistance, range);
    CombineCorrect(points[..], range, leftClosest, rightClosest, stripClosest);
    closest := Combine(leftClosest, rightClosest, stripClosest);
  }

  function KeyXAt(s: seq<Point>): int -> int {
    k => if 0 <= k < |s| then s[k].x else 0
  }

  /**
   * Sorting by x only moves points: the t-th point of the sorted sequence
   * is the point at position perm[t] of the input, and perm uses every
   * position exactly once.
   */
  lemma SortByXOrigins(s: seq<Point>) returns (perm: seq<int>)
    ensures TracedTo(SortBy(s, KeyX), perm, s, 0, |s|)
    ensures forall k :: 0 <= k < |s| ==> k in perm
  {
    var idx := seq(|s|, k requires 0 <= k => k);
    assert MapSeq(idx, PointAt(s)) == s;
    SortMapCommute(idx, PointAt(s), KeyX, KeyXAt(s));
    perm := SortBy(idx, KeyXAt(s));
    SortByPermutes(idx, KeyXAt(s));
    SortByDistinct(idx, KeyXAt(s));
    forall t | 0 <= t < |perm| ensures 0 <= perm[t] < |s| {
      assert perm[t] in multiset(idx);
    }
    forall k | 0 <= k < |s| ensures k in perm {
      assert idx[k] == k;
      assert k in multiset(idx);
    }
  }

  /**
   * A closest pair of a permutation of s is a closest pair of s: it is
   * drawn from two different positions of s, and no two positions of s
   * are closer.
   */
  lemma ClosestUnderPermutation(s: seq<Point>, sorted: seq<Point>, perm: seq<int>, p: Pair)
    requires TracedTo(sorted, perm, s, 0, |s|) && forall k :: 0 <= k < |s| ==> k in perm
    requires DrawnFrom(sorted, 0, |sorted|, p) && NoPairCloser(sorted, 0, |sorted|, PairDistance(p))
    ensures DrawnFrom(s, 0, |s|, p) && NoPairCloser(s, 0, |s|, PairDistance(p))
  {
    var i, j :| 0 <= i < |sorted| && 0 <= j < |sorted| && i != j && p == Pair(sorted[i], sorted[j]);
    assert perm[i] != perm[j];
    forall k, l | 0 <= k < l < |s| ensures PairDistance(p) <= DistanceSq(s[k], s[l]) {
      PermutedPairNotCloser(s, sorted, perm, PairDistance(p), k, l);
    }
  }

  /** The points at two positions of s are at two positions of its permutation. */
  lemma PermutedPairNotCloser(s: seq<Point>, sorted: seq<Point>, perm: seq<int>, d: int, k: int, l: int)
    requires TracedTo(sorted, perm, s, 0, |s|) && 0 <= k < l < |s| && k in perm && l in perm
    requires NoPairCloser(sorted, 0, |sorted|, d)
    ensures d <= DistanceSq(s[k], s[l])
  {
    var t :| 0 <= t < |perm| && perm[t] == k;
    var u :| 0 <= u < |perm| && perm[u] == l;
    DistanceSymmetric(s[k], s[l]);
    if u < t {
      assert d <= DistanceSq(sorted[u], sorted[t]);
    } else {
      assert d <= DistanceSq(sorted[t], sorted[u]);
    }
  }

  /** Sorting by x yields a sequence of the same length, ordered by x. */
  lemma SortByXSorted(s: seq<Point>)
    ensures |SortBy(s, KeyX)| == |s| && SortedByXIn(SortBy(s, KeyX), 0, |s|)
  {
    SortByLength(s, KeyX);
    SortBySorted(s, KeyX);
  }

  /** p is a closest pair of s: two points from different positions, and no two positions closer. */
  ghost predicate IsClosestPair(s: seq<Point>, p: Pair) {
    DrawnFrom(s, 0, |s|, p) && NoPairCloser(s, 0, |s|, PairDistance(p))
  }

  /** A closest pair of the input sorted by x is a closest pair of the input. */
  lemma SortedClosest(s: seq<Point>, p: Pair)
    requires IsClosestPair(SortBy(s, KeyX), p)
    ensures IsClosestPair(s, p)
  {
    SortByLength(s, KeyX);
    var perm := SortByXOrigins(s);
    ClosestUnderPermutation(s, SortBy(s, KeyX), perm, p);
  }

  /** `Arrays.sort(points, Comparator.comparingInt(Point::x))`: a stable sort by x, in place. */
  method SortByX(points: array<Point>)
    modifies points
    ensures points[..] == SortBy(old(points[..]), KeyX)
  {
    var sorted := SortBy(points[..], KeyX);
    SortByLength(points[..], KeyX);
    forall i | 0 <= i < points.Length {
      points[i] := sorted[i];
    }
  }

  /**
   * The entry point. An absent array, or one with fewer than two points, is
   * returned as it is. Otherwise the array is sorted by x in place and a
   * new two-element array holding a closest pair is returned: two points
   * from different positions of the array, and no two positions hold
   * points closer together.
   */
  method FindClosestPairOfPoints(points: array?<Point>) returns (result: array?<Point>)
    modifies points
    ensures points == null ==> result == null
    ensures points != null && points.Length < 2 ==> result == points && points[..] == old(points[..])
    ensures points != null && points.Length >= 2 ==>
      && points[..] == SortBy(old(points[..]), KeyX)
      && result != null && fresh(result) && result.Length == 2
      && IsClosestPair(points[..], Pair(result[0], result[1]))
      && IsClosestPair(old(points[..]), Pair(result[0], result[1]))
  {
    if points == null || points.Length < 2 {
      return points;
    }
    ghost var original := points[..];
    SortByX(points);
    SortByXSorted(original);
    var closest := FindClosestInRange(points, NewRange(0, points.Length));
    ghost var sorted := points[..];
    assert IsClosestPair(sorted, closest);
    SortedClosest(original, closest);
    result := new Point[2];
    result[0], result[1] := closest.first, closest.second;
  }
}
