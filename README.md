# Closest pair of points, modelled in Dafny

This project models `ClosestPointsCalculator`, a divide-and-conquer search for the two closest points of an array of integer points, together with its `Point` record. It proves that the search returns a closest pair.

The search works as follows:

- The entry point sorts the array by x in place.
- It then splits index ranges at their midpoint until a range holds at most 25 points (`BRUTE_FORCE_BOUNDARY`).
- Such a range is searched exhaustively.
- After both halves of a range are solved, the *strip* step looks for a pair across the split. It collects the points whose x is closer to the midpoint's x than the better half's distance, sorts them by y, and compares each with the next six points (`STRIP_CHECK_LIMIT` = 7).
- The left, right and strip results are combined with a fixed tie-break order.

Files:

- `points.dfy`: module `Points`.
  - The `Point` value and its distance, kept squared so that it stays an exact integer.
  - Lemmas that square roots preserve every comparison the search makes.
  - The display form `(x=<x>, y=<y>)` and a parser that reads it back.
  - The source's 32-bit distance computation, as written.
- `sorting.dfy`: module `Sorting`.
  - The stable sort by an integer key that Java's `Arrays.sort` and `List.sort` perform, modelled as an insertion-sort function.
  - Proofs that its output is sorted, is a permutation of the input, keeps elements of equal key in their input order, and commutes with mapping.
- `packing.dfy`: module `Packing`.
  - The geometric argument behind the strip step: four points pairwise at least `d` apart do not fit in a half-open square of side `d`.
  - Consequently, two strip points closer than `d` are at most five places apart in the y-sorted strip, so a window of 7 is enough.
- `closest.dfy`: module `ClosestPoints`.
  - `Range`, the brute-force search, the strip step, the combination of results, the recursive driver and the entry point.
  - The brute-force search and the strip scan are methods with loop invariants. The driver is a recursive method over the array, and the entry point sorts the array in place.

Distances are squared throughout. The source compares `Math.sqrt` values. `Points.SqrtComparisonsAgree` and `Points.StripTestAgrees` show that each `<` between square roots, and the strip test `|dx| < sqrt(w)`, has the same outcome as the corresponding test on squares.

## Model

| member | source | states |
|---|---|---|
| Points.DistanceSq | Point.java:11-15 | the squared distance is never negative, and it is zero exactly when the two points are equal |
| Points.DistanceSymmetric | Point.java:11-15 | the distance from p to q equals the distance from q to p |
| Points.SqrtComparisonsAgree | Point.java:14 | for non-negative a and b, a < b holds exactly when a*a < b*b, so comparing `Math.sqrt` results agrees with comparing squared distances |
| Points.StripTestAgrees | ClosestPointsCalculator.java:104-108 | `abs(dx) < sqrt(w)` holds exactly when dx*dx < w |
| Points.Int32 | Point.java:12-14 | a Java int result lies in [-2^31, 2^31) and differs from the exact value by a multiple of 2^32; it is the exact value when that fits |
| Points.DistanceSqAsWritten | Point.java:12-14 | the source's int radicand lies in the int range and differs from the exact squared distance by a multiple of 2^32, so it is the exact value wrapped to 32 bits (Points.DistanceOverflows and Points.DistanceSqAsWrittenExact say where the two differ and where they agree) |
| Points.DistanceOverflows | Point.java:12-14 | the source's int arithmetic gives distance 0 for (0,0) and (65536,0), whose squared distance is 2^32; for (0,0) and (46341,0) it gives a negative radicand |
| Points.DistanceSqAsWrittenExact | Point.java:12-14 | when every coordinate lies in [-16383, 16383], the source's int computation equals the exact squared distance |
| Points.Decimal | Point.java:18 | the `%d` text of an int is non-empty, has no comma, has no leading zero (a text starting with '0' is "0", and a minus sign is followed by a non-zero digit), and parses back to the same int |
| Points.ToString | Point.java:17-19 | the display form `(x=<x>, y=<y>)` of a point parses back to the same point |
| Points.ToStringInjective | Point.java:17-19 | two points with the same display form are the same point |
| Sorting.SortByPermutes | ClosestPointsCalculator.java:22 | the stable sort's output is a permutation (the same multiset) of its input |
| Sorting.SortBySorted | ClosestPointsCalculator.java:113 | the stable sort's output is ordered non-decreasingly by the key |
| Sorting.SortByStable | ClosestPointsCalculator.java:22 | the sort is stable: for every key value, the elements with that key appear in the output in their input order |
| Sorting.SortMapCommute | ClosestPointsCalculator.java:113 | sorting the images of a sequence is the same as sorting the sequence by the images' key and then mapping; with this, each sorted point can be traced back to its original position |
| Packing.NoFourFarApart | ClosestPointsCalculator.java:117-118 | four points that are pairwise at squared distance at least w cannot all lie in [0, s) x [0, s), where s*s == w |
| Packing.WindowBound | ClosestPointsCalculator.java:117-118 | two positions i < j of a strip sorted by y whose points are closer than the width satisfy j - i <= 5, under two conditions: every point lies within the width of the line on its own half's side, and points of one half are at least the width apart |
| ClosestPoints.NewRange | ClosestPointsCalculator.java:138-142 | `mid = start + (end - start) / 2` satisfies start <= mid <= end, and the upper half is the lower half or one larger |
| ClosestPoints.SplitHalves | ClosestPointsCalculator.java:41-46 | splitting a range of more than 25 points leaves at least 13 points in each half, and each half is smaller than the range |
| ClosestPoints.BruteForceSearch | ClosestPointsCalculator.java:76-90 | returns the points at two positions i < j of the range, and no pair of the range is closer; because only a strictly closer pair replaces the current one, every pair visited before (i, j) is strictly farther apart |
| ClosestPoints.StripPoints | ClosestPointsCalculator.java:105-111 | the points the first loop collects: no more than the range holds, each within the width of the line; ClosestPoints.StripOrderFacts shows that they are exactly the in-strip points of the range |
| ClosestPoints.StripOf | ClosestPointsCalculator.java:105-113 | the strip list after `strip.sort`: ordered by y and the same multiset as the collected points |
| ClosestPoints.Strip | ClosestPointsCalculator.java:102-128 | works on the range's points within the width min(left, right) of the midpoint's x, sorted by y. The examined pairs are those at most 6 places apart. Returns None when no examined pair is closer than the width. Otherwise returns the first examined pair, in loop order, of least distance among the examined pairs; that distance is below the width |
| ClosestPoints.StripOrderFacts | ClosestPointsCalculator.java:104-113 | the strip holds each position of the range whose point is within the width, exactly once, traced to its position in the array, and is ordered by y |
| ClosestPoints.StripResultDrawn | ClosestPointsCalculator.java:117-127 | a pair found in the strip consists of the points at two different positions of the range |
| ClosestPoints.CrossPairInStrip | ClosestPointsCalculator.java:107-111 | two points on either side of the line x == m that are closer than w are both within w of the line |
| ClosestPoints.CrossPairExamined | ClosestPointsCalculator.java:102-128 | a pair across the split that is closer than both halves' results appears, with the same distance, as a pair the strip loops examine |
| ClosestPoints.Combine | ClosestPointsCalculator.java:53-64 | the chosen pair is the left, right or strip pair and is no farther apart than any of them; on a tie the strip pair wins, then the right pair |
| ClosestPoints.CrossPairNotCloser | ClosestPointsCalculator.java:51-64 | no pair across the split is closer than the combined result |
| ClosestPoints.CombineCorrect | ClosestPointsCalculator.java:45-64 | the combined pair is drawn from two different positions of the range, and no pair of the range is closer |
| ClosestPoints.FindClosestInRange | ClosestPointsCalculator.java:40-65 | on a range of at least two points sorted by x, returns two points from different positions of the range such that no pair of the range is closer |
| ClosestPoints.SortByXOrigins | ClosestPointsCalculator.java:22 | sorting by x only moves points: each sorted point is the input point at a position perm[t], and every position is used exactly once |
| ClosestPoints.ClosestUnderPermutation | ClosestPointsCalculator.java:22-24 | a closest pair of a permutation of the points is a closest pair of the points |
| ClosestPoints.SortedByKeyAgrees | ClosestPointsCalculator.java:22 | the order by x over a range that the recursion relies on, and the order by y of the strip, are exactly the sort's key order for the keys x and y |
| ClosestPoints.SortByXSorted | ClosestPointsCalculator.java:22 | the array sorted by x has the same length and is ordered by x |
| ClosestPoints.SortedClosest | ClosestPointsCalculator.java:20-27 | a closest pair of the array sorted by x is a closest pair of the original array |
| ClosestPoints.SortByX | ClosestPointsCalculator.java:22 | the array afterwards holds the stable sort by x of its old contents |
| ClosestPoints.FindClosestPairOfPoints | ClosestPointsCalculator.java:20-27 | returns null for null. Returns a shorter-than-two array itself, unchanged. Otherwise sorts the array by x in place and returns a new two-element array holding a closest pair of both the sorted and the original points |

## Left out

- Floating point: distances are exact squared integers rather than `double` square roots. For radicands below 2^31, two different integers have square roots more than one rounding step apart, so rounding does not change any comparison. This is argued here, not modelled.
- 32-bit overflow: the model's distance uses unbounded integers, and so does the strip test's x-difference at ClosestPointsCalculator.java:108. The source's int behaviour appears only in `Points.DistanceSqAsWritten` (see Findings).
- `Arrays.sort` and `List.sort` (TimSort) are modelled by a stable insertion-sort function. Both are stable (Sorting.SortByStable proves it for the model), so the sorted order is the same.
- Returned arrays and object identity: every recursive call of the source returns a fresh two-element `Point[]`. The model returns a `Pair` value and allocates a new array only at the entry point. Points are values, matching the record's structural equality.
- Null elements: the model's arrays hold only points. In the source, an array of two or more elements holding a null makes the sort by x at ClosestPointsCalculator.java:22 throw a NullPointerException; that failure is not modelled.
- The strip list (an `ArrayList`) is a sequence. The source's "no strip pair" result, an array holding two nulls, is `None`.
- ToString / Decimal: the model emits ASCII digits and an ASCII minus sign. Java's `String.formatted` formats `%d` with the default locale, which may use other digits or another minus sign; the model assumes a locale whose zero digit is '0' and whose minus sign is '-'.
- BruteForceSearch: requires at least two points in the range. The source does not check this; its callers never pass a smaller range (ClosestPoints.SplitHalves).
- FindClosestInRange: states that the result is a closest pair of the range. It does not say which of several equally close pairs the tie-break order selects. The tie-break is stated for each step by ClosestPoints.Combine and ClosestPoints.BruteForceSearch.
- FindClosestPairOfPoints: the contract promises a closest pair, not the particular pair the tie-breaks select, for the same reason.

## Findings

| source | as written | input that shows it | evidently intended | confidence | as-written member | corrected member |
|---|---|---|---|---|---|---|
| Point.java:12-14 | `dx`, `dy`, `dx * dx + dy * dy` are computed in 32-bit `int` and wrap around | (0,0) and (65536,0): `dx * dx` wraps to 0, so two different points are at distance 0.0; (0,0) and (46341,0): the sum is negative and `Math.sqrt` gives NaN | the exact Euclidean distance (for example computed in `long`) | high; not executed | Points.DistanceSqAsWritten, Points.DistanceOverflows | Points.DistanceSq |
