/**
 * The `Point` record of the closest-pair calculator: an immutable pair of
 * integer coordinates, its distance (kept squared, so that it stays exact)
 * and its display form "(x=<x>, y=<y>)".
 */
module Points {

  datatype Option<T> = None | Some(value: T)

  /** A point is identified only by its two coordinates. */
  datatype Point = Point(x: int, y: int)

  function Sq(n: int): int { n * n }

  lemma SquareFacts(n: int)
    ensures Sq(n) >= 0
    ensures Sq(n) == 0 <==> n == 0
    ensures Sq(-n) == Sq(n)
  {
    if n < 0 {
      assert Sq(n) == (-n) * (-n);
    }
  }

  lemma SquareMonotone(a: int, b: int)
    requires 0 <= a <= b
    ensures Sq(a) <= Sq(b)
  {
    assert a * a <= a * b;
    assert a * b <= b * b;
  }

  /**
   * `distanceTo`, as the square of the Euclidean distance: dx*dx + dy*dy.
   * The source takes the square root of this value; since the square root
   * is monotone, every comparison made on distances has the same outcome on
   * squared distances (see SqrtComparisonsAgree).
   */
  function DistanceSq(p: Point, q: Point): (d: int)
    ensures d >= 0
    ensures d == 0 <==> p == q
  {
    SquareFacts(p.x - q.x);
    SquareFacts(p.y - q.y);
    Sq(p.x - q.x) + Sq(p.y - q.y)
  }

  lemma DistanceSymmetric(p: Point, q: Point)
    ensures DistanceSq(p, q) == DistanceSq(q, p)
  {
    SquareFacts(p.x - q.x);
    SquareFacts(p.y - q.y);
    assert q.x - p.x == -(p.x - q.x);
    assert q.y - p.y == -(p.y - q.y);
  }

  /** On non-negative reals, comparing two values and comparing their squares agree. */
  lemma SqrtComparisonsAgree(a: real, b: real)
    requires 0.0 <= a && 0.0 <= b
    ensures a < b <==> a * a < b * b
  {
    assert b * b - a * a == (b - a) * (b + a);
    if a < b {
      PositiveProduct(b - a, b + a);
    } else if b < a {
      PositiveProduct(a - b, b + a);
    }
  }

  lemma PositiveProduct(a: real, b: real)
    requires 0.0 < a && 0.0 < b
    ensures 0.0 < a * b
  {
  }

  /**
   * The strip test |dx| < sqrt(w) is the same as dx*dx < w, for any
   * non-negative real s whose square is w.
   */
  lemma StripTestAgrees(dx: int, s: real, w: int)
    requires 0.0 <= s && s * s == w as real
    ensures (if dx < 0 then -dx else dx) as real < s <==> Sq(dx) < w
  {
    var a := (if dx < 0 then -dx else dx) as real;
    SqrtComparisonsAgree(a, s);
    assert a * a == (dx * dx) as real;
  }

  // ---------------------------------------------------------------------
  // distanceTo as written: 32-bit int arithmetic
  // ---------------------------------------------------------------------

  const INT_MIN := -0x8000_0000
  const INT_MAX := 0x7fff_ffff

  /** A Java int operation's result: the exact value wrapped to 32-bit two's complement. */
  function Int32(n: int): (r: int)
    ensures INT_MIN <= r <= INT_MAX
    ensures (r - n) % 0x1_0000_0000 == 0
    ensures INT_MIN <= n <= INT_MAX ==> r == n
  {
    var m := n % 0x1_0000_0000;
    if m <= INT_MAX then m else m - 0x1_0000_0000
  }

  /**
   * The value `distanceTo` passes to `Math.sqrt`, as the source computes it:
   * the differences, the squares and their sum are all Java ints.
   */
  function DistanceSqAsWritten(p: Point, q: Point): (d: int)
    requires INT_MIN <= p.x <= INT_MAX && INT_MIN <= p.y <= INT_MAX
    requires INT_MIN <= q.x <= INT_MAX && INT_MIN <= q.y <= INT_MAX
    ensures INT_MIN <= d <= INT_MAX
    ensures (d - DistanceSq(p, q)) % 0x1_0000_0000 == 0
  {
    var dx := Int32(p.x - q.x);
    var dy := Int32(p.y - q.y);
    SquareCongruent(dx, p.x - q.x);
    SquareCongruent(dy, p.y - q.y);
    WrappedSumCongruent(Sq(dx), Sq(dy), Sq(p.x - q.x), Sq(p.y - q.y));
    Int32(Int32(dx * dx) + Int32(dy * dy))
  }

  /** Wrapping the terms and the sum of an addition keeps it congruent to the exact sum. */
  lemma WrappedSumCongruent(a: int, b: int, a2: int, b2: int)
    requires (a - a2) % 0x1_0000_0000 == 0 && (b - b2) % 0x1_0000_0000 == 0
    ensures (Int32(Int32(a) + Int32(b)) - (a2 + b2)) % 0x1_0000_0000 == 0
  {
    var M := 0x1_0000_0000;
    var r, ra, rb := Int32(Int32(a) + Int32(b)), Int32(a), Int32(b);
    var k1, k2, k3, k4, k5 := (r - (ra + rb)) / M, (ra - a) / M, (rb - b) / M, (a - a2) / M, (b - b2) / M;
    assert r - (a2 + b2) == (k1 + k2 + k3 + k4 + k5) * M;
  }

  /** Numbers congruent modulo 2^32 have squares congruent modulo 2^32. */
  lemma SquareCongruent(a: int, b: int)
    requires (a - b) % 0x1_0000_0000 == 0
    ensures (Sq(a) - Sq(b)) % 0x1_0000_0000 == 0
  {
    var k := (a - b) / 0x1_0000_0000;
    assert a - b == k * 0x1_0000_0000;
    assert Sq(a) - Sq(b) == (a - b) * (a + b);
    assert Sq(a) - Sq(b) == (k * (a + b)) * 0x1_0000_0000;
  }

  /**
   * Two points 65536 apart on the x axis: dx*dx is 2^32, which wraps to 0,
   * so the source finds them at distance 0 although they differ, while
   * DistanceSq gives 2^32. At 46341 apart the wrapped sum is negative and
   * the source's square root is NaN.
   */
  lemma DistanceOverflows()
    ensures DistanceSqAsWritten(Point(0, 0), Point(65536, 0)) == 0
    ensures DistanceSq(Point(0, 0), Point(65536, 0)) == 0x1_0000_0000
    ensures DistanceSqAsWritten(Point(0, 0), Point(46341, 0)) < 0
  {
    assert Int32(65536 * 65536) == 0;
    assert Int32(-65536) == -65536;
    assert Int32(-46341) == -46341;
    assert Int32(46341 * 46341) == 46341 * 46341 - 0x1_0000_0000;
  }

  /** Bound on coordinates for which the source's int arithmetic cannot overflow. */
  const SAFE_COORDINATE := 16383

  predicate SafeCoordinates(p: Point) {
    -SAFE_COORDINATE <= p.x <= SAFE_COORDINATE && -SAFE_COORDINATE <= p.y <= SAFE_COORDINATE
  }

  /** When coordinates stay within SAFE_COORDINATE, the source's int distance is exact. */
  lemma DistanceSqAsWrittenExact(p: Point, q: Point)
    requires SafeCoordinates(p) && SafeCoordinates(q)
    ensures DistanceSqAsWritten(p, q) == DistanceSq(p, q)
  {
    var dx, dy := p.x - q.x, p.y - q.y;
    SquareFacts(dx);
    SquareFacts(dy);
    SquareMonotone(if dx < 0 then -dx else dx, 2 * SAFE_COORDINATE);
    SquareMonotone(if dy < 0 then -dy else dy, 2 * SAFE_COORDINATE);
    assert Int32(dx) == dx && Int32(dy) == dy;
    assert Int32(dx * dx) == dx * dx && Int32(dy * dy) == dy * dy;
  }

  // ---------------------------------------------------------------------
  // Display form: "(x=%d, y=%d)"
  // ---------------------------------------------------------------------

  predicate IsDigit(c: char) { '0' <= c <= '9' }

  predicate AllDigits(s: string) { forall i :: 0 <= i < |s| ==> IsDigit(s[i]) }

  function DigitChar(d: nat): (c: char)
    requires d < 10
    ensures IsDigit(c) && (c as int) - ('0' as int) == d
  {
    (('0' as int) + d) as char
  }

  /** Decimal digits of a natural number, most significant first, no leading zeros. */
  function NatDigits(n: nat): (s: string)
    ensures |s| >= 1 && AllDigits(s)
    ensures n > 0 ==> s[0] != '0'
    decreases n
  {
    if n < 10 then [DigitChar(n)] else NatDigits(n / 10) + [DigitChar(n % 10)]
  }

  /** The number a string of decimal digits denotes. */
  function DigitsValue(s: string): nat
    requires AllDigits(s)
  {
    if |s| == 0 then 0
    else 10 * DigitsValue(s[..|s| - 1]) + ((s[|s| - 1] as int) - ('0' as int))
  }

  lemma {:induction false} DigitsRoundTrip(n: nat)
    ensures DigitsValue(NatDigits(n)) == n
    decreases n
  {
    if n >= 10 {
      DigitsRoundTrip(n / 10);
      var s := NatDigits(n);
      assert s[..|s| - 1] == NatDigits(n / 10);
    }
  }

  /**
   * `%d` formatting of an int: a minus sign for negative values, then the
   * digits. The text reads back as the same number.
   */
  function Decimal(n: int): (s: string)
    ensures |s| >= 1 && ',' !in s
    ensures ParseDecimal(s) == Some(n)
    ensures s[0] == '0' ==> s == "0"
    ensures s[0] == '-' ==> |s| >= 2 && s[1] != '0'
  {
    if n < 0 then
      var digits := NatDigits(-n);
      DigitsRoundTrip(-n);
      assert ("-" + digits)[1..] == digits;
      assert forall i :: 1 <= i < |digits| + 1 ==> ("-" + digits)[i] == digits[i - 1];
      "-" + digits
    else
      DigitsRoundTrip(n);
      NatDigits(n)
  }

  function ParseDecimal(s: string): Option<int> {
    if 2 <= |s| && s[0] == '-' && AllDigits(s[1..]) then Some(0 - DigitsValue(s[1..]))
    else if 1 <= |s| && AllDigits(s) then Some(DigitsValue(s))
    else None
  }

  /** Index of the first occurrence of c in s, or |s| when c does not occur. */
  function IndexOf(s: string, c: char): (k: nat)
    ensures k <= |s|
    ensures k < |s| ==> s[k] == c
    ensures forall i :: 0 <= i < k ==> s[i] != c
  {
    if |s| == 0 then 0 else if s[0] == c then 0 else 1 + IndexOf(s[1..], c)
  }

  lemma {:induction false} IndexOfAfter(a: string, b: string, c: char)
    requires c !in a
    ensures IndexOf(a + b, c) == |a| + IndexOf(b, c)
  {
    if |a| > 0 {
      assert (a + b)[1..] == a[1..] + b;
      IndexOfAfter(a[1..], b, c);
    } else {
      assert a + b == b;
    }
  }

  /** Reads back the display form of a point. */
  function ParsePoint(s: string): Option<Point> {
    if |s| < 4 || s[..3] != "(x=" || s[|s| - 1] != ')' then None
    else ParseCoordinates(s[3..|s| - 1])
  }

  /** Reads "<x>, y=<y>", the part of the display form between "(x=" and ")". */
  function ParseCoordinates(body: string): Option<Point> {
    var k := IndexOf(body, ',');
    if k + 4 > |body| || body[k..k + 4] != ", y=" then None
    else
      match (ParseDecimal(body[..k]), ParseDecimal(body[k + 4..]))
      case (Some(x), Some(y)) => Some(Point(x, y))
      case _ => None
  }

  /** In x-text + ", y=" + y-text, with no comma in the x-text, the first comma ends the x-text. */
  lemma CoordinatesSplit(dx: string, dy: string)
    requires ',' !in dx
    ensures var body, k := dx + ", y=" + dy, |dx|;
      && IndexOf(body, ',') == k && k + 4 <= |body|
      && body[..k] == dx && body[k..k + 4] == ", y=" && body[k + 4..] == dy
  {
    var tail := ", y=" + dy;
    var body := dx + tail;
    assert dx + ", y=" + dy == body;
    IndexOfAfter(dx, tail, ',');
    assert tail[0] == ',';
    var k := |dx|;
    assert body[..k] == dx && body[k..] == tail;
    assert tail[..4] == ", y=" && tail[4..] == dy;
    assert body[k..k + 4] == tail[..4];
    assert body[k + 4..] == tail[4..];
  }

  lemma CoordinatesRoundTrip(p: Point)
    ensures ParseCoordinates(Decimal(p.x) + ", y=" + Decimal(p.y)) == Some(p)
  {
    CoordinatesSplit(Decimal(p.x), Decimal(p.y));
  }

  /**
   * `toString`: "(x=" + x + ", y=" + y + ")". The display form loses
   * nothing: it reads back as the same point.
   */
  function ToString(p: Point): (s: string)
    ensures ParsePoint(s) == Some(p)
  {
    var body := Decimal(p.x) + ", y=" + Decimal(p.y);
    var s := "(x=" + body + ")";
    CoordinatesRoundTrip(p);
    assert s[..3] == "(x=";
    assert s[3..|s| - 1] == body;
    s
  }

  /** Two points display alike only when they are the same point. */
  lemma ToStringInjective(p: Point, q: Point)
    requires ToString(p) == ToString(q)
    ensures p == q
  {
    assert ParsePoint(ToString(p)) == Some(p);
    assert ParsePoint(ToString(q)) == Some(q);
  }
}
