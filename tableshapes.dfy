/**
 Seat layout around a table (tableshapes.py).

 A table record gives a position, a size, a shape index (0 oval, 1 rectangle
 seated on two sides, 2 rectangle seated on four sides) and a capacity; the
 generators turn it into one point per chair. Coordinates are exact reals
 here. The oval's points are kept symbolic: `OnOval(cx, cy, rx, ry, k, n)`
 stands for the point at angle k * 2pi / n on the ellipse with centre
 (cx, cy) and radii rx, ry.
 */
module TableShapes {
  import opened Builtins

  const Oval := 0
  const TwoSide := 1
  const FourSide := 2

  /** The shape names offered by the editor, indexed by shape number. */
  const Shapes: seq<string> := ["Oval", "Rectangle (two sides)", "Rectangle (four sides)"]

  /** How far outside the table edge a chair is centred. */
  const SeatOffset: int := 20

  /** The fields of a table record that the layout reads. */
  datatype TableData = TableData(xPos: int, yPos: int, width: int, height: int, shape: int, capacity: int)

  datatype Point =
    | Exact(x: real, y: real)
    | OnOval(cx: real, cy: real, rx: real, ry: real, step: nat, count: nat)

  /** What the layout code asks of a table before it is drawn. */
  predicate WellFormed(t: TableData) {
    t.width >= 0 && t.height >= 0 && t.capacity >= 0 && 0 <= t.shape < |Shapes|
  }

  // ---------------------------------------------------------------------------
  // generate_spaced

  /** The values `generate_spaced(lower, upper, n)` yields: the first half a
      spacing above `lower`, each next one a spacing further on. */
  function Spaced(lower: real, upper: real, n: int): (r: seq<real>)
    ensures |r| == if n > 0 then n else 0
  {
    if n <= 0 then []
    else
      var spacing := (upper - lower) / n as real;
      seq(n, i requires 0 <= i < n => lower + spacing / 2.0 + i as real * spacing)
  }

  /** generate_spaced: a running `x` advanced by `spacing` once per value. */
  method GenerateSpaced(lower: real, upper: real, n: int) returns (xs: seq<real>)
    ensures xs == Spaced(lower, upper, n)
  {
    xs := [];
    if n == 0 {
      return;
    }
    var spacing := (upper - lower) / n as real;
    var x := lower + spacing / 2.0;
    var i := 0;
    while i < n
      invariant n > 0 ==> 0 <= i <= n
      invariant n < 0 ==> i == 0
      invariant |xs| == i
      invariant x == lower + spacing / 2.0 + i as real * spacing
      invariant forall k :: 0 <= k < i ==> xs[k] == lower + spacing / 2.0 + k as real * spacing
    {
      xs := xs + [x];
      x := x + spacing;
      i := i + 1;
    }
    assert n > 0 ==> |xs| == n;
  }

  /** When the interval is proper, every spaced value lies strictly inside it. */
  lemma SpacedInside(lower: real, upper: real, n: int, i: int)
    requires lower < upper && 0 <= i < n
    ensures lower < Spaced(lower, upper, n)[i] < upper
  {
    var s := (upper - lower) / n as real;
    assert s * n as real == upper - lower;
    var x := Spaced(lower, upper, n)[i];
    assert x == lower + s / 2.0 + i as real * s;
    var before, after := i as real + 0.5, n as real - i as real - 0.5;
    assert x - lower == s * before;
    assert upper - x == s * n as real - s / 2.0 - i as real * s;
    assert upper - x == s * after;
    PositiveProduct(s, before);
    PositiveProduct(s, after);
  }

  lemma PositiveProduct(a: real, b: real)
    requires a > 0.0 && b > 0.0
    ensures a * b > 0.0
  {
  }

  /** The spaced values are placed symmetrically about the middle of the interval. */
  lemma SpacedCentred(lower: real, upper: real, n: int, i: int)
    requires 0 <= i < n
    ensures Spaced(lower, upper, n)[i] + Spaced(lower, upper, n)[n - 1 - i] == lower + upper
  {
    var s := (upper - lower) / n as real;
    assert s * n as real == upper - lower;
    var xs := Spaced(lower, upper, n);
    assert xs[i] + xs[n - 1 - i] == 2.0 * lower + s + (n - 1) as real * s;
  }

  /** Neighbouring values are exactly one spacing, (upper - lower) / n, apart. */
  lemma SpacedStep(lower: real, upper: real, n: int, i: int)
    requires 0 <= i && i + 1 < n
    ensures Spaced(lower, upper, n)[i + 1] - Spaced(lower, upper, n)[i] == (upper - lower) / n as real
  {
  }

  // ---------------------------------------------------------------------------
  // Placing spaced values on an edge

  /** Points along a horizontal line at height y. */
  function AtY(xs: seq<real>, y: real): (ps: seq<Point>)
    ensures |ps| == |xs|
    ensures forall i :: 0 <= i < |xs| ==> ps[i] == Exact(xs[i], y)
  {
    seq(|xs|, i requires 0 <= i < |xs| => Exact(xs[i], y))
  }

  /** Points along a vertical line at x. */
  function AtX(x: real, ys: seq<real>): (ps: seq<Point>)
    ensures |ps| == |ys|
    ensures forall i :: 0 <= i < |ys| ==> ps[i] == Exact(x, ys[i])
  {
    seq(|ys|, i requires 0 <= i < |ys| => Exact(x, ys[i]))
  }

  // ---------------------------------------------------------------------------
  // generate_oval (only the angle index of each point)

  /** The points generate_oval yields: `capacity` equal angular steps, starting at angle 0. */
  function OvalSeats(t: TableData): seq<Point> {
    var rx := t.width as real / 2.0;
    var ry := t.height as real / 2.0;
    var n := if t.capacity > 0 then t.capacity else 0;
    seq(n, i requires 0 <= i < n =>
      OnOval(t.xPos as real + rx, t.yPos as real + ry, rx + SeatOffset as real, ry + SeatOffset as real, i, n))
  }

  /** generate_oval: a running angle advanced by one increment per point.
      Python divides by the capacity here, so the source only calls it with capacity > 0. */
  method GenerateOval(t: TableData) returns (ps: seq<Point>)
    requires t.capacity > 0
    ensures ps == OvalSeats(t)
  {
    var rx := t.width as real / 2.0;
    var ry := t.height as real / 2.0;
    var cx := t.xPos as real + rx;
    var cy := t.yPos as real + ry;
    rx := rx + SeatOffset as real;
    ry := ry + SeatOffset as real;
    var angle: nat := 0;
    ps := [];
    for i := 0 to t.capacity
      invariant angle == i && |ps| == i
      invariant forall k :: 0 <= k < i ==> ps[k] == OnOval(cx, cy, rx, ry, k, t.capacity)
    {
      ps := ps + [OnOval(cx, cy, rx, ry, angle, t.capacity)];
      angle := angle + 1;
    }
  }

  /** generate_oval yields one point per seat, each at its own angle step. */
  lemma OvalSeatsCount(t: TableData)
    requires t.capacity >= 0
    ensures |OvalSeats(t)| == t.capacity
    ensures forall i :: 0 <= i < t.capacity ==> OvalSeats(t)[i].OnOval? && OvalSeats(t)[i].step == i
  {
  }

  // ---------------------------------------------------------------------------
  // generate_two_side

  function TopY(t: TableData): real { (t.yPos - SeatOffset) as real }
  function BottomY(t: TableData): real { (t.yPos + t.height + SeatOffset) as real }

  /** generate_two_side(table, capacity): `capacity // 2` seats above the table,
      the rest below, both spread over [x_pos, x_pos + width]. */
  function TwoSideSeats(t: TableData, capacity: int): seq<Point> {
    var top := capacity / 2;
    var lower := t.xPos as real;
    var upper := (t.xPos + t.width) as real;
    AtY(Spaced(lower, upper, top), TopY(t)) + AtY(Spaced(lower, upper, capacity - top), BottomY(t))
  }

  /** The top row holds `capacity // 2` seats and the bottom row the rest, which is
      never fewer and at most one more; together they hold exactly `capacity`. */
  lemma TwoSideSplit(t: TableData, capacity: int)
    requires capacity >= 0
    ensures var ps := TwoSideSeats(t, capacity);
      && |ps| == capacity
      && (forall i :: 0 <= i < capacity / 2 ==> ps[i].Exact? && ps[i].y == TopY(t))
      && (forall i :: capacity / 2 <= i < capacity ==> ps[i].Exact? && ps[i].y == BottomY(t))
      && capacity / 2 <= capacity - capacity / 2 <= capacity / 2 + 1
  {
  }

  /** On a table of positive width every two-side seat sits strictly between its left and right ends. */
  lemma TwoSideWithinWidth(t: TableData, capacity: int, i: int)
    requires capacity >= 0 && t.width > 0 && 0 <= i < capacity
    ensures var ps := TwoSideSeats(t, capacity);
      ps[i].Exact? && t.xPos as real < ps[i].x < (t.xPos + t.width) as real
  {
    var top := capacity / 2;
    var lower, upper := t.xPos as real, (t.xPos + t.width) as real;
    if i < top {
      SpacedInside(lower, upper, top, i);
    } else {
      SpacedInside(lower, upper, capacity - top, i - top);
    }
  }

  // ---------------------------------------------------------------------------
  // generate_four_side

  /** Python's `round` on the exact quotient num / den: to the nearest integer,
      a tie going to the even neighbour. */
  function RoundHalfEven(num: int, den: int): int
    requires den != 0
  {
    var nu, de := if den < 0 then -num else num, if den < 0 then -den else den;
    var q, r := nu / de, nu % de;
    if 2 * r < de then q
    else if 2 * r > de then q + 1
    else if q % 2 == 0 then q
    else q + 1
  }

  /** `round` picks an integer within half a unit of the quotient, and on a tie the even one. */
  lemma RoundHalfEvenNearest(num: int, den: int)
    requires den > 0
    ensures var n := RoundHalfEven(num, den);
      && -den <= 2 * (num - n * den) <= den
      && (2 * (num - n * den) == den || 2 * (num - n * den) == -den ==> n % 2 == 0)
  {
    var q, r := num / den, num % den;
    assert num == q * den + r;
    assert (q + 1) * den == q * den + den;
  }

  /** `n & ~1`: clears the lowest bit, i.e. rounds down to an even number. */
  function ClearLowBit(n: int): (r: int)
    ensures r % 2 == 0 && r <= n < r + 2
  {
    n - n % 2
  }

  /** The seats generate_four_side gives to the left and right edges together:
      `round(capacity * height / (width + height)) & ~1`. */
  function SideSeats(t: TableData): int
    requires t.width + t.height != 0
  {
    ClearLowBit(RoundHalfEven(t.capacity * t.height, t.width + t.height))
  }

  lemma MulMonotone(c: int, a: int, b: int)
    requires c >= 0 && a <= b
    ensures c * a <= c * b
  {
  }

  /** On a table of non-negative size, the side seats are an even number between 0 and the capacity. */
  lemma SideSeatsBounds(t: TableData)
    requires t.width >= 0 && t.height >= 0 && t.width + t.height > 0 && t.capacity >= 0
    ensures var n := SideSeats(t); n % 2 == 0 && 0 <= n <= t.capacity
  {
    var num, den := t.capacity * t.height, t.width + t.height;
    MulMonotone(t.capacity, 0, t.height);
    MulMonotone(t.capacity, t.height, den);
    var q, r := num / den, num % den;
    assert num == q * den + r;
    if q > t.capacity {
      MulMonotone(den, t.capacity + 1, q);
      assert false;
    }
    if q < 0 {
      MulMonotone(den, q, -1);
      assert false;
    }
    if q == t.capacity {
      assert r == 0;
    }
  }

  /** generate_four_side: the top and bottom take `capacity - n` seats as in the two-side
      layout, then n / 2 go down the left edge and n / 2 down the right. */
  function FourSideSeats(t: TableData): seq<Point>
    requires t.width + t.height != 0
  {
    FourSideLayout(t, SideSeats(t))
  }

  /** generate_four_side once its side-seat count n is known. */
  function FourSideLayout(t: TableData, n: int): seq<Point> {
    var lower := t.yPos as real;
    var upper := (t.yPos + t.height) as real;
    TwoSideSeats(t, t.capacity - n)
      + AtX((t.xPos - SeatOffset) as real, Spaced(lower, upper, n / 2))
      + AtX((t.xPos + t.width + SeatOffset) as real, Spaced(lower, upper, n / 2))
  }

  /** For any even side count within the capacity: the first `capacity - n` seats are the
      two-side layout of that many, then n / 2 on the left edge and n / 2 on the right. */
  lemma FourSideLayoutSplit(t: TableData, n: int)
    requires 0 <= n <= t.capacity && n % 2 == 0
    ensures var ps := FourSideLayout(t, n);
      && |ps| == t.capacity
      && ps[..t.capacity - n] == TwoSideSeats(t, t.capacity - n)
      && (forall i :: t.capacity - n <= i < t.capacity - n / 2 ==>
            ps[i].Exact? && ps[i].x == (t.xPos - SeatOffset) as real)
      && (forall i :: t.capacity - n / 2 <= i < t.capacity ==>
            ps[i].Exact? && ps[i].x == (t.xPos + t.width + SeatOffset) as real)
  {
    TwoSideSplit(t, t.capacity - n);
  }

  /** For any even side count within the capacity, on a table of positive height every
      side seat lies strictly between its top and bottom edges. */
  lemma FourSideLayoutWithinHeight(t: TableData, n: int, i: int)
    requires 0 <= n <= t.capacity && n % 2 == 0 && t.height > 0
    requires t.capacity - n <= i < t.capacity
    ensures var ps := FourSideLayout(t, n);
      ps[i].Exact? && t.yPos as real < ps[i].y < (t.yPos + t.height) as real
  {
    var lower, upper := t.yPos as real, (t.yPos + t.height) as real;
    TwoSideSplit(t, t.capacity - n);
    var k := i - (t.capacity - n);
    if k < n / 2 {
      SpacedInside(lower, upper, n / 2, k);
    } else {
      SpacedInside(lower, upper, n / 2, k - n / 2);
    }
  }

  /** The four-side layout seats exactly `capacity`: the first `capacity - n` as the
      two-side layout puts them on the top and bottom, then n / 2 on the left edge and
      n / 2 on the right edge. */
  lemma FourSideSplit(t: TableData)
    requires t.width >= 0 && t.height >= 0 && t.width + t.height > 0 && t.capacity >= 0
    ensures var ps, n := FourSideSeats(t), SideSeats(t);
      && |ps| == t.capacity
      && ps[..t.capacity - n] == TwoSideSeats(t, t.capacity - n)
      && (forall i :: t.capacity - n <= i < t.capacity - n / 2 ==>
            ps[i].Exact? && ps[i].x == (t.xPos - SeatOffset) as real)
      && (forall i :: t.capacity - n / 2 <= i < t.capacity ==>
            ps[i].Exact? && ps[i].x == (t.xPos + t.width + SeatOffset) as real)
  {
    SideSeatsBounds(t);
    FourSideLayoutSplit(t, SideSeats(t));
  }

  /** On a table of positive height every left or right seat of the four-side layout lies
      strictly between the table's top and bottom edges. */
  lemma FourSideWithinHeight(t: TableData, i: int)
    requires t.width >= 0 && t.height > 0 && t.capacity >= 0
    requires t.capacity - SideSeats(t) <= i < t.capacity
    ensures var ps := FourSideSeats(t);
      0 <= i < |ps| && ps[i].Exact? && t.yPos as real < ps[i].y < (t.yPos + t.height) as real
  {
    SideSeatsBounds(t);
    var n := SideSeats(t);
    FourSideLayoutSplit(t, n);
    FourSideLayoutWithinHeight(t, n, i);
  }

  // ---------------------------------------------------------------------------
  // generate_chairs

  /** Whether laying out chairs raises: the four-side ratio divides by width + height. */
  predicate LayoutFails(t: TableData) {
    t.capacity > 0 && t.shape == FourSide && t.width + t.height == 0
  }

  /** generate_chairs: nothing for a table without seats, otherwise the generator
      for the table's shape; `None` where that generator divides by zero. */
  function GenerateChairs(t: TableData): (r: Option<seq<Point>>)
    requires 0 <= t.shape < |Shapes|
    ensures r.None? <==> LayoutFails(t)
  {
    if t.capacity <= 0 then Some([])
    else if t.shape == Oval then Some(OvalSeats(t))
    else if t.shape == TwoSide then Some(TwoSideSeats(t, t.capacity))
    else if t.width + t.height == 0 then None
    else Some(FourSideSeats(t))
  }

  /** Every shape yields exactly `capacity` chairs, and a table without seats yields none. */
  lemma ChairCount(t: TableData)
    requires WellFormed(t) && !LayoutFails(t)
    ensures GenerateChairs(t).Some? && |GenerateChairs(t).value| == t.capacity
  {
    if t.capacity > 0 {
      if t.shape == Oval {
        OvalSeatsCount(t);
      } else if t.shape == TwoSide {
        TwoSideSplit(t, t.capacity);
      } else {
        FourSideSplit(t);
      }
    }
  }
}
