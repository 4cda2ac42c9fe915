/**
  Nearest points on lines and polygons, and bounding rectangles, over exact
  coordinates.  Distances are compared squared, which orders them alike.
 */
module Geometry {

  datatype Point = Point(x: real, y: real)

  /** The segment from A to B. */
  datatype Line = Line(a: Point, b: Point)

  function Product(x: real, y: real): real { x * y }

  function Square(x: real): real { Product(x, x) }

  function SquaredDistance(p: Point, q: Point): real { Square(p.x - q.x) + Square(p.y - q.y) }

  /** The point at ratio t along the line: A at 0, B at 1. */
  function At(l: Line, t: real): Point { Point(l.a.x + t * (l.b.x - l.a.x), l.a.y + t * (l.b.y - l.a.y)) }

  function Numerator(l: Line, c: Point): real
  {
    Product(c.x - l.a.x, l.b.x - l.a.x) + Product(c.y - l.a.y, l.b.y - l.a.y)
  }

  function Denominator(l: Line): real { SquaredDistance(l.b, l.a) }

  /** Where along the line the nearest point is. */
  function Ratio(l: Line, c: Point): real
    requires Denominator(l) != 0.0
  {
    Numerator(l, c) / Denominator(l)
  }

  /** `getNearestPoint` */
  function NearestPoint(l: Line, c: Point, restrictToSegment: bool): Point
    requires Denominator(l) != 0.0
  {
    var ratio := Ratio(l, c);
    if 0.0 <= ratio <= 1.0 || !restrictToSegment then At(l, ratio)
    else if SquaredDistance(c, l.a) < SquaredDistance(c, l.b) then l.a else l.b
  }

  // ----- Optimality -------------------------------------------------------

  lemma PositiveProduct(x: real, y: real)
    requires x > 0.0 && y > 0.0
    ensures Product(x, y) > 0.0
  {
  }

  lemma NegatedSquare(x: real)
    ensures Square(-x) == Square(x)
  {
  }

  lemma SquareSign(x: real)
    ensures Square(x) >= 0.0
    ensures x != 0.0 ==> Square(x) > 0.0
    ensures x == 0.0 ==> Square(x) == 0.0
  {
    if x == 0.0 {
      assert Square(0.0) == 0.0;
    } else {
      NegatedSquare(x);
      hide Product;
      if x > 0.0 {
        PositiveProduct(x, x);
      } else {
        PositiveProduct(-x, -x);
      }
    }
  }

  lemma DistinctEnds(l: Line)
    ensures Denominator(l) >= 0.0 && (l.a != l.b <==> Denominator(l) > 0.0)
  {
    hide Square;
    SquareSign(l.b.x - l.a.x);
    SquareSign(l.b.y - l.a.y);
  }

  lemma ShiftedSquare(w: real, t: real, d: real)
    ensures (w - t * d) * (w - t * d) == w * w - 2.0 * (t * (w * d)) + t * t * (d * d)
  {
    var s := t * d;
    assert (w - s) * (w - s) == w * w - 2.0 * (w * s) + s * s;
    assert w * s == t * (w * d);
    assert s * s == t * t * (d * d);
  }

  lemma Factored(t: real, a: real, b: real)
    ensures t * a + t * b == t * (a + b)
  {
  }

  /** One coordinate's share of the distance to the point at t. */
  lemma CoordinateAt(c: real, a: real, b: real, t: real, p: real)
    requires p == a + t * (b - a)
    ensures Square(c - p) == Square(c - a) - 2.0 * (t * Product(c - a, b - a)) + t * t * Square(b - a)
  {
    var w, d := c - a, b - a;
    ShiftedSquare(w, t, d);
    assert c - p == w - t * d;
  }

  /** The distance to the point at t, as a polynomial in t. */
  lemma DistanceAt(l: Line, c: Point, t: real)
    ensures SquaredDistance(c, At(l, t))
         == SquaredDistance(c, l.a) - 2.0 * (t * Numerator(l, c)) + t * t * Denominator(l)
  {
    hide Square, Product;
    CoordinateAt(c.x, l.a.x, l.b.x, t, At(l, t).x);
    CoordinateAt(c.y, l.a.y, l.b.y, t, At(l, t).y);
    Factored(t, Product(c.x - l.a.x, l.b.x - l.a.x), Product(c.y - l.a.y, l.b.y - l.a.y));
    Factored(t * t, Square(l.b.x - l.a.x), Square(l.b.y - l.a.y));
  }

  lemma CompletedSquare(n: real, d: real, r: real, t: real)
    requires d > 0.0 && r == n / d
    ensures t * t * d - 2.0 * (t * n) == d * Square(t - r) - r * r * d
  {
    assert n == r * d;
    assert t * n == t * r * d;
    assert d * Square(t - r) == t * t * d - 2.0 * (t * r * d) + r * r * d;
  }

  /** The distance grows with the distance of t from the ratio. */
  lemma DistanceFromRatio(l: Line, c: Point, t: real, u: real)
    requires l.a != l.b
    requires Denominator(l) > 0.0
    ensures var r := Ratio(l, c);
            SquaredDistance(c, At(l, u)) - SquaredDistance(c, At(l, t))
            == Denominator(l) * Square(u - r) - Denominator(l) * Square(t - r)
  {
    hide SquaredDistance, At, Numerator, Denominator, Square;
    DistanceAt(l, c, t);
    DistanceAt(l, c, u);
    CompletedSquare(Numerator(l, c), Denominator(l), Ratio(l, c), t);
    CompletedSquare(Numerator(l, c), Denominator(l), Ratio(l, c), u);
  }

  lemma ProductOrder(d: real, x: real, y: real)
    requires d > 0.0
    ensures x <= y <==> d * x <= d * y
  {
  }

  lemma SquareOrder(x: real, y: real)
    requires 0.0 <= x <= y || y <= x <= 0.0
    ensures Square(x) <= Square(y)
    ensures x != y ==> Square(x) < Square(y)
  {
    var z := y - x;
    SquareOfSum(x, z);
    SameSign(x, z);
    SquareSign(z);
    hide Square;
  }

  lemma SquareOfSum(x: real, z: real)
    ensures Square(x + z) == Square(x) + 2.0 * (x * z) + Square(z)
  {
  }

  lemma SameSign(x: real, z: real)
    requires (0.0 <= x && 0.0 <= z) || (x <= 0.0 && z <= 0.0)
    ensures x * z >= 0.0
  {
  }

  /** A ratio at least as near to the best one gives a point at least as near. */
  lemma NearerRatio(l: Line, c: Point, t: real, u: real)
    requires l.a != l.b && Denominator(l) > 0.0
    ensures var r := Ratio(l, c);
            Square(t - r) <= Square(u - r) <==> SquaredDistance(c, At(l, t)) <= SquaredDistance(c, At(l, u))
  {
    hide SquaredDistance, At, Numerator, Denominator, Ratio, Square;
    var r := Ratio(l, c);
    DistanceFromRatio(l, c, t, u);
    ProductOrder(Denominator(l), Square(t - r), Square(u - r));
  }

  lemma Ends(l: Line)
    ensures At(l, 0.0) == l.a && At(l, 1.0) == l.b
  {
  }

  /** No point of the whole line is nearer than the point at the ratio. */
  lemma NearestOnLine(l: Line, c: Point, u: real)
    requires l.a != l.b && Denominator(l) > 0.0
    ensures SquaredDistance(c, NearestPoint(l, c, false)) <= SquaredDistance(c, At(l, u))
  {
    hide SquaredDistance, At, Numerator, Denominator, Ratio, Square;
    var r := Ratio(l, c);
    SquareSign(u - r);
    SquareSign(r - r);
    NearerRatio(l, c, r, u);
  }

  /** Which point of the segment is chosen: the one at the ratio brought into range. */
  function ChosenRatio(l: Line, c: Point): real
    requires Denominator(l) != 0.0
  {
    var r := Ratio(l, c);
    if r < 0.0 then 0.0 else if r > 1.0 then 1.0 else r
  }

  lemma NearestIsAtChosenRatio(l: Line, c: Point)
    requires l.a != l.b && Denominator(l) > 0.0
    ensures NearestPoint(l, c, true) == At(l, ChosenRatio(l, c))
  {
    hide SquaredDistance, At, Numerator, Denominator, Ratio, Square;
    var r := Ratio(l, c);
    Ends(l);
    NearerRatio(l, c, 0.0, 1.0);
    NearerRatio(l, c, 1.0, 0.0);
    if r < 0.0 {
      SquareOrder(0.0 - r, 1.0 - r);
    } else if r > 1.0 {
      SquareOrder(1.0 - r, 0.0 - r);
    }
  }

  /** The nearest point lies on the segment, and no point of the segment is nearer. */
  lemma NearestOnSegment(l: Line, c: Point, u: real)
    requires l.a != l.b && 0.0 <= u <= 1.0
    ensures Denominator(l) > 0.0 && 0.0 <= ChosenRatio(l, c) <= 1.0
    ensures NearestPoint(l, c, true) == At(l, ChosenRatio(l, c))
    ensures SquaredDistance(c, NearestPoint(l, c, true)) <= SquaredDistance(c, At(l, u))
  {
    hide SquaredDistance, At, Numerator, Denominator, Ratio, Square;
    DistinctEnds(l);
    NearestIsAtChosenRatio(l, c);
    var r, t := Ratio(l, c), ChosenRatio(l, c);
    SquareOrder(t - r, u - r);
    NearerRatio(l, c, t, u);
  }

  // ----- Polygons ---------------------------------------------------------

  /** `getSide`: from each vertex to the next, and from the last to the first. */
  function Side(points: seq<Point>, index: nat): Line
    requires index < |points|
  {
    Line(points[index], points[if index == |points| - 1 then 0 else index + 1])
  }

  ghost predicate DistinctNeighbours(points: seq<Point>)
  {
    forall i :: 0 <= i < |points| ==> Side(points, i).a != Side(points, i).b
  }

  /** The side found and the point found on it are nearest over the whole boundary. */
  method GetNearestSide(points: seq<Point>, testPoint: Point) returns (index: int, nearestPoint: Point)
    requires DistinctNeighbours(points)
    ensures points == [] <==> index == -1
    ensures points != [] ==>
      0 <= index < |points| && exists t :: 0.0 <= t <= 1.0 && nearestPoint == At(Side(points, index), t)
    ensures forall i, u :: 0 <= i < |points| && 0.0 <= u <= 1.0 ==>
      SquaredDistance(testPoint, nearestPoint) <= SquaredDistance(testPoint, At(Side(points, i), u))
  {
    hide SquaredDistance, At, Numerator, Denominator, Ratio, NearestPoint, ChosenRatio;
    index, nearestPoint := -1, Point(0.0, 0.0);
    ghost var ratio := 0.0;
    var nearestDistance := -1.0;
    for i := 0 to |points|
      invariant -1 <= index < i && (index == -1 <==> i == 0)
      invariant index >= 0 ==>
        && nearestDistance == SquaredDistance(testPoint, nearestPoint)
        && 0.0 <= ratio <= 1.0 && nearestPoint == At(Side(points, index), ratio)
      invariant forall k, u :: 0 <= k < i && 0.0 <= u <= 1.0 ==>
        SquaredDistance(testPoint, nearestPoint) <= SquaredDistance(testPoint, At(Side(points, k), u))
    {
      var side := Side(points, i);
      DistinctEnds(side);
      var p := NearestPoint(side, testPoint, true);
      var distance := SquaredDistance(testPoint, p);
      NearestOnSegment(side, testPoint, 0.0);
      forall u | 0.0 <= u <= 1.0
        ensures distance <= SquaredDistance(testPoint, At(side, u))
      {
        NearestOnSegment(side, testPoint, u);
      }
      if index < 0 || distance < nearestDistance {
        index, nearestPoint, nearestDistance := i, p, distance;
        ratio := ChosenRatio(side, testPoint);
      }
    }
  }

  // ----- Bounds -----------------------------------------------------------

  function Min(a: real, b: real): real { if a < b then a else b }

  function Max(a: real, b: real): real { if a < b then b else a }

  class Rect {
    var left: real
    var top: real
    var width: real
    var height: real

    ghost predicate Valid() reads this { width >= 0.0 && height >= 0.0 }

    constructor (left: real, top: real)
      ensures Valid() && this.left == left && this.top == top && width == 0.0 && height == 0.0
    {
      this.left, this.top, width, height := left, top, 0.0, 0.0;
    }

    /** `contains`: the right and bottom edges are outside. */
    predicate Contains(p: Point)
      reads this
    {
      left <= p.x < left + width && top <= p.y < top + height
    }

    /** Moves each edge just far enough to take in the point. */
    method ExpandTo(p: Point)
      modifies this
      ensures left == Min(old(left), p.x) && top == Min(old(top), p.y)
      ensures left + width == if p.x < old(left) then old(left + width) else Max(old(left + width), p.x)
      ensures top + height == if p.y < old(top) then old(top + height) else Max(old(top + height), p.y)
      ensures old(Valid()) ==>
                Valid() && left + width == Max(old(left + width), p.x) && top + height == Max(old(top + height), p.y)
    {
      if !Contains(p) {
        var leftDX := left - p.x;
        if leftDX > 0.0 {
          left := left - leftDX;
          width := width + leftDX;
        } else {
          var rightDX := p.x - (left + width);
          if rightDX > 0.0 {
            width := width + rightDX;
          }
        }
        var topDY := top - p.y;
        if topDY > 0.0 {
          top := top - topDY;
          height := height + topDY;
        } else {
          var bottomDY := p.y - (top + height);
          if bottomDY > 0.0 {
            height := height + bottomDY;
          }
        }
      }
    }
  }

  ghost predicate Covers(bounds: Rect, points: seq<Point>)
    reads bounds
  {
    forall i :: 0 <= i < |points| ==>
      && bounds.left <= points[i].x <= bounds.left + bounds.width
      && bounds.top <= points[i].y <= bounds.top + bounds.height
  }

  /** The rectangle holds every vertex and each of its edges touches one; without vertices it is empty. */
  method GetBounds(points: seq<Point>) returns (bounds: Rect)
    ensures fresh(bounds) && bounds.Valid()
    ensures forall i :: 0 <= i < |points| ==>
              && bounds.left <= points[i].x <= bounds.left + bounds.width
              && bounds.top <= points[i].y <= bounds.top + bounds.height
    ensures points == [] ==> bounds.left == 0.0 && bounds.top == 0.0 && bounds.width == 0.0 && bounds.height == 0.0
    ensures points != [] ==> exists i :: 0 <= i < |points| && points[i].x == bounds.left
    ensures points != [] ==> exists i :: 0 <= i < |points| && points[i].x == bounds.left + bounds.width
    ensures points != [] ==> exists i :: 0 <= i < |points| && points[i].y == bounds.top
    ensures points != [] ==> exists i :: 0 <= i < |points| && points[i].y == bounds.top + bounds.height
  {
    bounds := new Rect(0.0, 0.0);
    if |points| > 0 {
      bounds.left, bounds.top := points[0].x, points[0].y;
      ghost var l, r, t, b := 0, 0, 0, 0;
      for i := 1 to |points|
        invariant fresh(bounds) && bounds.Valid() && 0 <= l < i && 0 <= r < i && 0 <= t < i && 0 <= b < i
        invariant Covers(bounds, points[..i])
        invariant points[l].x == bounds.left && points[r].x == bounds.left + bounds.width
        invariant points[t].y == bounds.top && points[b].y == bounds.top + bounds.height
      {
        ghost var p := points[i];
        l := if p.x < bounds.left then i else l;
        r := if bounds.left + bounds.width < p.x then i else r;
        t := if p.y < bounds.top then i else t;
        b := if bounds.top + bounds.height < p.y then i else b;
        bounds.ExpandTo(points[i]);
        assert forall k :: 0 <= k < i ==> points[..i + 1][k] == points[..i][k];
      }
      assert points[..|points|] == points;
    }
  }

  // ----- What the words mean ----------------------------------------------

  /** Squared distances are those of Pythagoras. */
  lemma Pythagoras(p: Point, q: Point)
    ensures SquaredDistance(p, q) == (q.x - p.x) * (q.x - p.x) + (q.y - p.y) * (q.y - p.y)
  {
  }

  /** The sides go once around: each starts where the one before it ends. */
  lemma SidesGoAround(points: seq<Point>, i: nat)
    requires i < |points|
    ensures Side(points, i).a == points[i] && Side(points, i).b == points[(i + 1) % |points|]
  {
    if i < |points| - 1 {
      SmallModulus(i + 1, |points|);
    }
  }

  lemma SmallModulus(i: nat, n: nat)
    requires i < n
    ensures i % n == i
  {
  }

  /** A rectangle holds its inside, its left and its top edge, but not the others. */
  lemma InsideExactly(r: Rect, dx: real, dy: real)
    ensures r.Contains(Point(r.left + dx, r.top + dy)) <==> 0.0 <= dx < r.width && 0.0 <= dy < r.height
  {
  }
}
