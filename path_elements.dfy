/// Outline paths as lists of drawing commands (kurbo's `BezPath` and
/// `PathEl`), with the points each command carries. Coordinates are reals.
module PathElements {
  import opened Wrappers

  datatype Point = Point(x: real, y: real)

  /// A displacement, added to a point.
  datatype Vec2 = Vec2(x: real, y: real)

  function Translate(p: Point, d: Vec2): Point { Point(p.x + d.x, p.y + d.y) }

  datatype PathEl =
    | MoveTo(pt: Point)
    | LineTo(pt: Point)
    | QuadTo(c: Point, pt: Point)
    | CurveTo(c1: Point, c2: Point, pt: Point)
    | ClosePath

  /// The number of points a command carries: its control points, then its end point.
  function PointCount(el: PathEl): (n: nat)
    ensures n <= 3
    ensures n == 0 <==> el.ClosePath?
  {
    match el
    case MoveTo(_) => 1
    case LineTo(_) => 1
    case QuadTo(_, _) => 2
    case CurveTo(_, _, _) => 3
    case ClosePath => 0
  }

  /// The `k`-th point of a command, counting control points first; exists
  /// exactly for `k` below the command's point count.
  function PointOf(el: PathEl, k: nat): (r: Option<Point>)
    ensures r.Some? <==> k < PointCount(el)
  {
    match el
    case MoveTo(p) => if k == 0 then Some(p) else None
    case LineTo(p) => if k == 0 then Some(p) else None
    case QuadTo(c, p) => if k == 0 then Some(c) else if k == 1 then Some(p) else None
    case CurveTo(c1, c2, p) =>
      if k == 0 then Some(c1) else if k == 1 then Some(c2) else if k == 2 then Some(p) else None
    case ClosePath => None
  }

  /// Two commands of the same kind.
  predicate SameKind(a: PathEl, b: PathEl)
  {
    (a.MoveTo? && b.MoveTo?) || (a.LineTo? && b.LineTo?) || (a.QuadTo? && b.QuadTo?) ||
    (a.CurveTo? && b.CurveTo?) || (a.ClosePath? && b.ClosePath?)
  }

  /// A command is determined by its kind and its points.
  lemma SamePointsSameElement(a: PathEl, b: PathEl)
    requires SameKind(a, b)
    requires forall k: nat :: k < 3 ==> PointOf(a, k) == PointOf(b, k)
    ensures a == b
  {
    assert PointOf(a, 0) == PointOf(b, 0);
    assert PointOf(a, 1) == PointOf(b, 1);
    assert PointOf(a, 2) == PointOf(b, 2);
  }

  /// The number of points of a whole path.
  function TotalPoints(els: seq<PathEl>): nat
  {
    if els == [] then 0 else TotalPoints(els[..|els| - 1]) + PointCount(els[|els| - 1])
  }

  /// Point counts add up over joined paths.
  lemma {:induction false} TotalPointsOfConcat(a: seq<PathEl>, b: seq<PathEl>)
    ensures TotalPoints(a + b) == TotalPoints(a) + TotalPoints(b)
    decreases |b|
  {
    if b != [] {
      var b' := b[..|b| - 1];
      assert (a + b)[..|a + b| - 1] == a + b';
      TotalPointsOfConcat(a, b');
    } else {
      assert a + b == a;
    }
  }

  /// A kurbo `BezPath`: the functions that edit one replace its whole element
  /// list.
  class BezPath {
    var elements: seq<PathEl>

    /// `BezPath::from_vec`.
    constructor FromVec(els: seq<PathEl>)
      ensures elements == els
    {
      elements := els;
    }
  }
}
