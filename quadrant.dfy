/// The nine-point grid used for selection handles: which handle a point of a
/// rectangle falls on, the opposite handle that stays anchored in a resize, and
/// the axes a handle may move along. Coordinates are reals.
module Quadrant {
  datatype Vec2 = Vec2(x: real, y: real)

  /// An axis-aligned rectangle given by its two corners.
  datatype Rect = Rect(min: Vec2, max: Vec2)

  function Add(a: Vec2, b: Vec2): Vec2 { Vec2(a.x + b.x, a.y + b.y) }
  function Sub(a: Vec2, b: Vec2): Vec2 { Vec2(a.x - b.x, a.y - b.y) }
  function Abs(r: real): real { if r < 0.0 then -r else r }

  datatype Quadrant = Center | TopLeft | Top | TopRight | Right | BottomRight | Bottom | BottomLeft | Left

  /// The column (0 left, 1 middle, 2 right) of a quadrant in the grid.
  function Column(q: Quadrant): nat
  {
    match q
    case TopLeft | Left | BottomLeft => 0
    case Top | Center | Bottom => 1
    case TopRight | Right | BottomRight => 2
  }

  /// The row (0 top, 1 middle, 2 bottom) of a quadrant in the grid.
  function Row(q: Quadrant): nat
  {
    match q
    case TopLeft | Top | TopRight => 0
    case Left | Center | Right => 1
    case BottomLeft | Bottom | BottomRight => 2
  }

  /// The quadrant at a grid position.
  function FromGrid(column: nat, row: nat): (q: Quadrant)
    requires column < 3 && row < 3
    ensures Column(q) == column && Row(q) == row
  {
    match (column, row)
    case (0, 0) => TopLeft
    case (1, 0) => Top
    case (2, 0) => TopRight
    case (0, 1) => Left
    case (1, 1) => Center
    case (2, 1) => Right
    case (0, 2) => BottomLeft
    case (1, 2) => Bottom
    case (2, 2) => BottomRight
  }

  /// A quadrant is determined by its column and row.
  lemma GridPositionIsUnique(a: Quadrant, b: Quadrant)
    requires Column(a) == Column(b) && Row(a) == Row(b)
    ensures a == b
  {
  }

  /// `invert_y`: swaps the top and bottom rows.
  function InvertY(q: Quadrant): (r: Quadrant)
    ensures Column(r) == Column(q) && Row(r) == 2 - Row(q)
  {
    match q
    case TopRight => BottomRight
    case TopLeft => BottomLeft
    case Top => Bottom
    case BottomRight => TopRight
    case BottomLeft => TopLeft
    case Bottom => Top
    case other => other
  }

  /// `invert_x`: swaps the left and right columns.
  function InvertX(q: Quadrant): (r: Quadrant)
    ensures Row(r) == Row(q) && Column(r) == 2 - Column(q)
  {
    match q
    case TopRight => TopLeft
    case TopLeft => TopRight
    case Left => Right
    case Right => Left
    case BottomRight => BottomLeft
    case BottomLeft => BottomRight
    case other => other
  }

  /// `inverse`: the diagonally opposite quadrant.
  function Inverse(q: Quadrant): (r: Quadrant)
    ensures Column(r) == 2 - Column(q) && Row(r) == 2 - Row(q)
  {
    InvertX(InvertY(q))
  }

  /// Each flip undoes itself, so does the inverse, the flips commute, and only
  /// the center is its own inverse.
  lemma Involutions(q: Quadrant)
    ensures InvertX(InvertX(q)) == q && InvertY(InvertY(q)) == q
    ensures Inverse(Inverse(q)) == q
    ensures InvertX(InvertY(q)) == InvertY(InvertX(q))
    ensures Inverse(q) == q <==> q == Center
  {
    GridPositionIsUnique(InvertX(InvertX(q)), q);
    GridPositionIsUnique(InvertY(InvertY(q)), q);
    GridPositionIsUnique(Inverse(Inverse(q)), q);
    GridPositionIsUnique(InvertX(InvertY(q)), InvertY(InvertX(q)));
    if Inverse(q) == q {
      GridPositionIsUnique(q, Center);
    }
  }

  /// `modifies_x_axis`: every handle outside the middle column resizes in x.
  function ModifiesXAxis(q: Quadrant): (r: bool)
    ensures r <==> Column(q) != 1
    ensures !r <==> q == Top || q == Bottom || q == Center
  {
    !(q == Top || q == Bottom || q == Center)
  }

  /// `modifies_y_axis`: every handle outside the middle row resizes in y.
  function ModifiesYAxis(q: Quadrant): (r: bool)
    ensures r <==> Row(q) != 1
    ensures !r <==> q == Left || q == Right || q == Center
  {
    !(q == Left || q == Right || q == Center)
  }

  /// `lock_delta`: edge handles move along one axis; corners and the center
  /// move freely.
  function LockDelta(q: Quadrant, delta: Vec2): (r: Vec2)
    ensures r.x == (if q == Top || q == Bottom then 0.0 else delta.x)
    ensures r.y == (if q == Left || q == Right then 0.0 else delta.y)
  {
    match q
    case Top | Bottom => Vec2(0.0, delta.y)
    case Left | Right => Vec2(delta.x, 0.0)
    case _ => delta
  }

  /// Locking twice is locking once; apart from the center, a handle keeps the
  /// movement along exactly the axes it modifies.
  lemma LockDeltaFacts(q: Quadrant, delta: Vec2)
    ensures LockDelta(q, LockDelta(q, delta)) == LockDelta(q, delta)
    ensures q != Center ==>
      LockDelta(q, delta).x == (if ModifiesXAxis(q) then delta.x else 0.0) &&
      LockDelta(q, delta).y == (if ModifiesYAxis(q) then delta.y else 0.0)
  {
  }

  /// Which third of `[0, 3 * zone)` a coordinate falls in; `for_point_in_bounds`
  /// applies it per axis. Beyond the ends the first and last zone extend.
  function ZoneIndex(v: real, zone: real): (r: nat)
    ensures r < 3
    ensures r == 0 <==> v < zone
    ensures r == 1 <==> zone <= v < zone * 2.0
    ensures r == 2 <==> zone <= v && zone * 2.0 <= v
  {
    if v < zone then 0
    else if v < zone * 2.0 then 1
    else 2
  }

  /// `for_point_in_bounds`: the quadrant whose zone of a 3x3 division of the
  /// rectangle `[0, size]` holds the point.
  function ForPointInBounds(pt: Vec2, size: Vec2): (q: Quadrant)
    ensures Column(q) == ZoneIndex(pt.x, size.x / 3.0)
    ensures Row(q) == ZoneIndex(pt.y, size.y / 3.0)
  {
    FromGrid(ZoneIndex(pt.x, size.x / 3.0), ZoneIndex(pt.y, size.y / 3.0))
  }

  /// Every quadrant is hit by some point of a non-degenerate rectangle: the
  /// middle of its zone.
  lemma EveryQuadrantIsReachable(q: Quadrant, size: Vec2)
    requires size.x > 0.0 && size.y > 0.0
    ensures ForPointInBounds(ZoneMiddle(q, size), size) == q
  {
    var p := ZoneMiddle(q, size);
    GridPositionIsUnique(ForPointInBounds(p, size), q);
  }

  /// The middle of the zone of `q` in a rectangle of the given size.
  function ZoneMiddle(q: Quadrant, size: Vec2): Vec2
  {
    Vec2((Column(q) as real + 0.5) * (size.x / 3.0), (Row(q) as real + 0.5) * (size.y / 3.0))
  }

  /// `point_in_rect`: the handle's position, row 0 at `min.y`.
  function PointInRect(q: Quadrant, bounds: Rect): (p: Vec2)
    ensures p.x == bounds.min.x + Column(q) as real * ((bounds.max.x - bounds.min.x) / 2.0)
    ensures p.y == bounds.min.y + Row(q) as real * ((bounds.max.y - bounds.min.y) / 2.0)
  {
    var size := Vec2(bounds.max.x - bounds.min.x, bounds.max.y - bounds.min.y);
    var rel := match q
      case TopLeft => Vec2(0.0, 0.0)
      case Top => Vec2(size.x / 2.0, 0.0)
      case TopRight => Vec2(size.x, 0.0)
      case Left => Vec2(0.0, size.y / 2.0)
      case Center => Vec2(size.x / 2.0, size.y / 2.0)
      case Right => Vec2(size.x, size.y / 2.0)
      case BottomLeft => Vec2(0.0, size.y)
      case Bottom => Vec2(size.x / 2.0, size.y)
      case BottomRight => Vec2(size.x, size.y);
    Add(bounds.min, rel)
  }

  /// `point_in_design_space_rect`: y grows upwards, so the rows are flipped:
  /// the top row sits at `max.y`, the bottom row at `min.y`, and the columns
  /// are where `point_in_rect` puts them.
  function PointInDesignSpaceRect(q: Quadrant, rect: Rect): (p: Vec2)
    ensures p.x == PointInRect(q, rect).x
    ensures p.y == rect.min.y + (2 - Row(q)) as real * ((rect.max.y - rect.min.y) / 2.0)
    ensures Row(q) == 0 ==> p.y == rect.max.y
    ensures Row(q) == 2 ==> p.y == rect.min.y
  {
    PointInRect(InvertY(q), rect)
  }

  /// A handle and its anchor sit symmetrically about the rectangle's center.
  lemma HandleAndAnchorAreSymmetric(q: Quadrant, rect: Rect)
    ensures Add(PointInDesignSpaceRect(q, rect), PointInDesignSpaceRect(Inverse(q), rect)) ==
      Add(rect.min, rect.max)
  {
    var p, a := PointInDesignSpaceRect(q, rect), PointInDesignSpaceRect(Inverse(q), rect);
    assert Column(InvertY(Inverse(q))) == 2 - Column(InvertY(q));
    assert Row(InvertY(Inverse(q))) == 2 - Row(InvertY(q));
  }

  /// The positions the module's own test expects in the rectangle from
  /// (10, 10) to (100, 100).
  lemma DesignSpacePositionsScenario()
    ensures var rect := Rect(Vec2(10.0, 10.0), Vec2(100.0, 100.0));
      PointInDesignSpaceRect(BottomLeft, rect) == Vec2(10.0, 10.0) &&
      PointInDesignSpaceRect(Center, rect) == Vec2(55.0, 55.0) &&
      PointInDesignSpaceRect(TopRight, rect) == Vec2(100.0, 100.0) &&
      PointInDesignSpaceRect(Top, rect) == Vec2(55.0, 100.0)
  {
    var rect := Rect(Vec2(10.0, 10.0), Vec2(100.0, 100.0));
    assert InvertY(BottomLeft) == TopLeft && InvertY(Center) == Center;
    assert InvertY(TopRight) == BottomRight && InvertY(Top) == Bottom;
    assert PointInRect(TopLeft, rect) == Vec2(10.0, 10.0);
    assert PointInRect(Center, rect) == Vec2(55.0, 55.0);
    assert PointInRect(BottomRight, rect) == Vec2(100.0, 100.0);
    assert PointInRect(Bottom, rect) == Vec2(55.0, 100.0);
  }

  /// `compute_scale`: the ratio of the new extent to the original one, per
  /// axis; 1 on an axis whose original extent is zero.
  function ComputeScale(origin: Vec2, current: Vec2): (r: Vec2)
    ensures origin.x != 0.0 ==> r.x * origin.x == current.x
    ensures origin.x == 0.0 ==> r.x == 1.0
    ensures origin.y != 0.0 ==> r.y * origin.y == current.y
    ensures origin.y == 0.0 ==> r.y == 1.0
  {
    Vec2(if origin.x != 0.0 then current.x / origin.x else 1.0,
         if origin.y != 0.0 then current.y / origin.y else 1.0)
  }

  /// `scale_design_space_rect`: the scale that moving handle `q` by `drag`
  /// applies, keeping the opposite handle fixed. The source asserts that the
  /// drag is already locked to the handle's axes.
  function ScaleDesignSpaceRect(q: Quadrant, rect: Rect, drag: Vec2): (r: Vec2)
    requires drag == LockDelta(q, drag)
    ensures var start := PointInDesignSpaceRect(q, rect);
      var anchor := PointInDesignSpaceRect(Inverse(q), rect);
      var before := Sub(anchor, start);
      var after := Sub(anchor, Add(start, drag));
      r == ComputeScale(Vec2(Abs(before.x), Abs(before.y)), Vec2(Abs(after.x), Abs(after.y)))
  {
    var start := PointInDesignSpaceRect(q, rect);
    var anchor := PointInDesignSpaceRect(Inverse(q), rect);
    var originalDelta := Sub(anchor, start);
    var newDelta := Sub(anchor, Add(start, drag));
    ComputeScale(Vec2(Abs(originalDelta.x), Abs(originalDelta.y)), Vec2(Abs(newDelta.x), Abs(newDelta.y)))
  }

  /// Not moving a handle leaves the rectangle's scale at one.
  lemma NoDragNoScale(q: Quadrant, rect: Rect)
    ensures ScaleDesignSpaceRect(q, rect, Vec2(0.0, 0.0)) == Vec2(1.0, 1.0)
  {
    var start := PointInDesignSpaceRect(q, rect);
    assert Add(start, Vec2(0.0, 0.0)) == start;
    var d := Sub(PointInDesignSpaceRect(Inverse(q), rect), start);
    SameExtentScalesByOne(Vec2(Abs(d.x), Abs(d.y)));
  }

  lemma SameExtentScalesByOne(v: Vec2)
    ensures ComputeScale(v, v) == Vec2(1.0, 1.0)
  {
    if v.x != 0.0 {
      assert v.x / v.x == 1.0;
    }
    if v.y != 0.0 {
      assert v.y / v.y == 1.0;
    }
  }

  /// Dragging an edge handle never rescales the axis it cannot move along.
  lemma EdgeHandleKeepsOtherAxis(q: Quadrant, rect: Rect, drag: Vec2)
    requires drag == LockDelta(q, drag)
    ensures !ModifiesXAxis(q) && q != Center ==> ScaleDesignSpaceRect(q, rect, drag).x == 1.0
    ensures !ModifiesYAxis(q) && q != Center ==> ScaleDesignSpaceRect(q, rect, drag).y == 1.0
  {
  }
}
