/// Point-level editing of an outline path: listing its editable points, moving
/// one point addressed by (element, point) index, nudging a point, finding
/// the nearest point and joining contours.
module BezPathEditing {
  import opened Wrappers
  import opened Search
  import opened PathElements

  datatype PathPointType = OnCurve | OffCurve

  /// Which command a point belongs to and which of its points it is.
  datatype PathPointRef = PathPointRef(elementIndex: nat, pointIndex: nat)

  datatype EditablePoint = EditablePoint(position: Point, pointType: PathPointType, reference: PathPointRef)

  /// The point a reference addresses, if the path has it.
  function PointAt(els: seq<PathEl>, ref: PathPointRef): Option<Point>
  {
    if ref.elementIndex < |els| then PointOf(els[ref.elementIndex], ref.pointIndex) else None
  }

  /// The editable points of the `i`-th command: its control points off the
  /// curve, then its end point on it, numbered from 0 within the command.
  function ElementPoints(el: PathEl, i: nat): (r: seq<EditablePoint>)
    ensures |r| == PointCount(el)
    ensures forall k :: 0 <= k < |r| ==>
      r[k].reference == PathPointRef(i, k) && PointOf(el, k) == Some(r[k].position) &&
      r[k].pointType == (if k == |r| - 1 then OnCurve else OffCurve)
  {
    match el
    case MoveTo(pt) => [EditablePoint(pt, OnCurve, PathPointRef(i, 0))]
    case LineTo(pt) => [EditablePoint(pt, OnCurve, PathPointRef(i, 0))]
    case CurveTo(c1, c2, pt) =>
      [EditablePoint(c1, OffCurve, PathPointRef(i, 0)),
       EditablePoint(c2, OffCurve, PathPointRef(i, 1)),
       EditablePoint(pt, OnCurve, PathPointRef(i, 2))]
    case QuadTo(c, pt) =>
      [EditablePoint(c, OffCurve, PathPointRef(i, 0)),
       EditablePoint(pt, OnCurve, PathPointRef(i, 1))]
    case ClosePath => []
  }

  /// The editable points of a path, command by command.
  function PointsOf(els: seq<PathEl>): seq<EditablePoint>
  {
    if els == [] then [] else PointsOf(els[..|els| - 1]) + ElementPoints(els[|els| - 1], |els| - 1)
  }

  /// The listing has one entry per point of the path, each entry's reference
  /// addresses the entry's own position, and every point of the path is listed.
  lemma {:induction false} PointsOfFacts(els: seq<PathEl>)
    ensures |PointsOf(els)| == TotalPoints(els)
    ensures forall k :: 0 <= k < |PointsOf(els)| ==>
      PointAt(els, PointsOf(els)[k].reference) == Some(PointsOf(els)[k].position)
    ensures forall ref :: PointAt(els, ref).Some? ==>
      exists k :: 0 <= k < |PointsOf(els)| && PointsOf(els)[k].reference == ref
  {
    if els != [] {
      var n := |els|;
      var init := els[..n - 1];
      PointsOfFacts(init);
      var head: seq<EditablePoint> := PointsOf(init);
      var tail: seq<EditablePoint> := ElementPoints(els[n - 1], n - 1);
      assert PointsOf(els) == head + tail;
      forall k | 0 <= k < |head + tail|
        ensures PointAt(els, (head + tail)[k].reference) == Some((head + tail)[k].position)
      {
        if k < |head| {
          assert (head + tail)[k] == head[k];
          assert PointAt(init, head[k].reference) == Some(head[k].position);
          assert els[head[k].reference.elementIndex] == init[head[k].reference.elementIndex];
        } else {
          assert (head + tail)[k] == tail[k - |head|];
        }
      }
      forall ref | PointAt(els, ref).Some?
        ensures exists k :: 0 <= k < |head + tail| && (head + tail)[k].reference == ref
      {
        if ref.elementIndex < n - 1 {
          assert PointAt(init, ref) == PointAt(els, ref);
          var k :| 0 <= k < |head| && head[k].reference == ref;
          assert (head + tail)[k] == head[k];
        } else {
          assert (head + tail)[|head| + ref.pointIndex] == tail[ref.pointIndex];
        }
      }
    }
  }

  /// `extract_editable_points`.
  method ExtractEditablePoints(path: BezPath) returns (points: seq<EditablePoint>)
    ensures points == PointsOf(path.elements)
  {
    var els := path.elements;
    points := [];
    for i := 0 to |els|
      invariant points == PointsOf(els[..i])
    {
      assert els[..i + 1][..i] == els[..i];
      var el := els[i];
      match el {
        case MoveTo(pt) =>
          points := points + [EditablePoint(pt, OnCurve, PathPointRef(i, 0))];
        case LineTo(pt) =>
          points := points + [EditablePoint(pt, OnCurve, PathPointRef(i, 0))];
        case CurveTo(c1, c2, pt) =>
          points := points + [EditablePoint(c1, OffCurve, PathPointRef(i, 0))];
          points := points + [EditablePoint(c2, OffCurve, PathPointRef(i, 1))];
          points := points + [EditablePoint(pt, OnCurve, PathPointRef(i, 2))];
        case QuadTo(c, pt) =>
          points := points + [EditablePoint(c, OffCurve, PathPointRef(i, 0))];
          points := points + [EditablePoint(pt, OnCurve, PathPointRef(i, 1))];
        case ClosePath =>
      }
    }
    assert els[..|els|] == els;
  }

  /// The command with its `k`-th point moved to `p`, or None when the command
  /// has no `k`-th point.
  function ReplacePoint(el: PathEl, k: nat, p: Point): (r: Option<PathEl>)
    ensures r.Some? <==> k < PointCount(el)
    ensures r.Some? ==> SameKind(r.value, el) && PointOf(r.value, k) == Some(p)
    ensures r.Some? ==> forall j: nat :: j != k ==> PointOf(r.value, j) == PointOf(el, j)
  {
    match (el, k)
    case (MoveTo(_), 0) => Some(MoveTo(p))
    case (LineTo(_), 0) => Some(LineTo(p))
    case (CurveTo(_, c2, pt), 0) => Some(CurveTo(p, c2, pt))
    case (CurveTo(c1, _, pt), 1) => Some(CurveTo(c1, p, pt))
    case (CurveTo(c1, c2, _), 2) => Some(CurveTo(c1, c2, p))
    case (QuadTo(_, pt), 0) => Some(QuadTo(p, pt))
    case (QuadTo(c, _), 1) => Some(QuadTo(c, p))
    case _ => None
  }

  /// The element list `update_path_point` builds: the addressed point moved,
  /// or the error it reports.
  function UpdatedElements(els: seq<PathEl>, ref: PathPointRef, p: Point): (r: Result<seq<PathEl>, string>)
    ensures r.Ok? <==> PointAt(els, ref).Some?
    ensures ref.elementIndex >= |els| ==> r == Err("Element index out of bounds")
    ensures ref.elementIndex < |els| && r.Err? ==> r == Err("Invalid point index for element type")
    ensures r.Ok? ==>
      |r.value| == |els| && PointAt(r.value, ref) == Some(p) &&
      (forall i :: 0 <= i < |els| ==> SameKind(r.value[i], els[i])) &&
      (forall i :: 0 <= i < |els| && i != ref.elementIndex ==> r.value[i] == els[i]) &&
      forall other :: other != ref ==> PointAt(r.value, other) == PointAt(els, other)
  {
    if ref.elementIndex >= |els| then Err("Element index out of bounds")
    else
      match ReplacePoint(els[ref.elementIndex], ref.pointIndex, p)
      case None => Err("Invalid point index for element type")
      case Some(el) => Ok(els[ref.elementIndex := el])
  }

  /// `update_path_point`: the path is rebuilt from the updated element list;
  /// on an error it is left alone.
  method UpdatePathPoint(path: BezPath, reference: PathPointRef, newPosition: Point) returns (r: Result<(), string>)
    modifies path
    ensures var u := UpdatedElements(old(path.elements), reference, newPosition);
      (u.Ok? ==> r == Ok(()) && path.elements == u.value) &&
      (u.Err? ==> r == Err(u.error) && path.elements == old(path.elements))
  {
    var elements := path.elements;
    if reference.elementIndex >= |elements| {
      return Err("Element index out of bounds");
    }
    var newElement := ReplacePoint(elements[reference.elementIndex], reference.pointIndex, newPosition);
    if newElement.None? {
      return Err("Invalid point index for element type");
    }
    elements := elements[reference.elementIndex := newElement.value];
    path.elements := elements;
    r := Ok(());
  }

  /// Moving a point and listing the points again gives the same listing with
  /// only the moved point's position changed.
  lemma {:induction false} ExtractAfterUpdate(els: seq<PathEl>, ref: PathPointRef, p: Point)
    requires UpdatedElements(els, ref, p).Ok?
    ensures var before, after := PointsOf(els), PointsOf(UpdatedElements(els, ref, p).value);
      |after| == |before| &&
      forall k :: 0 <= k < |before| ==>
        after[k] == (if before[k].reference == ref then before[k].(position := p) else before[k])
  {
    var u := UpdatedElements(els, ref, p).value;
    var n := |els|;
    var init, uinit := els[..n - 1], u[..n - 1];
    var before, after := PointsOf(els), PointsOf(u);
    var bt, at := ElementPoints(els[n - 1], n - 1), ElementPoints(u[n - 1], n - 1);
    assert before == PointsOf(init) + bt && after == PointsOf(uinit) + at;
    assert |bt| == |at|;
    if ref.elementIndex < n - 1 {
      assert PointAt(init, ref) == PointAt(els, ref);
      assert UpdatedElements(init, ref, p).value == uinit;
      ExtractAfterUpdate(init, ref, p);
      assert at == bt;
      forall k | 0 <= k < |before|
        ensures after[k] == (if before[k].reference == ref then before[k].(position := p) else before[k])
      {
        if k < |PointsOf(init)| {
          assert before[k] == PointsOf(init)[k] && after[k] == PointsOf(uinit)[k];
        } else {
          assert before[k] == bt[k - |PointsOf(init)|] && after[k] == at[k - |PointsOf(init)|];
        }
      }
    } else {
      assert uinit == init;
      PointsOfFacts(init);
      forall k | 0 <= k < |before|
        ensures after[k] == (if before[k].reference == ref then before[k].(position := p) else before[k])
      {
        if k < |PointsOf(init)| {
          assert before[k] == PointsOf(init)[k] && after[k] == PointsOf(init)[k];
          assert PointAt(init, before[k].reference).Some?;
        } else {
          var j := k - |PointsOf(init)|;
          assert before[k] == bt[j] && after[k] == at[j];
          assert PointOf(u[n - 1], j) == PointAt(u, PathPointRef(n - 1, j));
          assert PointOf(els[n - 1], j) == PointAt(els, PathPointRef(n - 1, j));
        }
      }
    }
  }

  /// The module's test: moving the line's end point of a move-line path
  /// shows up as the second listed point.
  lemma UpdateScenario()
    ensures var els := [MoveTo(Point(0.0, 0.0)), LineTo(Point(100.0, 0.0))];
      var u := UpdatedElements(els, PathPointRef(1, 0), Point(200.0, 50.0));
      u.Ok? && |PointsOf(u.value)| == 2 && PointsOf(u.value)[1].position == Point(200.0, 50.0)
  {
    var els := [MoveTo(Point(0.0, 0.0)), LineTo(Point(100.0, 0.0))];
    var u := UpdatedElements(els, PathPointRef(1, 0), Point(200.0, 50.0)).value;
    assert u == [MoveTo(Point(0.0, 0.0)), LineTo(Point(200.0, 50.0))];
    assert u[..1] == [MoveTo(Point(0.0, 0.0))] && u[..1][..0] == [];
    assert PointsOf(u[..1]) == ElementPoints(u[0], 0);
    assert PointsOf(u) == PointsOf(u[..1]) + ElementPoints(u[1], 1);
  }

  /// The module's test: a move, a line and a curve give five points.
  lemma ExtractScenario()
    ensures |PointsOf([MoveTo(Point(0.0, 0.0)), LineTo(Point(100.0, 0.0)),
                       CurveTo(Point(100.0, 50.0), Point(50.0, 100.0), Point(0.0, 100.0))])| == 5
  {
    var els := [MoveTo(Point(0.0, 0.0)), LineTo(Point(100.0, 0.0)),
                CurveTo(Point(100.0, 50.0), Point(50.0, 100.0), Point(0.0, 100.0))];
    assert els[..2][..1] == els[..1] && els[..1][..0] == [];
    assert |PointsOf(els[..1])| == 1;
    assert |PointsOf(els[..2])| == 2;
    assert PointsOf(els) == PointsOf(els[..2]) + ElementPoints(els[2], 2);
  }

  /// What `nudge_path_point` does to the elements: find the point by its
  /// reference in the listing and move it by `delta`.
  function Nudged(els: seq<PathEl>, ref: PathPointRef, delta: Vec2): (r: Result<seq<PathEl>, string>)
    ensures r.Ok? <==> PointAt(els, ref).Some?
    ensures r.Err? ==> r.error == "Point not found"
    ensures r.Ok? ==> PointAt(r.value, ref) == Some(Translate(PointAt(els, ref).value, delta))
    ensures r.Ok? ==> forall other :: other != ref ==> PointAt(r.value, other) == PointAt(els, other)
  {
    var points := PointsOf(els);
    PointsOfFacts(els);
    match FirstWhere(points, (q: EditablePoint) => q.reference == ref, 0)
    case None =>
      assert PointAt(els, ref).None?;
      Err("Point not found")
    case Some(k) => UpdatedElements(els, ref, Translate(points[k].position, delta))
  }

  /// `nudge_path_point`.
  method NudgePathPoint(path: BezPath, reference: PathPointRef, delta: Vec2) returns (r: Result<(), string>)
    modifies path
    ensures var u := Nudged(old(path.elements), reference, delta);
      (u.Ok? ==> r == Ok(()) && path.elements == u.value) &&
      (u.Err? ==> r == Err(u.error) && path.elements == old(path.elements))
  {
    var points := ExtractEditablePoints(path);
    var found := FirstWhere(points, (q: EditablePoint) => q.reference == reference, 0);
    if found.None? {
      return Err("Point not found");
    }
    var newPosition := Translate(points[found.value].position, delta);
    r := UpdatePathPoint(path, reference, newPosition);
  }

  /// `find_nearest_point`: the first point strictly nearer than every point
  /// before it and than `maxDistance`, under the distance function
  /// `distance` (the source's Euclidean `hypot`).
  method FindNearestPoint(path: BezPath, position: Point, maxDistance: real, distance: (Point, Point) -> real)
    returns (nearest: Option<PathPointRef>)
    ensures var pts := PointsOf(path.elements);
      (nearest.None? <==> forall k :: 0 <= k < |pts| ==> distance(pts[k].position, position) >= maxDistance) &&
      (nearest.Some? ==> exists k :: (0 <= k < |pts| && pts[k].reference == nearest.value &&
         distance(pts[k].position, position) < maxDistance &&
         (forall j :: 0 <= j < |pts| ==> distance(pts[k].position, position) <= distance(pts[j].position, position)) &&
         (forall j :: 0 <= j < k ==> distance(pts[k].position, position) < distance(pts[j].position, position))))
  {
    var points := ExtractEditablePoints(path);
    nearest := None;
    var minDist := maxDistance;
    ghost var best := 0;
    for i := 0 to |points|
      invariant nearest.None? ==> minDist == maxDistance && forall j :: 0 <= j < i ==> distance(points[j].position, position) >= maxDistance
      invariant nearest.Some? ==> best < i && points[best].reference == nearest.value
      invariant nearest.Some? ==> minDist == distance(points[best].position, position) && minDist < maxDistance
      invariant nearest.Some? ==> forall j :: 0 <= j < i ==> minDist <= distance(points[j].position, position)
      invariant nearest.Some? ==> forall j :: 0 <= j < best ==> minDist < distance(points[j].position, position)
    {
      var dist := distance(points[i].position, position);
      if dist < minDist {
        minDist := dist;
        nearest := Some(points[i].reference);
        best := i;
      }
    }
  }

  /// All element lists joined, in order.
  function Flatten(paths: seq<seq<PathEl>>): seq<PathEl>
  {
    if paths == [] then [] else Flatten(paths[..|paths| - 1]) + paths[|paths| - 1]
  }

  /// `paths_to_multi_contour`: one path holding every path's elements in order.
  method PathsToMultiContour(paths: seq<seq<PathEl>>) returns (result: seq<PathEl>)
    ensures result == Flatten(paths)
  {
    result := [];
    for i := 0 to |paths|
      invariant result == Flatten(paths[..i])
    {
      assert paths[..i + 1][..i] == paths[..i];
      ghost var before := result;
      var path := paths[i];
      for j := 0 to |path|
        invariant result == before + path[..j]
      {
        assert path[..j + 1] == path[..j] + [path[j]];
        result := result + [path[j]];
      }
      assert path[..|path|] == path;
    }
    assert paths[..|paths|] == paths;
  }

  /// The joined path has every element of every path and its point count is
  /// the sum of theirs; joining distributes over splitting the list of paths.
  lemma {:induction false} FlattenFacts(a: seq<seq<PathEl>>, b: seq<seq<PathEl>>)
    ensures Flatten(a + b) == Flatten(a) + Flatten(b)
    ensures TotalPoints(Flatten(a + b)) == TotalPoints(Flatten(a)) + TotalPoints(Flatten(b))
    decreases |b|
  {
    if b == [] {
      assert a + b == a;
    } else {
      var b' := b[..|b| - 1];
      assert (a + b)[..|a + b| - 1] == a + b';
      FlattenFacts(a, b');
    }
    TotalPointsOfConcat(Flatten(a), Flatten(b));
  }
}
