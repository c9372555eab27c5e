/// Saving an outline path as a UFO contour: each command's points become
/// contour points typed as UFO types them. A closed contour has no start
/// point of its own in UFO, so its MoveTo is dropped.
module UfoContour {
  import opened Wrappers
  import opened PathElements
  import BezPathEditing

  datatype UfoPointType = Move | Line | OffCurve | Curve | QCurve

  /// A point of a UFO contour. The converter never marks points smooth and
  /// gives them no name or identifier, so those fields are not modelled.
  datatype ContourPoint = ContourPoint(x: real, y: real, typ: UfoPointType)

  function PositionOf(cp: ContourPoint): Point { Point(cp.x, cp.y) }

  /// The path has a ClosePath command somewhere.
  predicate HasClosePath(els: seq<PathEl>)
  {
    exists i :: 0 <= i < |els| && els[i].ClosePath?
  }

  /// The contour points one command contributes.
  function ElementUfoPoints(el: PathEl, closed: bool): (r: seq<ContourPoint>)
    ensures |r| == (if el.MoveTo? && closed then 0 else PointCount(el))
    ensures forall k :: 0 <= k < |r| ==> PointOf(el, k) == Some(PositionOf(r[k]))
    ensures el.MoveTo? && !closed ==> r[0].typ == Move
    ensures el.LineTo? ==> r[0].typ == Line
    ensures el.CurveTo? ==> r[0].typ == OffCurve && r[1].typ == OffCurve && r[2].typ == Curve
    ensures el.QuadTo? ==> r[0].typ == OffCurve && r[1].typ == QCurve
  {
    match el
    case MoveTo(pt) => if closed then [] else [ContourPoint(pt.x, pt.y, Move)]
    case LineTo(pt) => [ContourPoint(pt.x, pt.y, Line)]
    case CurveTo(c1, c2, pt) =>
      [ContourPoint(c1.x, c1.y, OffCurve), ContourPoint(c2.x, c2.y, OffCurve), ContourPoint(pt.x, pt.y, Curve)]
    case QuadTo(c, pt) => [ContourPoint(c.x, c.y, OffCurve), ContourPoint(pt.x, pt.y, QCurve)]
    case ClosePath => []
  }

  /// The contour points of a whole path, command by command.
  function UfoPoints(els: seq<PathEl>, closed: bool): seq<ContourPoint>
  {
    if els == [] then [] else UfoPoints(els[..|els| - 1], closed) + ElementUfoPoints(els[|els| - 1], closed)
  }

  /// `convert_bezpath_to_ufo_contour`: first finds whether the path is closed,
  /// then converts every command.
  method ConvertBezpathToUfoContour(bezPath: BezPath) returns (contour: seq<ContourPoint>)
    ensures contour == UfoPoints(bezPath.elements, HasClosePath(bezPath.elements))
  {
    var elements := bezPath.elements;
    var isClosed := false;
    var i := 0;
    while i < |elements|
      invariant i <= |elements|
      invariant !isClosed && forall j :: 0 <= j < i ==> !elements[j].ClosePath?
    {
      if elements[i].ClosePath? {
        isClosed := true;
        break;
      }
      i := i + 1;
    }
    assert isClosed == HasClosePath(elements);
    contour := [];
    for e := 0 to |elements|
      invariant contour == UfoPoints(elements[..e], isClosed)
    {
      assert elements[..e + 1][..e] == elements[..e];
      match elements[e] {
        case MoveTo(pt) =>
          if !isClosed {
            contour := contour + [ContourPoint(pt.x, pt.y, Move)];
          }
        case LineTo(pt) =>
          contour := contour + [ContourPoint(pt.x, pt.y, Line)];
        case CurveTo(cp1, cp2, pt) =>
          contour := contour + [ContourPoint(cp1.x, cp1.y, OffCurve)];
          contour := contour + [ContourPoint(cp2.x, cp2.y, OffCurve)];
          contour := contour + [ContourPoint(pt.x, pt.y, Curve)];
        case QuadTo(cp, pt) =>
          contour := contour + [ContourPoint(cp.x, cp.y, OffCurve)];
          contour := contour + [ContourPoint(pt.x, pt.y, QCurve)];
        case ClosePath =>
      }
    }
    assert elements[..|elements|] == elements;
  }

  /// A closed contour has no Move point.
  lemma {:induction false} ClosedContourHasNoMove(els: seq<PathEl>)
    ensures forall k :: 0 <= k < |UfoPoints(els, true)| ==> UfoPoints(els, true)[k].typ != Move
  {
    if els != [] {
      var init := els[..|els| - 1];
      ClosedContourHasNoMove(init);
      var a: seq<ContourPoint> := UfoPoints(init, true);
      var b: seq<ContourPoint> := ElementUfoPoints(els[|els| - 1], true);
      assert UfoPoints(els, true) == a + b;
      forall k | 0 <= k < |a + b| ensures (a + b)[k].typ != Move {
        if k >= |a| {
          assert (a + b)[k] == b[k - |a|];
        } else {
          assert (a + b)[k] == a[k];
        }
      }
    }
  }

  /// The commands other than MoveTo.
  function WithoutMoves(els: seq<PathEl>): (r: seq<PathEl>)
    ensures |r| <= |els|
    ensures forall i :: 0 <= i < |r| ==> !r[i].MoveTo?
  {
    if els == [] then []
    else
      var init := WithoutMoves(els[..|els| - 1]);
      if els[|els| - 1].MoveTo? then init else init + [els[|els| - 1]]
  }

  /// Converting a closed path is converting it with its MoveTo commands
  /// removed; nothing else about the conversion depends on closing.
  lemma {:induction false} ClosedContourDropsMoves(els: seq<PathEl>)
    ensures UfoPoints(els, true) == UfoPoints(WithoutMoves(els), false)
  {
    if els != [] {
      var init, last := els[..|els| - 1], els[|els| - 1];
      ClosedContourDropsMoves(init);
      var w := WithoutMoves(init);
      if !last.MoveTo? {
        assert (w + [last])[..|w + [last]| - 1] == w;
      }
    }
  }

  /// An open path converts to its editable points in order: same positions,
  /// and the off-curve points are exactly the control points.
  lemma {:induction false} OpenContourIsEditablePoints(els: seq<PathEl>)
    ensures var cs, ps := UfoPoints(els, false), BezPathEditing.PointsOf(els);
      |cs| == |ps| &&
      forall k :: 0 <= k < |cs| ==>
        PositionOf(cs[k]) == ps[k].position && (cs[k].typ == OffCurve <==> ps[k].pointType == BezPathEditing.OffCurve)
  {
    if els != [] {
      var n := |els|;
      var init := els[..n - 1];
      OpenContourIsEditablePoints(init);
      var ca: seq<ContourPoint> := UfoPoints(init, false);
      var cb: seq<ContourPoint> := ElementUfoPoints(els[n - 1], false);
      var pa: seq<BezPathEditing.EditablePoint> := BezPathEditing.PointsOf(init);
      var pb: seq<BezPathEditing.EditablePoint> := BezPathEditing.ElementPoints(els[n - 1], n - 1);
      assert UfoPoints(els, false) == ca + cb;
      assert BezPathEditing.PointsOf(els) == pa + pb;
      forall k | 0 <= k < |ca + cb|
        ensures PositionOf((ca + cb)[k]) == (pa + pb)[k].position &&
          ((ca + cb)[k].typ == OffCurve <==> (pa + pb)[k].pointType == BezPathEditing.OffCurve)
      {
        if k < |ca| {
          assert (ca + cb)[k] == ca[k] && (pa + pb)[k] == pa[k];
        } else {
          assert (ca + cb)[k] == cb[k - |ca|] && (pa + pb)[k] == pb[k - |ca|];
        }
      }
    }
  }

  /// An open path that starts with MoveTo starts its contour with a Move point there.
  lemma OpenContourStartsWithMove(els: seq<PathEl>)
    requires |els| > 0 && els[0].MoveTo?
    ensures var cs := UfoPoints(els, false);
      |cs| > 0 && cs[0] == ContourPoint(els[0].pt.x, els[0].pt.y, Move)
  {
    PrefixOfUfoPoints(els, 1, false);
    assert els[..1][..0] == [];
    assert UfoPoints(els[..1], false) == ElementUfoPoints(els[0], false);
  }

  /// The contour of a prefix of the path is a prefix of the contour.
  lemma {:induction false} PrefixOfUfoPoints(els: seq<PathEl>, i: nat, closed: bool)
    requires i <= |els|
    ensures UfoPoints(els[..i], closed) <= UfoPoints(els, closed)
    decreases |els|
  {
    if i < |els| {
      var init := els[..|els| - 1];
      assert init[..i] == els[..i];
      PrefixOfUfoPoints(init, i, closed);
    } else {
      assert els[..i] == els;
    }
  }

  /// A closed square gives its three line points, not its start.
  lemma ClosedSquareConversion()
    ensures UfoPoints([MoveTo(Point(0.0, 0.0)), LineTo(Point(100.0, 0.0)), LineTo(Point(100.0, 100.0)),
                       LineTo(Point(0.0, 100.0)), ClosePath], true) ==
      [ContourPoint(100.0, 0.0, Line), ContourPoint(100.0, 100.0, Line), ContourPoint(0.0, 100.0, Line)]
  {
    var sq := [MoveTo(Point(0.0, 0.0)), LineTo(Point(100.0, 0.0)), LineTo(Point(100.0, 100.0)),
               LineTo(Point(0.0, 100.0)), ClosePath];
    assert sq[..4][..3] == sq[..3] && sq[..3][..2] == sq[..2] && sq[..2][..1] == sq[..1] && sq[..1][..0] == [];
    assert UfoPoints(sq[..1], true) == [];
    assert UfoPoints(sq[..2], true) == [ContourPoint(100.0, 0.0, Line)];
    assert UfoPoints(sq[..3], true) == [ContourPoint(100.0, 0.0, Line), ContourPoint(100.0, 100.0, Line)];
  }

  /// An open path keeps its start as a Move point.
  lemma OpenPathConversion()
    ensures UfoPoints([MoveTo(Point(0.0, 0.0)), LineTo(Point(100.0, 0.0)), LineTo(Point(100.0, 100.0))], false) ==
      [ContourPoint(0.0, 0.0, Move), ContourPoint(100.0, 0.0, Line), ContourPoint(100.0, 100.0, Line)]
  {
    var open := [MoveTo(Point(0.0, 0.0)), LineTo(Point(100.0, 0.0)), LineTo(Point(100.0, 100.0))];
    assert open[..2][..1] == open[..1] && open[..1][..0] == [];
    assert UfoPoints(open[..1], false) == [ContourPoint(0.0, 0.0, Move)];
  }

  /// A closed curve gives its two control points and its end point.
  lemma ClosedCurveConversion()
    ensures UfoPoints([MoveTo(Point(224.0, -16.0)), CurveTo(Point(306.0, -16.0), Point(374.0, 16.0), Point(416.0, 72.0)),
                       ClosePath], true) ==
      [ContourPoint(306.0, -16.0, OffCurve), ContourPoint(374.0, 16.0, OffCurve), ContourPoint(416.0, 72.0, Curve)]
  {
    var curve := [MoveTo(Point(224.0, -16.0)), CurveTo(Point(306.0, -16.0), Point(374.0, 16.0), Point(416.0, 72.0)), ClosePath];
    assert curve[..2][..1] == curve[..1] && curve[..1][..0] == [];
    assert UfoPoints(curve[..1], true) == [];
  }
}
