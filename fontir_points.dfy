/// Point helpers of the FontIR-backed application state: moving the point at
/// a flat index (counting every control and end point of a path in order),
/// reading a command's end and control points, and looking up a glyph's
/// kerning groups.
module FontIRPoints {
  import opened Wrappers
  import opened Search
  import opened PathElements
  import BezPathEditing

  /// The `i`-th command after the update, given that `start` points come before it.
  function UpdateElementAt(el: PathEl, start: nat, pointIdx: nat, p: Point): (r: PathEl)
    ensures SameKind(r, el)
    ensures start <= pointIdx < start + PointCount(el) ==> BezPathEditing.ReplacePoint(el, pointIdx - start, p) == Some(r)
    ensures !(start <= pointIdx < start + PointCount(el)) ==> r == el
  {
    match el
    case MoveTo(_) => if start == pointIdx then MoveTo(p) else el
    case LineTo(_) => if start == pointIdx then LineTo(p) else el
    case CurveTo(c1, c2, pt) =>
      if start == pointIdx then CurveTo(p, c2, pt)
      else if start + 1 == pointIdx then CurveTo(c1, p, pt)
      else if start + 2 == pointIdx then CurveTo(c1, c2, p)
      else el
    case QuadTo(c, pt) =>
      if start == pointIdx then QuadTo(p, pt)
      else if start + 1 == pointIdx then QuadTo(c, p)
      else el
    case ClosePath => el
  }

  /// The element list the update loop builds.
  function FlatUpdated(els: seq<PathEl>, pointIdx: nat, p: Point): (r: seq<PathEl>)
    ensures |r| == |els|
  {
    if els == [] then []
    else
      var n := |els|;
      FlatUpdated(els[..n - 1], pointIdx, p) + [UpdateElementAt(els[n - 1], TotalPoints(els[..n - 1]), pointIdx, p)]
  }

  /// An index past the last point changes nothing.
  lemma {:induction false} FlatUpdatePastEnd(els: seq<PathEl>, pointIdx: nat, p: Point)
    requires pointIdx >= TotalPoints(els)
    ensures FlatUpdated(els, pointIdx, p) == els
  {
    if els != [] {
      var n := |els|;
      FlatUpdatePastEnd(els[..n - 1], pointIdx, p);
      assert els == els[..n - 1] + [els[n - 1]];
    }
  }

  /// Moving the point at flat index `k` is moving the `k`-th listed editable
  /// point by its (element, point) reference: the two ways of addressing a
  /// point agree.
  lemma {:induction false} FlatIndexIsListingIndex(els: seq<PathEl>, k: nat, p: Point)
    requires k < TotalPoints(els)
    ensures k < |BezPathEditing.PointsOf(els)| &&
      BezPathEditing.UpdatedElements(els, BezPathEditing.PointsOf(els)[k].reference, p) == Ok(FlatUpdated(els, k, p))
  {
    var n := |els|;
    var init, last := els[..n - 1], els[n - 1];
    if k < TotalPoints(init) {
      FlatIndexIsListingIndex(init, k, p);
      FlatIndexInPrefix(els, k, p);
    } else {
      FlatIndexInLastElement(els, k, p);
    }
  }

  /// The inductive step of `FlatIndexIsListingIndex` when the point lies in
  /// an earlier command: the last command is carried along unchanged.
  lemma FlatIndexInPrefix(els: seq<PathEl>, k: nat, p: Point)
    requires els != [] && k < TotalPoints(els[..|els| - 1])
    requires var init := els[..|els| - 1];
      k < |BezPathEditing.PointsOf(init)| &&
      BezPathEditing.UpdatedElements(init, BezPathEditing.PointsOf(init)[k].reference, p) == Ok(FlatUpdated(init, k, p))
    ensures k < |BezPathEditing.PointsOf(els)| &&
      BezPathEditing.UpdatedElements(els, BezPathEditing.PointsOf(els)[k].reference, p) == Ok(FlatUpdated(els, k, p))
  {
    var n := |els|;
    var init, last := els[..n - 1], els[n - 1];
    var head := BezPathEditing.PointsOf(init);
    assert |head| == TotalPoints(init) by {
      BezPathEditing.PointsOfFacts(init);
    }
    var tail := BezPathEditing.ElementPoints(last, n - 1);
    assert BezPathEditing.PointsOf(els) == head + tail;
    assert els == init + [last];
    var ref := head[k].reference;
    assert (head + tail)[k] == head[k];
    assert BezPathEditing.PointAt(init, ref).Some?;
    var u := BezPathEditing.UpdatedElements(init, ref, p).value;
    assert BezPathEditing.UpdatedElements(els, ref, p).value == u + [last];
  }

  /// The base of `FlatIndexIsListingIndex`: a point of the last command is
  /// the same point by flat index and by reference.
  lemma FlatIndexInLastElement(els: seq<PathEl>, k: nat, p: Point)
    requires els != [] && TotalPoints(els[..|els| - 1]) <= k < TotalPoints(els)
    ensures k < |BezPathEditing.PointsOf(els)| &&
      BezPathEditing.UpdatedElements(els, BezPathEditing.PointsOf(els)[k].reference, p) == Ok(FlatUpdated(els, k, p))
  {
    var n := |els|;
    var init, last := els[..n - 1], els[n - 1];
    var t := TotalPoints(init);
    var head := BezPathEditing.PointsOf(init);
    assert |head| == t by {
      BezPathEditing.PointsOfFacts(init);
    }
    var tail := BezPathEditing.ElementPoints(last, n - 1);
    assert BezPathEditing.PointsOf(els) == head + tail;
    assert TotalPoints(els) == t + PointCount(last);
    var j := k - t;
    assert BezPathEditing.PointsOf(els)[k] == tail[j];
    var ref := BezPathEditing.PathPointRef(n - 1, j);
    assert tail[j].reference == ref;
    var e := BezPathEditing.ReplacePoint(last, j, p).value;
    assert BezPathEditing.UpdatedElements(els, ref, p) == Ok(els[n - 1 := e]);
    assert UpdateElementAt(last, t, k, p) == e;
    FlatUpdatePastEnd(init, k, p);
    assert FlatUpdated(els, k, p) == FlatUpdated(init, k, p) + [e];
    assert els[n - 1 := e] == init + [e];
  }


  /// `update_point_in_bezpath_static`: walks the commands counting points,
  /// moves the point at `pointIdx`, and replaces the path only when the index
  /// was in range; the result says whether it was.
  method UpdatePointInBezpathStatic(path: BezPath, pointIdx: nat, newX: real, newY: real) returns (updated: bool)
    modifies path
    ensures updated <==> pointIdx < TotalPoints(old(path.elements))
    ensures updated ==> path.elements == FlatUpdated(old(path.elements), pointIdx, Point(newX, newY))
    ensures !updated ==> path.elements == old(path.elements)
  {
    var elements := path.elements;
    var p := Point(newX, newY);
    var currentPointIdx := 0;
    var newElements := [];
    for i := 0 to |elements|
      invariant currentPointIdx == TotalPoints(elements[..i])
      invariant newElements == FlatUpdated(elements[..i], pointIdx, p)
    {
      assert elements[..i + 1][..i] == elements[..i];
      var element := elements[i];
      match element {
        case MoveTo(_) =>
          if currentPointIdx == pointIdx {
            newElements := newElements + [MoveTo(p)];
          } else {
            newElements := newElements + [element];
          }
          currentPointIdx := currentPointIdx + 1;
        case LineTo(_) =>
          if currentPointIdx == pointIdx {
            newElements := newElements + [LineTo(p)];
          } else {
            newElements := newElements + [element];
          }
          currentPointIdx := currentPointIdx + 1;
        case CurveTo(c1, c2, pt) =>
          var newC1, newC2, newPt := c1, c2, pt;
          if currentPointIdx == pointIdx {
            newC1 := p;
          } else if currentPointIdx + 1 == pointIdx {
            newC2 := p;
          } else if currentPointIdx + 2 == pointIdx {
            newPt := p;
          }
          newElements := newElements + [CurveTo(newC1, newC2, newPt)];
          currentPointIdx := currentPointIdx + 3;
        case QuadTo(c, pt) =>
          var newC, newPt := c, pt;
          if currentPointIdx == pointIdx {
            newC := p;
          } else if currentPointIdx + 1 == pointIdx {
            newPt := p;
          }
          newElements := newElements + [QuadTo(newC, newPt)];
          currentPointIdx := currentPointIdx + 2;
        case ClosePath =>
          newElements := newElements + [element];
      }
    }
    assert elements[..|elements|] == elements;
    if currentPointIdx > pointIdx {
      path.elements := newElements;
      return true;
    }
    return false;
  }

  /// `path_element_position`: the end point, which every command but
  /// ClosePath has; it is the command's last listed point.
  function PathElementPosition(el: PathEl): (r: Option<Point>)
    ensures r.None? <==> el.ClosePath?
    ensures r.Some? ==> PointOf(el, PointCount(el) - 1) == r
  {
    match el
    case MoveTo(pt) => Some(pt)
    case LineTo(pt) => Some(pt)
    case CurveTo(_, _, pt) => Some(pt)
    case QuadTo(_, pt) => Some(pt)
    case ClosePath => None
  }

  /// `path_element_control_points`: the off-curve points, which are all of a
  /// command's points but its end point.
  function PathElementControlPoints(el: PathEl): (r: seq<Point>)
    ensures |r| == (if el.ClosePath? then 0 else PointCount(el) - 1)
    ensures el.CurveTo? ==> |r| == 2
    ensures el.QuadTo? ==> |r| == 1
    ensures forall k :: 0 <= k < |r| ==> PointOf(el, k) == Some(r[k])
  {
    match el
    case CurveTo(c1, c2, _) => [c1, c2]
    case QuadTo(c, _) => [c]
    case _ => []
  }

  /// The control points and the end point are exactly the command's editable
  /// points, off-curve and on-curve respectively.
  lemma ControlAndEndPointsAreEditablePoints(el: PathEl, i: nat)
    requires !el.ClosePath?
    ensures var pts := BezPathEditing.ElementPoints(el, i);
      |pts| == |PathElementControlPoints(el)| + 1 &&
      (forall k :: 0 <= k < |pts| - 1 ==>
        pts[k].position == PathElementControlPoints(el)[k] && pts[k].pointType == BezPathEditing.OffCurve) &&
      pts[|pts| - 1].position == PathElementPosition(el).value && pts[|pts| - 1].pointType == BezPathEditing.OnCurve
  {
  }

  datatype FontIRPointType = Move | Line | Curve | Quad | OffCurve

  /// `From<&PathEl> for FontIRPointType`; ClosePath is reported as a move.
  function PointTypeOf(el: PathEl): (r: FontIRPointType)
    ensures r != OffCurve
    ensures r == Move <==> el.MoveTo? || el.ClosePath?
    ensures r == Line <==> el.LineTo?
    ensures r == Curve <==> el.CurveTo?
    ensures r == Quad <==> el.QuadTo?
  {
    match el
    case MoveTo(_) => Move
    case LineTo(_) => Line
    case CurveTo(_, _, _) => Curve
    case QuadTo(_, _) => Quad
    case ClosePath => Move
  }

  const Kern1Prefix := "public.kern1."
  const Kern2Prefix := "public.kern2."

  /// A kerning group of the given side (by prefix) that lists the glyph.
  predicate InGroupOfSide(group: (string, seq<string>), glyphName: string, prefix: string)
  {
    glyphName in group.1 && prefix <= group.0
  }

  /// The group a lookup reports for one side: the last qualifying group in
  /// iteration order, with its prefix removed.
  function GroupOfSide(groups: seq<(string, seq<string>)>, glyphName: string, prefix: string): (r: Option<string>)
    ensures r.None? <==> forall i :: 0 <= i < |groups| ==> !InGroupOfSide(groups[i], glyphName, prefix)
    ensures r.Some? ==> exists i :: 0 <= i < |groups| && InGroupOfSide(groups[i], glyphName, prefix) && groups[i].0 == prefix + r.value
  {
    match LastWhere(groups, (g: (string, seq<string>)) => InGroupOfSide(g, glyphName, prefix), |groups|)
    case None => None
    case Some(i) =>
      assert groups[i].0 == prefix + groups[i].0[|prefix|..];
      Some(groups[i].0[|prefix|..])
  }

  /// `get_glyph_kerning_groups`: the glyph's left (`public.kern1.`) and right
  /// (`public.kern2.`) group names without their prefix. `groups` lists the
  /// group map in its iteration order.
  method GetGlyphKerningGroups(groups: seq<(string, seq<string>)>, glyphName: string)
    returns (leftGroup: Option<string>, rightGroup: Option<string>)
    ensures leftGroup == GroupOfSide(groups, glyphName, Kern1Prefix)
    ensures rightGroup == GroupOfSide(groups, glyphName, Kern2Prefix)
  {
    leftGroup, rightGroup := None, None;
    for i := 0 to |groups|
      invariant leftGroup == GroupOfSide(groups[..i], glyphName, Kern1Prefix)
      invariant rightGroup == GroupOfSide(groups[..i], glyphName, Kern2Prefix)
    {
      var (groupName, glyphList) := groups[i];
      if glyphName in glyphList {
        if Kern1Prefix <= groupName {
          leftGroup := Some(groupName[|Kern1Prefix|..]);
        } else if Kern2Prefix <= groupName {
          rightGroup := Some(groupName[|Kern2Prefix|..]);
        }
      }
      SidesAreExclusive(groupName);
      LastGroupStep(groups, i, glyphName, Kern1Prefix);
      LastGroupStep(groups, i, glyphName, Kern2Prefix);
    }
    assert groups[..|groups|] == groups;
  }

  /// Extending the groups seen by one: the lookup moves to the new group if it
  /// qualifies and stays otherwise.
  lemma LastGroupStep(groups: seq<(string, seq<string>)>, i: nat, glyphName: string, prefix: string)
    requires i < |groups|
    ensures GroupOfSide(groups[..i + 1], glyphName, prefix) ==
      if InGroupOfSide(groups[i], glyphName, prefix) then Some(groups[i].0[|prefix|..])
      else GroupOfSide(groups[..i], glyphName, prefix)
  {
    var s, t := groups[..i + 1], groups[..i];
    assert forall j :: 0 <= j < i ==> s[j] == t[j];
    var pred := (g: (string, seq<string>)) => InGroupOfSide(g, glyphName, prefix);
    if !InGroupOfSide(groups[i], glyphName, prefix) {
      var a, b := LastWhere(s, pred, |s|), LastWhere(t, pred, |t|);
      if a.Some? {
        assert a.value < i;
        assert b.Some? && b.value == a.value;
      }
    }
  }

  /// A glyph sits in at most one group per side in a well-formed font; then the
  /// lookup finds that group whatever order the group map is iterated in.
  lemma GroupLookupIgnoresOrder(groups: seq<(string, seq<string>)>, glyphName: string, prefix: string, i: nat)
    requires i < |groups| && InGroupOfSide(groups[i], glyphName, prefix)
    requires forall j :: 0 <= j < |groups| && j != i ==> !InGroupOfSide(groups[j], glyphName, prefix)
    ensures GroupOfSide(groups, glyphName, prefix) == Some(groups[i].0[|prefix|..])
  {
  }

  /// The two prefixes never both apply, so one group never counts for both sides.
  lemma SidesAreExclusive(name: string)
    ensures Kern1Prefix <= name ==> !(Kern2Prefix <= name)
  {
    if Kern1Prefix <= name {
      assert name[11] == '1';
    }
  }
}
