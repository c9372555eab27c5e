/// Glyph navigation by Unicode codepoint: finding the glyph that carries a
/// codepoint, listing every codepoint of the font in sorted order, and cycling
/// through that list. The font's glyph map is a `HashMap`; it is modelled as a
/// sequence in its iteration order, which the model leaves arbitrary.
module Navigation {
  import opened Wrappers
  import opened Search
  import opened Hex
  import opened Sorting
  import opened Cycling

  /// A glyph of the loaded font: its name and the characters mapped to it.
  datatype GlyphData = GlyphData(name: string, unicodeValues: seq<char>)

  datatype CycleDirection = Next | Previous

  /// The character a codepoint string names: `u32::from_str_radix` followed by
  /// `char::from_u32`.
  function ParseCodepoint(codepoint: string): (r: Option<char>)
    ensures r.Some? <==> ParseHex(codepoint).Some? && CharFromU32(ParseHex(codepoint).value).Some?
    ensures r.Some? ==> r.value as nat == ParseHex(codepoint).value
  {
    match ParseHex(codepoint)
    case None => None
    case Some(n) => CharFromU32(n)
  }

  /// Reading back a codepoint key of the font gives its character.
  lemma ParseCodepointOfHex(c: char)
    ensures ParseCodepoint(CharToHexCodepoint(c)) == Some(c)
  {
  }

  /// The name of the first glyph, in iteration order, whose characters include
  /// the one `codepoint` names.
  function GlyphForCodepoint(glyphs: seq<GlyphData>, codepoint: string): (r: Option<string>)
    ensures r.Some? <==> (ParseCodepoint(codepoint).Some? &&
      exists g :: g in glyphs && ParseCodepoint(codepoint).value in g.unicodeValues)
    ensures r.Some? ==>
      exists g :: g in glyphs && g.name == r.value && ParseCodepoint(codepoint).value in g.unicodeValues
  {
    match ParseCodepoint(codepoint)
    case None => None
    case Some(ch) =>
      match FirstWhere(glyphs, (g: GlyphData) => ch in g.unicodeValues, 0)
      case None => None
      case Some(i) => assert glyphs[i] in glyphs; Some(glyphs[i].name)
  }

  /// `find_glyph_by_unicode_codepoint`.
  method FindGlyphByUnicodeCodepoint(glyphs: seq<GlyphData>, codepoint: string) returns (r: Option<string>)
    ensures r == GlyphForCodepoint(glyphs, codepoint)
  {
    var ch := ParseCodepoint(codepoint);
    if ch.None? {
      return None;
    }
    var i := 0;
    while i < |glyphs|
      invariant i <= |glyphs|
      invariant forall j :: 0 <= j < i ==> ch.value !in glyphs[j].unicodeValues
    {
      if ch.value in glyphs[i].unicodeValues {
        return Some(glyphs[i].name);
      }
      i := i + 1;
    }
    return None;
  }

  /// The glyph found for a character is one that carries it, and one is found
  /// whenever some glyph carries it.
  lemma LookupFindsCarrier(glyphs: seq<GlyphData>, c: char)
    ensures GlyphForCodepoint(glyphs, CharToHexCodepoint(c)).Some? <==>
      exists g :: g in glyphs && c in g.unicodeValues
    ensures GlyphForCodepoint(glyphs, CharToHexCodepoint(c)).Some? ==>
      exists g :: g in glyphs && g.name == GlyphForCodepoint(glyphs, CharToHexCodepoint(c)).value && c in g.unicodeValues
  {
    ParseCodepointOfHex(c);
  }

  /// The `{:04X}` keys of some characters.
  ghost function KeysOf(values: seq<char>): set<string>
  {
    set c | c in values :: CharToHexCodepoint(c)
  }

  /// `codepoint` is the key of one of the glyph's characters.
  ghost predicate HasCodepoint(g: GlyphData, codepoint: string)
  {
    codepoint in KeysOf(g.unicodeValues)
  }

  /// The inner loop of `get_all_codepoints`: each character's key appended
  /// unless already present.
  function AddCodepoints(acc: seq<string>, values: seq<char>): seq<string>
  {
    if values == [] then acc
    else
      var prev := AddCodepoints(acc, values[..|values| - 1]);
      var cp := CharToHexCodepoint(values[|values| - 1]);
      if cp in prev then prev else prev + [cp]
  }

  /// The keys of all glyphs, in first-seen order, before sorting.
  function CollectCodepoints(glyphs: seq<GlyphData>): seq<string>
  {
    if glyphs == [] then []
    else AddCodepoints(CollectCodepoints(glyphs[..|glyphs| - 1]), glyphs[|glyphs| - 1].unicodeValues)
  }

  /// What `get_all_codepoints` returns.
  function AllCodepoints(glyphs: seq<GlyphData>): seq<string>
  {
    SortBy(CollectCodepoints(glyphs), LexLe)
  }

  lemma {:induction false} AddCodepointsFacts(acc: seq<string>, values: seq<char>)
    requires Distinct(acc)
    ensures Distinct(AddCodepoints(acc, values))
    ensures forall x :: x in AddCodepoints(acc, values) <==> x in acc || x in KeysOf(values)
  {
    if values != [] {
      var init := values[..|values| - 1];
      AddCodepointsFacts(acc, init);
      assert values == init + [values[|values| - 1]];
      assert KeysOf(values) == KeysOf(init) + {CharToHexCodepoint(values[|values| - 1])};
    }
  }

  lemma {:induction false} CollectCodepointsFacts(glyphs: seq<GlyphData>)
    ensures Distinct(CollectCodepoints(glyphs))
    ensures forall x :: x in CollectCodepoints(glyphs) <==> exists g :: g in glyphs && HasCodepoint(g, x)
  {
    if glyphs != [] {
      var init := glyphs[..|glyphs| - 1];
      var last := glyphs[|glyphs| - 1];
      CollectCodepointsFacts(init);
      AddCodepointsFacts(CollectCodepoints(init), last.unicodeValues);
      assert glyphs == init + [last];
      forall x | x in CollectCodepoints(glyphs)
        ensures exists g :: g in glyphs && HasCodepoint(g, x)
      {
        if !HasCodepoint(last, x) {
          var g :| g in init && HasCodepoint(g, x);
          assert g in glyphs;
        }
      }
      forall x, g | g in glyphs && HasCodepoint(g, x)
        ensures x in CollectCodepoints(glyphs)
      {
        if g != last {
          assert g in init;
        }
      }
    }
  }

  /// `get_all_codepoints` lists every key of every glyph exactly once, in
  /// ascending string order.
  lemma AllCodepointsSortedAndComplete(glyphs: seq<GlyphData>)
    ensures SortedBy(AllCodepoints(glyphs), LexLe)
    ensures Distinct(AllCodepoints(glyphs))
    ensures forall x :: x in AllCodepoints(glyphs) <==> exists g :: g in glyphs && HasCodepoint(g, x)
  {
    CollectCodepointsFacts(glyphs);
    LexLeIsTotalOrder();
    SortBySorted(CollectCodepoints(glyphs), LexLe);
    SortByKeepsDistinct(CollectCodepoints(glyphs), LexLe);
    SortByMembers(CollectCodepoints(glyphs), LexLe);
  }

  /// The listing does not depend on the order in which the glyph map is
  /// iterated: any two orders that hold the same glyphs give the same list.
  lemma AllCodepointsIgnoresOrder(a: seq<GlyphData>, b: seq<GlyphData>)
    requires forall g :: g in a <==> g in b
    ensures AllCodepoints(a) == AllCodepoints(b)
  {
    AllCodepointsSortedAndComplete(a);
    AllCodepointsSortedAndComplete(b);
    LexLeIsTotalOrder();
    var ra, rb := AllCodepoints(a), AllCodepoints(b);
    SameElementsSameMultiset(ra, rb);
    SortedUnique(ra, rb, LexLe);
  }

  /// `get_all_codepoints`.
  method GetAllCodepoints(glyphs: seq<GlyphData>) returns (codepoints: seq<string>)
    ensures codepoints == AllCodepoints(glyphs)
  {
    codepoints := [];
    for i := 0 to |glyphs|
      invariant codepoints == CollectCodepoints(glyphs[..i])
    {
      var values := glyphs[i].unicodeValues;
      ghost var before := codepoints;
      for j := 0 to |values|
        invariant codepoints == AddCodepoints(before, values[..j])
      {
        var codepoint := CharToHexCodepoint(values[j]);
        assert values[..j + 1][..j] == values[..j];
        if codepoint !in codepoints {
          codepoints := codepoints + [codepoint];
        }
      }
      assert values[..|values|] == values;
      assert glyphs[..i + 1][..i] == glyphs[..i];
    }
    assert glyphs[..|glyphs|] == glyphs;
    codepoints := SortBy(codepoints, LexLe);
  }

  /// The cycling step of `cycle_codepoint_in_list` over the listed codepoints.
  function CycleInList(codepoints: seq<string>, current: Option<string>, direction: CycleDirection): (r: Option<string>)
    ensures r.None? <==> codepoints == []
    ensures r.Some? ==> r.value in codepoints
  {
    if codepoints == [] then None
    else
      match current
      case None => Some(codepoints[0])
      case Some(cp) =>
        match IndexOf(codepoints, cp)
        case None => Some(codepoints[0])
        case Some(i) =>
          match direction
          case Next => Some(codepoints[(i + 1) % |codepoints|])
          case Previous => Some(codepoints[if i == 0 then |codepoints| - 1 else i - 1])
  }

  /// `cycle_codepoint_in_list`: the step taken over the font's listing, so the
  /// result is always a codepoint some glyph carries.
  method CycleCodepointInList(current: Option<string>, glyphs: seq<GlyphData>, direction: CycleDirection)
    returns (r: Option<string>)
    ensures r == CycleInList(AllCodepoints(glyphs), current, direction)
    ensures r.None? <==> forall g :: g in glyphs ==> g.unicodeValues == []
    ensures r.Some? ==> exists g :: g in glyphs && HasCodepoint(g, r.value)
  {
    var codepoints := GetAllCodepoints(glyphs);
    AllCodepointsSortedAndComplete(glyphs);
    if exists g :: g in glyphs && g.unicodeValues != [] {
      ghost var g :| g in glyphs && g.unicodeValues != [];
      assert g.unicodeValues[0] in g.unicodeValues;
      assert HasCodepoint(g, CharToHexCodepoint(g.unicodeValues[0]));
      assert CharToHexCodepoint(g.unicodeValues[0]) in codepoints;
    }
    r := CycleInList(codepoints, current, direction);
  }

  /// From a listed codepoint, Next goes one place on and Previous one place
  /// back, both wrapping around.
  lemma CycleStep(codepoints: seq<string>, i: nat)
    requires Distinct(codepoints) && i < |codepoints|
    ensures CycleInList(codepoints, Some(codepoints[i]), Next) == Some(codepoints[NextIndex(i, |codepoints|)])
    ensures CycleInList(codepoints, Some(codepoints[i]), Previous) ==
      Some(codepoints[PreviousIndex(i, |codepoints|)])
  {
    IndexOfDistinct(codepoints, i);
    NextIndexIsModulo(i, |codepoints|);
  }

  /// No current codepoint, or one the font does not list, starts at the first.
  lemma CycleStartsAtFirst(codepoints: seq<string>, current: Option<string>, direction: CycleDirection)
    requires codepoints != [] && (current.None? || current.value !in codepoints)
    ensures CycleInList(codepoints, current, direction) == Some(codepoints[0])
  {
  }

  /// Previous undoes Next and Next undoes Previous on a list without duplicates.
  lemma CycleStepsUndo(codepoints: seq<string>, x: string)
    requires Distinct(codepoints) && x in codepoints
    ensures CycleInList(codepoints, CycleInList(codepoints, Some(x), Next), Previous) == Some(x)
    ensures CycleInList(codepoints, CycleInList(codepoints, Some(x), Previous), Next) == Some(x)
  {
    var n := |codepoints|;
    var i :| 0 <= i < n && codepoints[i] == x;
    var j, k := NextIndex(i, n), PreviousIndex(i, n);
    CycleStep(codepoints, i);
    CycleStep(codepoints, j);
    CycleStep(codepoints, k);
    assert PreviousIndex(j, n) == i && NextIndex(k, n) == i;
  }

  /// Next applied `k` times.
  function CycleNextTimes(codepoints: seq<string>, current: Option<string>, k: nat): Option<string>
  {
    if k == 0 then current else CycleInList(codepoints, CycleNextTimes(codepoints, current, k - 1), Next)
  }

  /// Pressing Next repeatedly from the first codepoint visits the listing in
  /// order and is back at the start after as many steps as there are codepoints.
  lemma {:induction false} CycleVisitsAll(codepoints: seq<string>, k: nat)
    requires Distinct(codepoints) && 0 < k <= |codepoints|
    ensures k < |codepoints| ==> CycleNextTimes(codepoints, Some(codepoints[0]), k) == Some(codepoints[k])
    ensures k == |codepoints| ==> CycleNextTimes(codepoints, Some(codepoints[0]), k) == Some(codepoints[0])
  {
    if k > 1 {
      CycleVisitsAll(codepoints, k - 1);
    }
    CycleStep(codepoints, k - 1);
  }
}
