/// Text shaping front end: the direction a sort layout mode shapes in, the
/// test for scripts that need complex shaping, and the fallback shaper that maps
/// each character to its `uniXXXX` glyph (the HarfBuzz call it stands in for is
/// not made).
module TextShaping {
  import opened Wrappers
  import opened Hex
  import SortEditor

  datatype TextDirection = LeftToRight | RightToLeft | TopToBottom | BottomToTop

  /// `From<SortLayoutMode> for TextDirection`.
  function DirectionOf(mode: SortEditor.LayoutMode): (r: TextDirection)
    ensures r == RightToLeft <==> mode == SortEditor.RTLText
    ensures r == LeftToRight <==> mode != SortEditor.RTLText
  {
    match mode
    case LTRText => LeftToRight
    case RTLText => RightToLeft
    case Freeform => LeftToRight
  }

  /// One glyph of shaped output; `cluster` is the index of the character it came from.
  datatype ShapedGlyph = ShapedGlyph(
    glyphId: nat,
    codepoint: char,
    glyphName: string,
    advanceWidth: real,
    xOffset: real,
    yOffset: real,
    cluster: nat)

  datatype ShapedText = ShapedText(
    inputCodepoints: seq<char>,
    shapedGlyphs: seq<ShapedGlyph>,
    direction: TextDirection,
    isComplexShaped: bool)

  /// Advance the fallback shaper gives every glyph.
  const FallbackAdvance: real := 600.0

  /// Characters of the Arabic blocks: Arabic, Arabic Supplement, Arabic
  /// Extended-A and the two Presentation Forms blocks.
  predicate IsComplexScriptChar(c: char)
  {
    var code := c as int;
    (0x0600 <= code <= 0x06FF) || (0x0750 <= code <= 0x077F) || (0x08A0 <= code <= 0x08FF) ||
    (0xFB50 <= code <= 0xFDFF) || (0xFE70 <= code <= 0xFEFF)
  }

  /// `needs_complex_shaping`: some character of the text is in a complex script.
  function NeedsComplexShaping(text: string): (r: bool)
    ensures r <==> exists i :: 0 <= i < |text| && IsComplexScriptChar(text[i])
  {
    if text == [] then false
    else if IsComplexScriptChar(text[0]) then true
    else
      assert forall i :: 1 <= i < |text| ==> text[i] == text[1..][i - 1];
      NeedsComplexShaping(text[1..])
  }

  /// Joining two texts needs complex shaping exactly when one of them does.
  lemma NeedsComplexShapingOfConcat(a: string, b: string)
    ensures NeedsComplexShaping(a + b) <==> NeedsComplexShaping(a) || NeedsComplexShaping(b)
  {
    var ab := a + b;
    if NeedsComplexShaping(b) {
      var i :| 0 <= i < |b| && IsComplexScriptChar(b[i]);
      assert ab[|a| + i] == b[i];
    }
    if NeedsComplexShaping(a) {
      var i :| 0 <= i < |a| && IsComplexScriptChar(a[i]);
      assert ab[i] == a[i];
    }
    if NeedsComplexShaping(ab) {
      var i :| 0 <= i < |ab| && IsComplexScriptChar(ab[i]);
      if i >= |a| {
        assert b[i - |a|] == ab[i];
      }
    }
  }

  /// The glyph the fallback shaper makes for the `i`-th character: the codepoint
  /// as glyph id, `uniXXXX` as name, the default advance and no offset.
  function FallbackGlyph(ch: char, i: nat): (g: ShapedGlyph)
    ensures g.cluster == i && g.codepoint == ch && g.glyphId == ch as nat
    ensures |g.glyphName| >= 7 && g.glyphName[..3] == "uni" && ParseHex(g.glyphName[3..]) == Some(ch as nat)
  {
    ShapedGlyph(ch as nat, ch, UniName(ch), FallbackAdvance, 0.0, 0.0, i)
  }

  /// `{direction:?}`.
  function DirectionName(d: TextDirection): string
  {
    match d
    case LeftToRight => "LeftToRight"
    case RightToLeft => "RightToLeft"
    case TopToBottom => "TopToBottom"
    case BottomToTop => "BottomToTop"
  }

  /// The shaping cache key `"{text}_{direction:?}_{font_path}"`.
  function CacheKey(text: string, direction: TextDirection, fontPath: string): string
  {
    text + "_" + DirectionName(direction) + "_" + fontPath
  }

  /// `shape_text_with_harfbuzz`: empty text shapes to nothing; text already in
  /// the cache gives the cached result; otherwise one fallback glyph per
  /// character. The cache is only read here.
  function ShapeTextWithHarfbuzz(text: string, fontPath: string, direction: TextDirection, cache: map<string, ShapedText>)
    : (r: Result<ShapedText, string>)
    ensures r.Ok?
    ensures text == [] ==> r.value == ShapedText([], [], direction, false)
    ensures text != [] && CacheKey(text, direction, fontPath) in cache ==>
      r.value == cache[CacheKey(text, direction, fontPath)]
    ensures text != [] && CacheKey(text, direction, fontPath) !in cache ==>
      r.value.inputCodepoints == text && r.value.direction == direction && !r.value.isComplexShaped &&
      |r.value.shapedGlyphs| == |text| &&
      forall i :: 0 <= i < |text| ==> r.value.shapedGlyphs[i] == FallbackGlyph(text[i], i)
  {
    if text == [] then Ok(ShapedText([], [], direction, false))
    else
      var key := CacheKey(text, direction, fontPath);
      if key in cache then Ok(cache[key])
      else
        Ok(ShapedText(text, seq(|text|, i requires 0 <= i < |text| => FallbackGlyph(text[i], i)), direction, false))
  }

  /// Reading the fallback output back: each glyph's name and id give the
  /// character it stands for, and clusters count the characters in order.
  lemma FallbackShapingRecoversText(text: string, fontPath: string, direction: TextDirection)
    requires text != []
    ensures var r := ShapeTextWithHarfbuzz(text, fontPath, direction, map[]).value;
      |r.shapedGlyphs| == |text| &&
      forall i :: 0 <= i < |text| ==>
        r.shapedGlyphs[i].cluster == i &&
        ParseHex(r.shapedGlyphs[i].glyphName[3..]) == Some(text[i] as nat) &&
        CharFromU32(r.shapedGlyphs[i].glyphId) == Some(text[i])
  {
  }
}
