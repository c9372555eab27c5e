/// Contextual shaping of Arabic text without a shaping engine: each Arabic
/// letter takes its isolated, initial, medial or final form from whether its
/// neighbours join it, and the form picks a glyph name of the font. The font's
/// glyph list, its character-to-glyph mapping and its advance widths are
/// parameters.
module ArabicShaping {
  import opened Wrappers
  import opened Hex
  import opened TextShaping

  datatype ArabicPosition = Isolated | Initial | Medial | Final

  /// The font as the shaper sees it.
  datatype FontLookup = FontLookup(
    glyphNames: set<string>,
    glyphForChar: char -> Option<string>,
    advanceWidth: string -> real)

  /// `is_arabic_letter`: the basic Arabic letters U+0621..U+064A. They lie in
  /// the Arabic block, so text holding one is sent to complex shaping.
  predicate IsArabicLetter(ch: char)
    ensures IsArabicLetter(ch) ==> IsComplexScriptChar(ch)
  {
    0x0621 <= ch as int <= 0x064A
  }

  /// Letters that never join the letter after them: hamza, the alef forms,
  /// teh marbuta, dal, thal, reh, zain, waw and alef maksura.
  const NonJoiningLetters: set<char> :=
    {'\U{0621}', '\U{0622}', '\U{0623}', '\U{0624}', '\U{0625}', '\U{0627}', '\U{0629}',
     '\U{062F}', '\U{0630}', '\U{0631}', '\U{0632}', '\U{0648}', '\U{0649}'}

  /// `can_connect_to_next`: a letter that joins forward joins back as well,
  /// and among the letters it fails exactly for the non-joining ones, every
  /// one of which is a letter.
  predicate CanConnectToNext(ch: char)
    ensures CanConnectToNext(ch) ==> IsArabicLetter(ch) && CanConnectToPrev(ch)
    ensures IsArabicLetter(ch) && !CanConnectToNext(ch) ==> ch in NonJoiningLetters
    ensures ch in NonJoiningLetters ==> IsArabicLetter(ch) && !CanConnectToNext(ch)
  {
    ch !in NonJoiningLetters && IsArabicLetter(ch)
  }

  /// `can_connect_to_prev`: the non-joining letters still take a join from
  /// the letter before them; nothing outside the Arabic block does.
  predicate CanConnectToPrev(ch: char)
    ensures ch in NonJoiningLetters ==> CanConnectToPrev(ch)
    ensures CanConnectToPrev(ch) ==> IsComplexScriptChar(ch)
  {
    IsArabicLetter(ch)
  }

  /// The letter before `index` joins it.
  predicate JoinsPrevious(text: seq<char>, index: nat)
    requires index < |text|
  {
    index > 0 && IsArabicLetter(text[index - 1]) && CanConnectToNext(text[index - 1])
  }

  /// The letter after `index` can take a join from it.
  predicate JoinsNext(text: seq<char>, index: nat)
    requires index < |text|
  {
    index + 1 < |text| && IsArabicLetter(text[index + 1]) && CanConnectToPrev(text[index + 1])
  }

  /// `get_arabic_position`.
  function GetArabicPosition(text: seq<char>, index: nat): (r: ArabicPosition)
    requires index < |text|
    ensures (r == Medial || r == Final) <==> JoinsPrevious(text, index)
    ensures (r == Initial || r == Medial) <==> CanConnectToNext(text[index]) && JoinsNext(text, index)
  {
    var hasPrev := JoinsPrevious(text, index);
    var hasNext := CanConnectToNext(text[index]) && JoinsNext(text, index);
    if !hasPrev && !hasNext then Isolated
    else if !hasPrev then Initial
    else if hasNext then Medial
    else Final
  }

  /// The first character is never Medial or Final.
  lemma FirstIsNeverMedialOrFinal(text: seq<char>)
    requires text != []
    ensures GetArabicPosition(text, 0) == Isolated || GetArabicPosition(text, 0) == Initial
  {
  }

  /// The last character is never Initial or Medial.
  lemma LastIsNeverInitialOrMedial(text: seq<char>)
    requires text != []
    ensures GetArabicPosition(text, |text| - 1) == Isolated || GetArabicPosition(text, |text| - 1) == Final
  {
  }

  /// A non-joining letter is never Initial or Medial.
  lemma NonJoiningIsNeverInitialOrMedial(text: seq<char>, index: nat)
    requires index < |text| && text[index] in NonJoiningLetters
    ensures GetArabicPosition(text, index) == Isolated || GetArabicPosition(text, index) == Final
  {
  }

  /// Joins are mutual between two neighbouring letters: a letter takes a form
  /// joining forward exactly when the letter after it takes one joining back.
  lemma JoiningIsMutual(text: seq<char>, index: nat)
    requires index + 1 < |text| && IsArabicLetter(text[index]) && IsArabicLetter(text[index + 1])
    ensures (GetArabicPosition(text, index) == Initial || GetArabicPosition(text, index) == Medial) <==>
      (GetArabicPosition(text, index + 1) == Medial || GetArabicPosition(text, index + 1) == Final)
  {
  }

  /// The letter part of the font's name for an Arabic letter, for the letters it names.
  function ArabicLetterStem(code: int): Option<string>
  {
    match code
    case 0x0621 => Some("hamza")
    case 0x0622 => Some("alefMadda")
    case 0x0623 => Some("alefHamzaabove")
    case 0x0624 => Some("wawHamza")
    case 0x0625 => Some("alefHamzabelow")
    case 0x0626 => Some("yehHamza")
    case 0x0627 => Some("alef")
    case 0x0628 => Some("beh")
    case 0x0629 => Some("tehMarbuta")
    case 0x062A => Some("teh")
    case 0x062B => Some("theh")
    case 0x062C => Some("jeem")
    case 0x062D => Some("hah")
    case 0x062E => Some("khah")
    case 0x062F => Some("dal")
    case 0x0630 => Some("thal")
    case 0x0631 => Some("reh")
    case 0x0632 => Some("zain")
    case 0x0633 => Some("seen")
    case 0x0634 => Some("sheen")
    case 0x0635 => Some("sad")
    case 0x0636 => Some("dad")
    case 0x0637 => Some("tah")
    case 0x0638 => Some("zah")
    case 0x0639 => Some("ain")
    case 0x063A => Some("ghain")
    case 0x0641 => Some("feh")
    case 0x0642 => Some("qaf")
    case 0x0643 => Some("kaf")
    case 0x0644 => Some("lam")
    case 0x0645 => Some("meem")
    case 0x0646 => Some("noon")
    case 0x0647 => Some("heh")
    case 0x0648 => Some("waw")
    case 0x0649 => Some("alefMaksura")
    case 0x064A => Some("yeh")
    case _ => None
  }

  /// The font's name for an Arabic letter, `{letter}-ar`.
  function ArabicLetterName(code: int): Option<string>
  {
    match ArabicLetterStem(code)
    case Some(stem) => Some(stem + "-ar")
    case None => None
  }

  predicate EndsWithAr(name: string)
  {
    |name| >= 3 && name[|name| - 3..] == "-ar"
  }

  /// The named letters are U+0621..U+063A and U+0641..U+064A.
  lemma ArabicLetterNamesCover(code: int)
    ensures ArabicLetterName(code).Some? <==> (0x0621 <= code <= 0x063A || 0x0641 <= code <= 0x064A)
  {
  }

  /// Every letter name ends in `-ar`.
  lemma ArabicLetterNamesEndWithAr(code: int)
    requires ArabicLetterName(code).Some?
    ensures EndsWithAr(ArabicLetterName(code).value)
  {
    var stem := ArabicLetterStem(code).value;
    assert (stem + "-ar")[|stem| + 3 - 3..] == "-ar";
  }

  /// `get_arabic_base_name`: the letter's `-ar` name, or `uniXXXX`.
  function GetArabicBaseName(ch: char): (r: string)
    ensures ArabicLetterName(ch as int).Some? ==> r == ArabicLetterName(ch as int).value
    ensures ArabicLetterName(ch as int).None? ==> r == UniName(ch)
  {
    match ArabicLetterName(ch as int)
    case Some(name) => name
    case None => UniName(ch)
  }

  /// Base names are total: every character gets one, an `-ar` name for the
  /// named letters and `uniXXXX` naming the character otherwise.
  lemma BaseNameIsTotal(ch: char)
    ensures (0x0621 <= ch as int <= 0x063A || 0x0641 <= ch as int <= 0x064A) ==>
      EndsWithAr(GetArabicBaseName(ch))
    ensures !(0x0621 <= ch as int <= 0x063A || 0x0641 <= ch as int <= 0x064A) ==>
      GetArabicBaseName(ch)[..3] == "uni" && ParseHex(GetArabicBaseName(ch)[3..]) == Some(ch as nat)
  {
    ArabicLetterNamesCover(ch as int);
    if ArabicLetterName(ch as int).Some? {
      ArabicLetterNamesEndWithAr(ch as int);
    }
  }

  /// The name suffix of a contextual form.
  function FormSuffix(position: ArabicPosition): string
  {
    match position
    case Isolated => ""
    case Initial => ".init"
    case Medial => ".medi"
    case Final => ".fina"
  }

  /// `get_contextual_glyph_name`: the contextual form if the font has it, else
  /// the base glyph if the font has that, else `uniXXXX`. It never fails.
  function GetContextualGlyphName(ch: char, position: ArabicPosition, glyphNames: set<string>): (r: Result<string, string>)
    ensures r.Ok?
    ensures r.value in glyphNames || r.value == UniName(ch)
    ensures position != Isolated && GetArabicBaseName(ch) + FormSuffix(position) in glyphNames ==>
      r.value == GetArabicBaseName(ch) + FormSuffix(position)
    ensures (!(position != Isolated && GetArabicBaseName(ch) + FormSuffix(position) in glyphNames) &&
             GetArabicBaseName(ch) in glyphNames) ==> r.value == GetArabicBaseName(ch)
    ensures (!(position != Isolated && GetArabicBaseName(ch) + FormSuffix(position) in glyphNames) &&
             GetArabicBaseName(ch) !in glyphNames) ==> r.value == UniName(ch)
    ensures r.value != UniName(ch) ==> r.value in glyphNames
    ensures r.value == UniName(ch) ==> GetArabicBaseName(ch) !in glyphNames || GetArabicBaseName(ch) == UniName(ch)
  {
    var baseName := GetArabicBaseName(ch);
    var contextualName := baseName + FormSuffix(position);
    if position != Isolated && contextualName in glyphNames then Ok(contextualName)
    else if baseName in glyphNames then Ok(baseName)
    else Ok(UniName(ch))
  }

  /// The glyph `shape_arabic_text` makes for the `index`-th character.
  function ShapedGlyphAt(text: seq<char>, index: nat, font: FontLookup): (g: ShapedGlyph)
    requires index < |text|
    ensures g.cluster == index && g.codepoint == text[index] && g.glyphId == 0
    ensures g.xOffset == 0.0 && g.yOffset == 0.0 && g.advanceWidth == font.advanceWidth(g.glyphName)
  {
    var ch := text[index];
    var name :=
      if IsArabicLetter(ch) then GetContextualGlyphName(ch, GetArabicPosition(text, index), font.glyphNames).value
      else match font.glyphForChar(ch)
        case Some(n) => n
        case None => UniName(ch);
    ShapedGlyph(0, ch, name, font.advanceWidth(name), 0.0, 0.0, index)
  }

  /// `shape_arabic_text`: one glyph per character, in order, marked as
  /// complex-shaped.
  method ShapeArabicText(text: seq<char>, direction: TextDirection, font: FontLookup)
    returns (r: Result<ShapedText, string>)
    ensures r.Ok? && r.value.inputCodepoints == text && r.value.direction == direction
    ensures r.value.isComplexShaped
    ensures |r.value.shapedGlyphs| == |text|
    ensures forall i :: 0 <= i < |text| ==> r.value.shapedGlyphs[i] == ShapedGlyphAt(text, i, font)
  {
    var shapedGlyphs: seq<ShapedGlyph> := [];
    for i := 0 to |text|
      invariant |shapedGlyphs| == i
      invariant forall j :: 0 <= j < i ==> shapedGlyphs[j] == ShapedGlyphAt(text, j, font)
    {
      var ch := text[i];
      var glyphName;
      if IsArabicLetter(ch) {
        var position := GetArabicPosition(text, i);
        var contextual := GetContextualGlyphName(ch, position, font.glyphNames);
        glyphName := contextual.value;
      } else {
        match font.glyphForChar(ch) {
          case Some(name) => glyphName := name;
          case None => glyphName := UniName(ch);
        }
      }
      var advanceWidth := font.advanceWidth(glyphName);
      var glyph := ShapedGlyph(0, ch, glyphName, advanceWidth, 0.0, 0.0, i);
      assert glyph == ShapedGlyphAt(text, i, font);
      shapedGlyphs := shapedGlyphs + [glyph];
    }
    return Ok(ShapedText(text, shapedGlyphs, direction, true));
  }

  /// Every Arabic letter shaped here is in a block `needs_complex_shaping`
  /// recognises, so text holding one is sent to the complex shaper.
  lemma ArabicLettersNeedComplexShaping(text: string, index: nat)
    requires index < |text| && IsArabicLetter(text[index])
    ensures NeedsComplexShaping(text)
  {
    assert IsComplexScriptChar(text[index]);
  }

  /// An Arabic letter's glyph is one of the font's glyphs, or its `uniXXXX` name.
  lemma ArabicGlyphIsInFontOrUni(text: seq<char>, index: nat, font: FontLookup)
    requires index < |text| && IsArabicLetter(text[index])
    ensures ShapedGlyphAt(text, index, font).glyphName in font.glyphNames ||
      ShapedGlyphAt(text, index, font).glyphName == UniName(text[index])
  {
  }
}
