/// The current text editor: sorts (placed glyphs) in one gap buffer, grouped into
/// lines by buffer roots, each root carrying its own cursor
/// (src/core/state/text_editor/buffer.rs for the data, src/core/state/text_editor/editor.rs
/// for the operations). New sorts are appended at the end of the buffer and
/// backspace removes the last entry.
module SortEditor {
  import opened Wrappers
  import opened DesignSpace
  import opened Search
  import opened GapBuffer

  datatype LayoutMode = LTRText | RTLText | Freeform

  datatype SortKind =
    | Glyph(codepoint: Option<char>, glyphName: string, advanceWidth: real)
    | LineBreak

  datatype SortEntry = SortEntry(
    kind: SortKind,
    isActive: bool,
    layoutMode: LayoutMode,
    rootPosition: Vec2,
    isBufferRoot: bool,
    cursor: Option<nat>,
    bufferId: Option<nat>)

  /// `SortEntry::default()`: an unnamed zero-width LTR glyph.
  const DefaultEntry := SortEntry(Glyph(None, "", 0.0), false, LTRText, Zero, false, None, None)

  /// Advance of the placeholder glyph "a" of a new root when no font is at hand.
  const FallbackPlaceholderAdvance: real := 500.0

  /// Where a root created by typing without any root is placed.
  const TypingRootPosition := Vec2(500.0, 0.0)

  predicate IsText(m: LayoutMode) { m == LTRText || m == RTLText }
  predicate IsRoot(e: SortEntry) { e.isBufferRoot }
  predicate IsActiveRoot(e: SortEntry) { e.isBufferRoot && e.isActive }
  predicate IsCursorRoot(e: SortEntry) { e.isBufferRoot && e.cursor.Some? }
  predicate IsTextRoot(e: SortEntry) { e.isBufferRoot && IsText(e.layoutMode) }
  /// A sort that ends the text run of the root before it.
  predicate EndsRun(e: SortEntry) { e.isBufferRoot || !IsText(e.layoutMode) }
  /// The visible placeholder glyph a root is created with.
  predicate IsPlaceholder(e: SortEntry) { e.kind.Glyph? && e.kind.glyphName == "a" && e.isBufferRoot }

  function CursorOf(e: SortEntry): nat { if e.cursor.Some? then e.cursor.value else 0 }

  // ---------------------------------------------------------------------------
  // Root lookup and sequence length

  /// The root that typing goes to: the first active root, else the first root
  /// holding a cursor, else the last root; None when there is no root.
  function FindActiveRoot(s: seq<SortEntry>): (r: Option<nat>)
    ensures r.Some? ==> r.value < |s| && s[r.value].isBufferRoot
    ensures r.None? <==> forall i :: 0 <= i < |s| ==> !s[i].isBufferRoot
    ensures (exists i :: 0 <= i < |s| && IsActiveRoot(s[i])) ==>
      r.Some? && IsActiveRoot(s[r.value]) && forall j :: 0 <= j < r.value ==> !IsActiveRoot(s[j])
    ensures (forall i :: 0 <= i < |s| ==> !IsActiveRoot(s[i])) && (exists i :: 0 <= i < |s| && IsCursorRoot(s[i])) ==>
      r.Some? && IsCursorRoot(s[r.value]) && forall j :: 0 <= j < r.value ==> !IsCursorRoot(s[j])
    ensures (forall i :: 0 <= i < |s| ==> !IsActiveRoot(s[i]) && !IsCursorRoot(s[i])) && r.Some? ==>
      forall j :: r.value < j < |s| ==> !s[j].isBufferRoot
  {
    var active := FirstWhere(s, IsActiveRoot, 0);
    if active.Some? then active
    else
      var withCursor := FirstWhere(s, IsCursorRoot, 0);
      if withCursor.Some? then withCursor
      else LastWhere(s, IsRoot, |s|)
  }

  /// Exclusive end of the text run whose first entry after the root is `from`.
  function RunEnd(s: seq<SortEntry>, from: nat): (e: nat)
    requires from <= |s|
    ensures from <= e <= |s|
    ensures forall j :: from <= j < e ==> !EndsRun(s[j])
    ensures e < |s| ==> EndsRun(s[e])
  {
    var stop := FirstWhere(s, EndsRun, from);
    if stop.Some? then stop.value else |s|
  }

  /// Number of sorts in the line of the root at `root`: the sorts up to the next
  /// root or non-text sort, not counting the root's own placeholder glyph. A root
  /// index out of range or not in a text mode gives 0.
  function SequenceLength(s: seq<SortEntry>, root: nat): (n: nat)
    ensures root >= |s| || !IsText(s[root].layoutMode) ==> n == 0
    ensures root < |s| && IsText(s[root].layoutMode) ==>
      n == RunEnd(s, root + 1) - root - (if IsPlaceholder(s[root]) then 1 else 0)
    ensures n <= |s| - root || n == 0
  {
    if root >= |s| || !IsText(s[root].layoutMode) then 0
    else RunEnd(s, root + 1) - root - (if IsPlaceholder(s[root]) then 1 else 0)
  }

  /// Entries that agree on everything that lays out a line (kind, mode, root flag).
  predicate SameLayout(a: seq<SortEntry>, b: seq<SortEntry>)
  {
    |a| == |b| &&
    forall i :: 0 <= i < |a| ==>
      a[i].kind == b[i].kind && a[i].layoutMode == b[i].layoutMode && a[i].isBufferRoot == b[i].isBufferRoot
  }

  /// Sequence length ignores cursors and activity.
  lemma SequenceLengthOfSameLayout(a: seq<SortEntry>, b: seq<SortEntry>, root: nat)
    requires SameLayout(a, b)
    ensures SequenceLength(a, root) == SequenceLength(b, root)
  {
  }

  // ---------------------------------------------------------------------------
  // Text flow

  /// Line height used by the flow: units per em minus the descender (-256 when
  /// the font has none).
  function LineHeight(m: FontMetrics): real
  {
    m.unitsPerEm - OrElse(m.descender, -256.0)
  }

  /// One step of the flow walk: a line break returns to the line start one line
  /// lower; a glyph advances left (RTL) or right (otherwise) by its advance width.
  function Advance(off: Vec2, e: SortEntry, lineHeight: real): Vec2
  {
    match e.kind
    case LineBreak => Vec2(0.0, off.y - lineHeight)
    case Glyph(_, _, adv) =>
      if e.layoutMode == RTLText then Vec2(off.x - adv, off.y) else Vec2(off.x + adv, off.y)
  }

  /// Offset accumulated over `s[root .. hi)`: the root and every text sort contribute.
  function FlowOffset(s: seq<SortEntry>, root: nat, hi: nat, lineHeight: real): Vec2
    requires root <= hi <= |s|
    decreases hi - root
  {
    if hi == root then Zero
    else
      var before := FlowOffset(s, root, hi - 1, lineHeight);
      if hi - 1 == root || IsText(s[hi - 1].layoutMode) then Advance(before, s[hi - 1], lineHeight)
      else before
  }

  /// Where the walk from `root` towards `pos` stops: at the first later root, else at `pos`.
  function FlowStop(s: seq<SortEntry>, root: nat, pos: nat): (stop: nat)
    requires root < pos <= |s|
    ensures root < stop <= pos
    ensures forall j :: root < j < stop ==> !s[j].isBufferRoot
    ensures stop < pos ==> s[stop].isBufferRoot
  {
    var r := FirstWhere(s[..pos], IsRoot, root + 1);
    if r.Some? then r.value else pos
  }

  /// Position of the text sort at `pos`, measured from the nearest text root at or
  /// before it; None when `pos` is out of range, not a text sort, or has no root.
  function FlowPosition(s: seq<SortEntry>, pos: nat, metrics: FontMetrics): (r: Option<Vec2>)
    ensures r.Some? ==> pos < |s| && IsText(s[pos].layoutMode)
    ensures pos < |s| && IsTextRoot(s[pos]) ==> r == Some(s[pos].rootPosition)
  {
    if pos >= |s| || !IsText(s[pos].layoutMode) then None
    else
      var root := LastWhere(s, IsTextRoot, pos + 1);
      if root.None? then None
      else if pos == root.value then Some(s[pos].rootPosition)
      else Some(s[root.value].rootPosition.Plus(
        FlowOffset(s, root.value, FlowStop(s, root.value, pos), LineHeight(metrics))))
  }

  /// Where a sort is drawn: text roots and freeform sorts at their stored
  /// position, other text sorts where the flow under the default metrics puts them.
  function VisualPosition(s: seq<SortEntry>, pos: nat): (r: Option<Vec2>)
    ensures r.None? ==> pos >= |s| || (IsText(s[pos].layoutMode) && !s[pos].isBufferRoot)
    ensures pos < |s| && (s[pos].isBufferRoot || !IsText(s[pos].layoutMode)) ==> r == Some(s[pos].rootPosition)
  {
    if pos >= |s| then None
    else if IsText(s[pos].layoutMode) && !s[pos].isBufferRoot then FlowPosition(s, pos, DefaultMetrics)
    else Some(s[pos].rootPosition)
  }

  /// Within one line (no root between the text root and `pos`), the flow position
  /// is the root's position plus the offset of everything from the root up to `pos`.
  lemma FlowWithinLine(s: seq<SortEntry>, root: nat, pos: nat, metrics: FontMetrics)
    requires root < pos < |s| && IsTextRoot(s[root]) && IsText(s[pos].layoutMode)
    requires forall j :: root < j <= pos ==> !s[j].isBufferRoot
    ensures FlowPosition(s, pos, metrics) ==
      Some(s[root].rootPosition.Plus(FlowOffset(s, root, pos, LineHeight(metrics))))
  {
    var found := LastWhere(s, IsTextRoot, pos + 1);
    assert found == Some(root);
    var r := FirstWhere(s[..pos], IsRoot, root + 1);
    assert r.None?;
  }

  /// After a line break the next sort starts again at the root's x, one line lower.
  lemma FlowAfterLineBreak(s: seq<SortEntry>, root: nat, pos: nat, metrics: FontMetrics)
    requires root < pos && pos + 1 < |s| && IsTextRoot(s[root])
    requires forall j :: root < j <= pos + 1 ==> !s[j].isBufferRoot
    requires s[pos].kind.LineBreak? && IsText(s[pos].layoutMode) && IsText(s[pos + 1].layoutMode)
    ensures FlowPosition(s, pos, metrics).Some? && FlowPosition(s, pos + 1, metrics).Some?
    ensures FlowPosition(s, pos + 1, metrics).value.x == s[root].rootPosition.x
    ensures FlowPosition(s, pos + 1, metrics).value.y ==
      FlowPosition(s, pos, metrics).value.y - LineHeight(metrics)
  {
    FlowWithinLine(s, root, pos, metrics);
    FlowWithinLine(s, root, pos + 1, metrics);
  }

  /// Sum of the advance widths of the glyphs in `s[lo .. hi)`.
  function AdvanceSum(s: seq<SortEntry>, lo: nat, hi: nat): real
    requires lo <= hi <= |s|
    decreases hi - lo
  {
    if hi == lo then 0.0
    else AdvanceSum(s, lo, hi - 1) + (if s[hi - 1].kind.Glyph? then s[hi - 1].kind.advanceWidth else 0.0)
  }

  /// Along a run of glyphs all in layout mode `m`, the offset is the sum of their
  /// advances: added for LTR, subtracted for RTL, and the line does not move down.
  lemma {:induction false} FlowOffsetSumsAdvances(s: seq<SortEntry>, root: nat, hi: nat, m: LayoutMode, lineHeight: real)
    requires root <= hi <= |s| && IsText(m)
    requires forall j :: root <= j < hi ==> s[j].kind.Glyph? && s[j].layoutMode == m
    ensures FlowOffset(s, root, hi, lineHeight) ==
      if m == RTLText then Vec2(-AdvanceSum(s, root, hi), 0.0) else Vec2(AdvanceSum(s, root, hi), 0.0)
    decreases hi - root
  {
    if hi > root {
      FlowOffsetSumsAdvances(s, root, hi - 1, m, lineHeight);
    }
  }

  /// The flow position of a sort in an unbroken LTR line is the root's x plus the
  /// advances of the root and every sort before it; for RTL they are subtracted.
  lemma FlowSumsAdvances(s: seq<SortEntry>, root: nat, pos: nat, metrics: FontMetrics)
    requires root < pos < |s| && IsTextRoot(s[root]) && s[pos].layoutMode == s[root].layoutMode
    requires forall j :: root < j <= pos ==> !s[j].isBufferRoot
    requires forall j :: root <= j < pos ==> s[j].kind.Glyph? && s[j].layoutMode == s[root].layoutMode
    ensures FlowPosition(s, pos, metrics) == Some(
      if s[root].layoutMode == RTLText
      then Vec2(s[root].rootPosition.x - AdvanceSum(s, root, pos), s[root].rootPosition.y)
      else Vec2(s[root].rootPosition.x + AdvanceSum(s, root, pos), s[root].rootPosition.y))
  {
    var p, a := s[root].rootPosition, AdvanceSum(s, root, pos);
    var o := if s[root].layoutMode == RTLText then Vec2(-a, 0.0) else Vec2(a, 0.0);
    assert FlowPosition(s, pos, metrics) == Some(p.Plus(o)) by {
      FlowWithinLine(s, root, pos, metrics);
      FlowOffsetSumsAdvances(s, root, pos, s[root].layoutMode, LineHeight(metrics));
    }
  }

  // ---------------------------------------------------------------------------
  // What each editing operation makes of the sorts

  /// Every sort with its active flag cleared (`clear_active_state`, and
  /// `clear_all_states`, which in this editor clears nothing else).
  function Deactivated(s: seq<SortEntry>): seq<SortEntry>
  {
    seq(|s|, i requires 0 <= i < |s| => s[i].(isActive := false))
  }

  /// Only the sort at `p` active (`activate_sort`).
  function Activated(s: seq<SortEntry>, p: nat): seq<SortEntry>
  {
    seq(|s|, i requires 0 <= i < |s| => s[i].(isActive := i == p))
  }

  function WithCursor(s: seq<SortEntry>, r: nat, c: nat): seq<SortEntry>
    requires r < |s|
  {
    s[r := s[r].(cursor := Some(c))]
  }

  /// A typed glyph: inactive, not a root, laid out in the mode of its root.
  function TextSort(name: string, advance: real, mode: LayoutMode): SortEntry
  {
    SortEntry(Glyph(None, name, advance), false, mode, Zero, false, None, None)
  }

  function LineBreakSort(mode: LayoutMode): SortEntry
  {
    SortEntry(LineBreak, false, mode, Zero, false, None, None)
  }

  /// A new text root holding the placeholder glyph "a": active, with its cursor
  /// after the placeholder, or before it for RTL text.
  function PlaceholderRoot(position: Vec2, mode: LayoutMode, advance: real): SortEntry
  {
    SortEntry(Glyph(None, "a", advance), true, mode, position, true,
      Some(if mode == RTLText then 0 else 1), None)
  }

  /// A new LTR root holding the glyph just typed, cursor after it.
  function GlyphRoot(name: string, advance: real, position: Vec2): SortEntry
  {
    SortEntry(Glyph(None, name, advance), true, LTRText, position, true, Some(1), None)
  }

  function FreeformSort(name: string, advance: real, position: Vec2): SortEntry
  {
    SortEntry(Glyph(None, name, advance), true, Freeform, position, false, None, None)
  }

  /// `add_freeform_sort`: clear every active flag, append an active freeform sort.
  function AddedFreeform(s: seq<SortEntry>, name: string, position: Vec2, advance: real): seq<SortEntry>
  {
    Deactivated(s) + [FreeformSort(name, advance, position)]
  }

  /// `create_text_root_with_fontir`: append a placeholder root whose advance comes
  /// from the font (`fontAdvance`), or 500 without one. The states are cleared only
  /// when the buffer is empty, which changes nothing, so no other sort is touched.
  function CreatedRoot(s: seq<SortEntry>, position: Vec2, mode: LayoutMode, fontAdvance: Option<real>): seq<SortEntry>
  {
    s + [PlaceholderRoot(position, mode, OrElse(fontAdvance, FallbackPlaceholderAdvance))]
  }

  /// `create_text_root_with_glyph`: clear every active flag, append an LTR root
  /// holding the glyph.
  function CreatedRootWithGlyph(s: seq<SortEntry>, name: string, advance: real, position: Vec2): seq<SortEntry>
  {
    Deactivated(s) + [GlyphRoot(name, advance, position)]
  }

  /// `insert_sort_at_cursor`: append the glyph at the end of the buffer in its
  /// root's mode and put the root's cursor on the appended index; without a root,
  /// start a new one holding the glyph.
  function InsertedAtCursor(s: seq<SortEntry>, name: string, advance: real): seq<SortEntry>
  {
    var root := FindActiveRoot(s);
    if root.None? then CreatedRootWithGlyph(s, name, advance, TypingRootPosition)
    else WithCursor(s + [TextSort(name, advance, s[root.value].layoutMode)], root.value, |s|)
  }

  /// `delete_sort_at_cursor`: when there is a root and more than one sort, remove
  /// the last sort and move the root's cursor back by one (not below 0); the
  /// cursor is not updated when the removed sort was the root itself.
  function DeletedAtCursor(s: seq<SortEntry>): seq<SortEntry>
  {
    var root := FindActiveRoot(s);
    if root.None? || |s| <= 1 then s
    else
      var t := s[..|s| - 1];
      var c := CursorOf(s[root.value]);
      if root.value < |t| then WithCursor(t, root.value, if c > 0 then c - 1 else 0) else t
  }

  /// `insert_line_break_at_cursor`: append a line break in the root's mode and put
  /// the root's cursor after it; nothing happens without a root.
  function InsertedLineBreak(s: seq<SortEntry>): seq<SortEntry>
  {
    var root := FindActiveRoot(s);
    if root.None? then s
    else WithCursor(s + [LineBreakSort(s[root.value].layoutMode)], root.value, |s| + 1)
  }

  /// `create_text_sort_at_position`: start a root at `position` when there is
  /// none, then type the glyph.
  function CreatedTextSort(s: seq<SortEntry>, name: string, position: Vec2, advance: real, mode: LayoutMode): seq<SortEntry>
  {
    var withRoot := if FindActiveRoot(s).None? then CreatedRoot(s, position, mode, None) else s;
    InsertedAtCursor(withRoot, name, advance)
  }

  function Min(a: nat, b: nat): nat { if a <= b then a else b }

  /// `move_cursor_to`: the root's cursor becomes `position`, clamped to the line length.
  function MovedCursorTo(s: seq<SortEntry>, position: nat): seq<SortEntry>
  {
    var root := FindActiveRoot(s);
    if root.None? then s
    else WithCursor(s, root.value, Min(position, SequenceLength(s, root.value)))
  }

  /// `move_cursor_left`: one step back unless the cursor is at 0.
  function MovedCursorLeft(s: seq<SortEntry>): seq<SortEntry>
  {
    var root := FindActiveRoot(s);
    if root.None? then s
    else
      var c := CursorOf(s[root.value]);
      if c > 0 then WithCursor(s, root.value, c - 1) else s
  }

  /// `move_cursor_right`: one step forward unless the cursor is at the line length.
  function MovedCursorRight(s: seq<SortEntry>): seq<SortEntry>
  {
    var root := FindActiveRoot(s);
    if root.None? then s
    else
      var c := CursorOf(s[root.value]);
      if c < SequenceLength(s, root.value) then WithCursor(s, root.value, c + 1) else s
  }

  /// `move_cursor_up`: make the previous root the active one, cursor at the end of its line.
  function MovedCursorUp(s: seq<SortEntry>): seq<SortEntry>
  {
    var root := FindActiveRoot(s);
    if root.None? then s
    else
      var prev := LastWhere(s, IsRoot, root.value);
      if prev.None? then s
      else
        var t := s[root.value := s[root.value].(isActive := false)];
        t[prev.value := t[prev.value].(isActive := true, cursor := Some(SequenceLength(t, prev.value)))]
  }

  /// `move_cursor_down`: make the next root the active one, cursor at its start.
  function MovedCursorDown(s: seq<SortEntry>): seq<SortEntry>
  {
    var root := FindActiveRoot(s);
    if root.None? then s
    else
      var next := FirstWhere(s, IsRoot, root.value + 1);
      if next.None? then s
      else
        var t := s[root.value := s[root.value].(isActive := false)];
        t[next.value := t[next.value].(isActive := true, cursor := Some(0))]
  }

  // ---------------------------------------------------------------------------
  // Which root an operation leaves in charge

  /// The three rules of `find_active_buffer_root_index`, each of which singles out `r`.
  lemma FindActiveRootIs(s: seq<SortEntry>, r: nat)
    requires r < |s|
    requires
      (IsActiveRoot(s[r]) && forall j :: 0 <= j < r ==> !IsActiveRoot(s[j])) ||
      ((forall j :: 0 <= j < |s| ==> !IsActiveRoot(s[j])) &&
        IsCursorRoot(s[r]) && forall j :: 0 <= j < r ==> !IsCursorRoot(s[j])) ||
      ((forall j :: 0 <= j < |s| ==> !IsActiveRoot(s[j]) && !IsCursorRoot(s[j])) &&
        s[r].isBufferRoot && forall j :: r < j < |s| ==> !s[j].isBufferRoot)
    ensures FindActiveRoot(s) == Some(r)
  {
    var found := FindActiveRoot(s);
    assert found.Some?;
    if IsActiveRoot(s[r]) && forall j :: 0 <= j < r ==> !IsActiveRoot(s[j]) {
      assert IsActiveRoot(s[found.value]);
    } else if IsCursorRoot(s[r]) && forall j :: 0 <= j < |s| ==> !IsActiveRoot(s[j]) {
      assert IsCursorRoot(s[found.value]);
    } else {
      assert s[found.value].isBufferRoot;
    }
  }

  /// Giving the chosen root a cursor keeps it chosen.
  lemma RootKeptWhenCursorSet(s: seq<SortEntry>, r: nat, c: nat)
    requires FindActiveRoot(s) == Some(r)
    ensures FindActiveRoot(WithCursor(s, r, c)) == Some(r)
  {
    var t := WithCursor(s, r, c);
    assert forall j :: 0 <= j < |s| ==> IsActiveRoot(t[j]) == IsActiveRoot(s[j]) && t[j].isBufferRoot == s[j].isBufferRoot;
    assert forall j :: 0 <= j < |s| && j != r ==> IsCursorRoot(t[j]) == IsCursorRoot(s[j]);
    FindActiveRootIs(t, r);
  }

  /// Appending a sort that is not a root leaves the chosen root alone.
  lemma RootKeptWhenNonRootAppended(s: seq<SortEntry>, e: SortEntry)
    requires !e.isBufferRoot
    ensures FindActiveRoot(s + [e]) == FindActiveRoot(s)
  {
    var t := s + [e];
    var found := FindActiveRoot(s);
    if found.Some? {
      assert forall j :: 0 <= j < |s| ==> t[j] == s[j];
      FindActiveRootIs(t, found.value);
    } else {
      assert forall j :: 0 <= j < |t| ==> !t[j].isBufferRoot by {
        assert forall j :: 0 <= j < |s| ==> t[j] == s[j];
      }
    }
  }

  // ---------------------------------------------------------------------------
  // Properties of the editing operations

  /// Typing appends one glyph in its root's mode and leaves the same root in
  /// charge with the cursor on the new glyph; without a root it starts a new LTR
  /// root holding the glyph, which becomes the root in charge.
  lemma InsertAppendsToActiveRoot(s: seq<SortEntry>, name: string, advance: real)
    ensures var t := InsertedAtCursor(s, name, advance);
      |t| == |s| + 1 &&
      match FindActiveRoot(s)
      case Some(r) =>
        FindActiveRoot(t) == Some(r) && t[|s|] == TextSort(name, advance, s[r].layoutMode) &&
        t[r] == s[r].(cursor := Some(|s|)) &&
        forall i :: 0 <= i < |s| && i != r ==> t[i] == s[i]
      case None =>
        FindActiveRoot(t) == Some(|s|) && t[|s|] == GlyphRoot(name, advance, TypingRootPosition)
  {
    var t := InsertedAtCursor(s, name, advance);
    match FindActiveRoot(s)
    case Some(r) =>
      var e := TextSort(name, advance, s[r].layoutMode);
      RootKeptWhenNonRootAppended(s, e);
      RootKeptWhenCursorSet(s + [e], r, |s|);
    case None =>
      FindActiveRootIs(t, |s|);
  }

  /// Backspace right after typing a glyph removes it again; the root's cursor ends
  /// one before the end of the buffer, so when it was already there the sorts are
  /// exactly restored.
  lemma DeleteUndoesInsert(s: seq<SortEntry>, name: string, advance: real)
    requires FindActiveRoot(s).Some?
    ensures var r := FindActiveRoot(s).value;
      DeletedAtCursor(InsertedAtCursor(s, name, advance)) == WithCursor(s, r, |s| - 1)
    ensures var r := FindActiveRoot(s).value;
      s[r].cursor == Some(|s| - 1) ==> DeletedAtCursor(InsertedAtCursor(s, name, advance)) == s
  {
    var r := FindActiveRoot(s).value;
    InsertAppendsToActiveRoot(s, name, advance);
    var t := InsertedAtCursor(s, name, advance);
    assert t[..|t| - 1] == WithCursor(s, r, |s|);
  }

  /// A line with one root at its start and no other root.
  predicate SingleLine(s: seq<SortEntry>)
  {
    |s| >= 1 && s[0].isBufferRoot && forall j :: 0 < j < |s| ==> !s[j].isBufferRoot
  }

  /// Typing each glyph of `glyphs` in turn.
  function TypeAll(s: seq<SortEntry>, glyphs: seq<(string, real)>): seq<SortEntry>
    decreases |glyphs|
  {
    if |glyphs| == 0 then s else TypeAll(InsertedAtCursor(s, glyphs[0].0, glyphs[0].1), glyphs[1..])
  }

  /// Pressing backspace `n` times.
  function BackspaceTimes(s: seq<SortEntry>, n: nat): seq<SortEntry>
    decreases n
  {
    if n == 0 then s else BackspaceTimes(DeletedAtCursor(s), n - 1)
  }

  /// On a single line, typing adds one sort per glyph and keeps the root first.
  lemma {:induction false} TypingGrowsLine(s: seq<SortEntry>, glyphs: seq<(string, real)>)
    requires SingleLine(s)
    ensures SingleLine(TypeAll(s, glyphs)) && |TypeAll(s, glyphs)| == |s| + |glyphs|
    ensures TypeAll(s, glyphs)[0].rootPosition == s[0].rootPosition
    decreases |glyphs|
  {
    if |glyphs| > 0 {
      InsertAppendsToActiveRoot(s, glyphs[0].0, glyphs[0].1);
      TypingGrowsLine(InsertedAtCursor(s, glyphs[0].0, glyphs[0].1), glyphs[1..]);
    }
  }

  /// On a single line, each backspace removes one sort until only the root is left,
  /// and the root itself is never removed.
  lemma {:induction false} BackspaceStopsAtRoot(s: seq<SortEntry>, n: nat)
    requires SingleLine(s)
    ensures SingleLine(BackspaceTimes(s, n))
    ensures |BackspaceTimes(s, n)| == if |s| > n then |s| - n else 1
    decreases n
  {
    if n > 0 {
      var d := DeletedAtCursor(s);
      assert SingleLine(d) && |d| == if |s| > 1 then |s| - 1 else 1;
      BackspaceStopsAtRoot(d, n - 1);
    }
  }

  /// Typing grows the active line only when it is the last line: the glyph is
  /// appended at the end of the buffer, so with a later root it joins that root's
  /// line and the active line's length is unchanged.
  lemma InsertLengthensOnlyLastLine(s: seq<SortEntry>, name: string, advance: real)
    requires FindActiveRoot(s).Some? && IsText(s[FindActiveRoot(s).value].layoutMode)
    ensures var r := FindActiveRoot(s).value;
      var t := InsertedAtCursor(s, name, advance);
      SequenceLength(t, r) == if RunEnd(s, r + 1) == |s| then SequenceLength(s, r) + 1 else SequenceLength(s, r)
  {
    var r := FindActiveRoot(s).value;
    var e := TextSort(name, advance, s[r].layoutMode);
    var u := s + [e];
    var t := InsertedAtCursor(s, name, advance);
    assert SameLayout(t, u);
    SequenceLengthOfSameLayout(t, u, r);
    var end := RunEnd(s, r + 1);
    assert forall j :: r + 1 <= j < end ==> u[j] == s[j];
    if end == |s| {
      assert RunEnd(u, r + 1) == |s| + 1;
    } else {
      assert u[end] == s[end];
      assert RunEnd(u, r + 1) == end;
    }
  }

  /// `move_cursor_to` keeps the same root and clamps its cursor to the line.
  lemma MoveCursorToClamps(s: seq<SortEntry>, position: nat)
    requires FindActiveRoot(s).Some?
    ensures var r := FindActiveRoot(s).value;
      var t := MovedCursorTo(s, position);
      FindActiveRoot(t) == Some(r) && SameLayout(s, t) &&
      t[r].cursor.Some? && t[r].cursor.value <= SequenceLength(t, r) &&
      (position <= SequenceLength(s, r) ==> t[r].cursor == Some(position))
  {
    var r := FindActiveRoot(s).value;
    var t := MovedCursorTo(s, position);
    RootKeptWhenCursorSet(s, r, Min(position, SequenceLength(s, r)));
    SequenceLengthOfSameLayout(s, t, r);
  }

  /// Moving left then right returns the cursor where it was when it could move left.
  lemma RightUndoesLeft(s: seq<SortEntry>)
    requires FindActiveRoot(s).Some?
    requires var r := FindActiveRoot(s).value;
      s[r].cursor.Some? && 0 < s[r].cursor.value <= SequenceLength(s, r)
    ensures MovedCursorRight(MovedCursorLeft(s)) == s
  {
    var r := FindActiveRoot(s).value;
    var c := s[r].cursor.value;
    var t := WithCursor(s, r, c - 1);
    MovedLeftIs(s, r);
    CursorStepKeepsLine(s, r, c - 1);
    MovedRightIs(t, r);
    CursorSetBack(s, r, c - 1);
  }

  /// Setting the cursor of the root in charge keeps it in charge and keeps its line.
  lemma CursorStepKeepsLine(s: seq<SortEntry>, r: nat, c: nat)
    requires FindActiveRoot(s) == Some(r)
    ensures FindActiveRoot(WithCursor(s, r, c)) == Some(r)
    ensures SequenceLength(WithCursor(s, r, c), r) == SequenceLength(s, r)
  {
    RootKeptWhenCursorSet(s, r, c);
    SequenceLengthOfSameLayout(s, WithCursor(s, r, c), r);
  }

  lemma MovedLeftIs(s: seq<SortEntry>, r: nat)
    requires FindActiveRoot(s) == Some(r) && CursorOf(s[r]) > 0
    ensures MovedCursorLeft(s) == WithCursor(s, r, CursorOf(s[r]) - 1)
  {
  }

  lemma MovedRightIs(s: seq<SortEntry>, r: nat)
    requires FindActiveRoot(s) == Some(r) && CursorOf(s[r]) < SequenceLength(s, r)
    ensures MovedCursorRight(s) == WithCursor(s, r, CursorOf(s[r]) + 1)
  {
  }

  /// Setting a root's cursor back to the value it had restores the sequence.
  lemma CursorSetBack(s: seq<SortEntry>, r: nat, c: nat)
    requires r < |s| && s[r].cursor.Some?
    ensures WithCursor(WithCursor(s, r, c), r, s[r].cursor.value) == s
  {
  }

  /// Moving right then left returns the cursor where it was when it could move right.
  lemma LeftUndoesRight(s: seq<SortEntry>)
    requires FindActiveRoot(s).Some?
    requires var r := FindActiveRoot(s).value;
      s[r].cursor.Some? && s[r].cursor.value < SequenceLength(s, r)
    ensures MovedCursorLeft(MovedCursorRight(s)) == s
  {
    var r := FindActiveRoot(s).value;
    var c := s[r].cursor.value;
    RootKeptWhenCursorSet(s, r, c + 1);
    assert WithCursor(MovedCursorRight(s), r, c) == s;
  }

  /// Moving left keeps the same root and line, is a no-op at the line's
  /// start, and keeps a cursor within the line inside it.
  lemma CursorLeftStaysInLine(s: seq<SortEntry>)
    requires FindActiveRoot(s).Some?
    ensures var r := FindActiveRoot(s).value;
      var left := MovedCursorLeft(s);
      FindActiveRoot(left) == Some(r) && SequenceLength(left, r) == SequenceLength(s, r) &&
      (CursorOf(s[r]) == 0 ==> left == s) &&
      (CursorOf(s[r]) <= SequenceLength(s, r) ==> CursorOf(left[r]) <= SequenceLength(s, r))
  {
    var r := FindActiveRoot(s).value;
    var c := CursorOf(s[r]);
    if c > 0 { RootKeptWhenCursorSet(s, r, c - 1); }
    SequenceLengthOfSameLayout(s, MovedCursorLeft(s), r);
  }

  /// Moving right keeps the same root and line, is a no-op at the line's
  /// end, and keeps a cursor within the line inside it.
  lemma CursorRightStaysInLine(s: seq<SortEntry>)
    requires FindActiveRoot(s).Some?
    ensures var r := FindActiveRoot(s).value;
      var right := MovedCursorRight(s);
      FindActiveRoot(right) == Some(r) && SequenceLength(right, r) == SequenceLength(s, r) &&
      (CursorOf(s[r]) >= SequenceLength(s, r) ==> right == s) &&
      (CursorOf(s[r]) <= SequenceLength(s, r) ==> CursorOf(right[r]) <= SequenceLength(s, r))
  {
    var r := FindActiveRoot(s).value;
    var c := CursorOf(s[r]);
    if c < SequenceLength(s, r) { RootKeptWhenCursorSet(s, r, c + 1); }
    SequenceLengthOfSameLayout(s, MovedCursorRight(s), r);
  }

  /// Moving up hands the activity to the previous root, with the cursor at the end
  /// of that root's line, and that root is then the one in charge; every other
  /// cursor stays where it was.
  lemma MoveUpSelectsPreviousRoot(s: seq<SortEntry>, r: nat, p: nat)
    requires FindActiveRoot(s) == Some(r) && LastWhere(s, IsRoot, r) == Some(p)
    ensures var t := MovedCursorUp(s);
      FindActiveRoot(t) == Some(p) && SameLayout(s, t) &&
      t[p].cursor == Some(SequenceLength(t, p)) &&
      (forall i :: 0 <= i < |s| && i != p ==> t[i].isActive == (s[i].isActive && i != r)) &&
      forall i :: 0 <= i < |s| && i != p ==> t[i].cursor == s[i].cursor
  {
    var u := s[r := s[r].(isActive := false)];
    var t := MovedCursorUp(s);
    assert t == u[p := u[p].(isActive := true, cursor := Some(SequenceLength(u, p)))];
    SequenceLengthOfSameLayout(u, t, p);
    NoOtherActiveRootBefore(s, r, r + 1);
    forall j | 0 <= j < p
      ensures !IsActiveRoot(t[j])
    {
      assert t[j] == s[j];
    }
    FirstActiveRootIs(t, p);
  }

  /// Moving down hands the activity to the next root, with the cursor at the start
  /// of that root's line, and that root is then the one in charge; every other
  /// cursor stays where it was.
  lemma MoveDownSelectsNextRoot(s: seq<SortEntry>, r: nat, n: nat)
    requires FindActiveRoot(s) == Some(r) && FirstWhere(s, IsRoot, r + 1) == Some(n)
    ensures var t := MovedCursorDown(s);
      FindActiveRoot(t) == Some(n) && SameLayout(s, t) && t[n].cursor == Some(0) &&
      (forall i :: 0 <= i < |s| && i != n ==> t[i].isActive == (s[i].isActive && i != r)) &&
      forall i :: 0 <= i < |s| && i != n ==> t[i].cursor == s[i].cursor
  {
    var t := MovedCursorDown(s);
    assert t == s[r := s[r].(isActive := false)][n := s[n].(isActive := true, cursor := Some(0))];
    NoOtherActiveRootBefore(s, r, n);
    HandOverToFirst(s, r, n, Some(0), t);
  }

  /// Handing the activity to a root with no active root before it puts that
  /// root in charge.
  lemma HandOverToFirst(s: seq<SortEntry>, r: nat, n: nat, c: Option<nat>, t: seq<SortEntry>)
    requires r < |s| && n < |s| && r != n && s[n].isBufferRoot
    requires forall j :: 0 <= j < n && j != r ==> !IsActiveRoot(s[j])
    requires t == s[r := s[r].(isActive := false)][n := s[n].(isActive := true, cursor := c)]
    ensures FindActiveRoot(t) == Some(n) && SameLayout(s, t) && t[n].cursor == c
    ensures forall i :: 0 <= i < |s| && i != n ==> t[i].isActive == (s[i].isActive && i != r)
    ensures forall i :: 0 <= i < |s| && i != n ==> t[i].cursor == s[i].cursor
  {
    HandOver(s, r, n, c, t);
    FirstActiveRootIs(t, n);
  }

  /// Taking the activity from the root at `r` and giving it, with cursor `c`,
  /// to the root at `n` changes nothing else.
  lemma HandOver(s: seq<SortEntry>, r: nat, n: nat, c: Option<nat>, t: seq<SortEntry>)
    requires r < |s| && n < |s| && r != n
    requires t == s[r := s[r].(isActive := false)][n := s[n].(isActive := true, cursor := c)]
    ensures SameLayout(s, t) && t[n].cursor == c && t[n].isActive && t[r] == s[r].(isActive := false)
    ensures forall i :: 0 <= i < |s| && i != n ==> t[i].isActive == (s[i].isActive && i != r)
    ensures forall i :: 0 <= i < |s| && i != n && i != r ==> t[i] == s[i]
  {
  }

  /// The first active root is the one in charge.
  lemma FirstActiveRootIs(s: seq<SortEntry>, r: nat)
    requires r < |s| && IsActiveRoot(s[r])
    requires forall j :: 0 <= j < r ==> !IsActiveRoot(s[j])
    ensures FindActiveRoot(s) == Some(r)
  {
    FindActiveRootIs(s, r);
  }

  /// No root other than the chosen one is active anywhere before the next root.
  lemma NoOtherActiveRootBefore(s: seq<SortEntry>, r: nat, n: nat)
    requires FindActiveRoot(s) == Some(r) && r < n <= |s|
    requires forall j :: r < j < n ==> !s[j].isBufferRoot
    ensures forall j :: 0 <= j < n && j != r ==> !IsActiveRoot(s[j])
  {
    if exists i :: 0 <= i < |s| && IsActiveRoot(s[i]) {
      assert forall j :: 0 <= j < r ==> !IsActiveRoot(s[j]);
    }
  }

  /// Moving down and then up comes back to the line one started on.
  lemma UpUndoesDown(s: seq<SortEntry>, r: nat, n: nat)
    requires FindActiveRoot(s) == Some(r) && FirstWhere(s, IsRoot, r + 1) == Some(n)
    ensures FindActiveRoot(MovedCursorUp(MovedCursorDown(s))) == Some(r)
  {
    var t := MovedCursorDown(s);
    MoveDownSelectsNextRoot(s, r, n);
    assert LastWhere(t, IsRoot, n) == Some(r);
    MoveUpSelectsPreviousRoot(t, n, r);
  }

  /// After `activate_sort` at most one sort is active, the one at `p` when it
  /// exists, and nothing but the active flags changed.
  lemma ActivateLeavesOneActive(s: seq<SortEntry>, p: nat)
    ensures var t := Activated(s, p);
      |t| == |s| &&
      (forall i, j :: 0 <= i < |t| && 0 <= j < |t| && t[i].isActive && t[j].isActive ==> i == j) &&
      (p < |s| ==> t[p].isActive) && (p >= |s| ==> forall i :: 0 <= i < |t| ==> !t[i].isActive) &&
      forall i :: 0 <= i < |s| ==> t[i].(isActive := s[i].isActive) == s[i]
  {
  }

  /// A root started by typing is the only active sort and the root in charge.
  lemma RootWithGlyphTakesCharge(s: seq<SortEntry>, name: string, advance: real, position: Vec2)
    ensures var t := CreatedRootWithGlyph(s, name, advance, position);
      FindActiveRoot(t) == Some(|s|) && forall i :: 0 <= i < |s| ==> !t[i].isActive
  {
    FindActiveRootIs(CreatedRootWithGlyph(s, name, advance, position), |s|);
  }

  /// A placeholder root's cursor sits after its glyph, or before it for RTL text.
  lemma PlaceholderCursorFollowsDirection(position: Vec2, mode: LayoutMode, fontAdvance: Option<real>)
    ensures var e := CreatedRoot([], position, mode, fontAdvance)[0];
      e.isActive && e.isBufferRoot && e.rootPosition == position &&
      (e.cursor == Some(0) <==> mode == RTLText) && (e.cursor == Some(1) <==> mode != RTLText) &&
      e.kind.advanceWidth == (if fontAdvance.Some? then fontAdvance.value else 500.0)
  {
  }

  /// With no root yet, placing a text sort starts a placeholder root at the click
  /// position and types the glyph after it: the glyph is drawn one placeholder
  /// advance (500 without a font) away from the root.
  lemma FirstTextSortFollowsPlaceholder(s: seq<SortEntry>, name: string, position: Vec2, advance: real, mode: LayoutMode, metrics: FontMetrics)
    requires FindActiveRoot(s).None? && IsText(mode)
    ensures var t := CreatedTextSort(s, name, position, advance, mode);
      |t| == |s| + 2 && FindActiveRoot(t) == Some(|s|) &&
      t[|s|] == PlaceholderRoot(position, mode, 500.0).(cursor := Some(|s| + 1)) &&
      t[|s| + 1] == TextSort(name, advance, mode) &&
      FlowPosition(t, |s| + 1, metrics) ==
        Some(if mode == RTLText then Vec2(position.x - 500.0, position.y) else Vec2(position.x + 500.0, position.y))
  {
    var u := CreatedRoot(s, position, mode, None);
    FindActiveRootIs(u, |s|);
    InsertAppendsToActiveRoot(u, name, advance);
    var t := CreatedTextSort(s, name, position, advance, mode);
    FlowWithinLine(t, |s|, |s| + 1, metrics);
  }

  // ---------------------------------------------------------------------------
  // The editor's own test scenarios (src/core/state/text_editor/editor.rs:1004-1206)

  /// Backspace scenario: a root, five glyphs typed, then six backspaces; the
  /// buffer shrinks by one each time until only the root is left.
  lemma BackspaceScenario()
    ensures var s0 := CreatedRoot([], Vec2(100.0, 200.0), LTRText, None);
      var typed := TypeAll(s0, [("h", 100.0), ("e", 100.0), ("l", 100.0), ("l", 100.0), ("o", 100.0)]);
      |s0| == 1 && |typed| == 6 &&
      forall k: nat :: k <= 6 ==> |BackspaceTimes(typed, k)| == if k < 6 then 6 - k else 1
  {
    var s0 := CreatedRoot([], Vec2(100.0, 200.0), LTRText, None);
    var glyphs := [("h", 100.0), ("e", 100.0), ("l", 100.0), ("l", 100.0), ("o", 100.0)];
    TypingGrowsLine(s0, glyphs);
    forall k: nat | k <= 6
      ensures |BackspaceTimes(TypeAll(s0, glyphs), k)| == if k < 6 then 6 - k else 1
    {
      BackspaceStopsAtRoot(TypeAll(s0, glyphs), k);
    }
  }

  /// The sorts of the flow scenario below: the placeholder root, its cursor
  /// after the last glyph, and the three typed glyphs.
  function FlowScenarioSorts(): seq<SortEntry>
  {
    [PlaceholderRoot(Vec2(100.0, 200.0), LTRText, FallbackPlaceholderAdvance).(cursor := Some(3)),
     TextSort("a", 100.0, LTRText), TextSort("b", 150.0, LTRText), TextSort("c", 120.0, LTRText)]
  }

  /// Typing after an active root at the front appends the glyph in the
  /// root's mode and moves the root's cursor onto it.
  lemma TypeAfterFirstRoot(s: seq<SortEntry>, name: string, advance: real)
    requires |s| > 0 && IsActiveRoot(s[0])
    ensures InsertedAtCursor(s, name, advance) ==
      [s[0].(cursor := Some(|s|))] + s[1..] + [TextSort(name, advance, s[0].layoutMode)]
  {
    FirstActiveRootIs(s, 0);
  }

  /// Typing three glyphs after a fresh root appends them in order.
  lemma FlowScenarioTyping()
    ensures TypeAll(CreatedRoot([], Vec2(100.0, 200.0), LTRText, None), [("a", 100.0), ("b", 150.0), ("c", 120.0)])
      == FlowScenarioSorts()
  {
    var root := PlaceholderRoot(Vec2(100.0, 200.0), LTRText, FallbackPlaceholderAdvance);
    var a, b, c := TextSort("a", 100.0, LTRText), TextSort("b", 150.0, LTRText), TextSort("c", 120.0, LTRText);
    var s0 := CreatedRoot([], Vec2(100.0, 200.0), LTRText, None);
    assert s0 == [root];
    TypeAfterFirstRoot(s0, "a", 100.0);
    var s1 := InsertedAtCursor(s0, "a", 100.0);
    assert s1 == [root.(cursor := Some(1)), a];
    TypeAfterFirstRoot(s1, "b", 150.0);
    var s2 := InsertedAtCursor(s1, "b", 150.0);
    assert s2 == [root.(cursor := Some(2)), a, b];
    TypeAfterFirstRoot(s2, "c", 120.0);
    var s3 := InsertedAtCursor(s2, "c", 120.0);
    assert s3 == FlowScenarioSorts();
    calc {
      TypeAll(s0, [("a", 100.0), ("b", 150.0), ("c", 120.0)]);
      { assert [("a", 100.0), ("b", 150.0), ("c", 120.0)][1..] == [("b", 150.0), ("c", 120.0)]; }
      TypeAll(s1, [("b", 150.0), ("c", 120.0)]);
      { assert [("b", 150.0), ("c", 120.0)][1..] == [("c", 120.0)]; }
      TypeAll(s2, [("c", 120.0)]);
      { assert [("c", 120.0)][1..] == []; }
      TypeAll(s3, []);
    }
  }

  /// Flow scenario: a root at (100, 200) with glyphs of advance 100, 150 and 120
  /// typed after it. The root's own placeholder advance (500 without a font) is
  /// part of the flow, so the first two glyphs land at x = 600 and x = 700.
  lemma FlowScenario()
    ensures var s0 := CreatedRoot([], Vec2(100.0, 200.0), LTRText, None);
      var s := TypeAll(s0, [("a", 100.0), ("b", 150.0), ("c", 120.0)]);
      FlowPosition(s, 0, DefaultMetrics) == Some(Vec2(100.0, 200.0)) &&
      FlowPosition(s, 1, DefaultMetrics) == Some(Vec2(600.0, 200.0)) &&
      FlowPosition(s, 2, DefaultMetrics) == Some(Vec2(700.0, 200.0))
  {
    FlowScenarioTyping();
    var s := FlowScenarioSorts();
    assert IsTextRoot(s[0]);
    FlowSumsAdvances(s, 0, 1, DefaultMetrics);
    FlowSumsAdvances(s, 0, 2, DefaultMetrics);
  }

  /// Activation scenario: a freeform sort, then a text sort placed at (300, 400),
  /// then a text root at (500, 600). Placing the text sort starts a placeholder
  /// root without clearing the freeform sort's activity and appends the glyph after
  /// it; the later root again clears nothing. The buffer holds three and then four
  /// sorts, and the first sorts stay active.
  lemma ActivationScenario()
    ensures var s1 := AddedFreeform([], "a", Vec2(100.0, 200.0), 500.0);
      var s2 := CreatedTextSort(s1, "b", Vec2(300.0, 400.0), 600.0, LTRText);
      var s3 := CreatedRoot(s2, Vec2(500.0, 600.0), LTRText, None);
      |s1| == 1 && s1[0].isActive && s1[0].rootPosition == Vec2(100.0, 200.0) &&
      |s2| == 3 && s2[0].isActive && s2[1].isActive && s2[1].isBufferRoot &&
      s2[1].rootPosition == Vec2(300.0, 400.0) && s2[2].kind.glyphName == "b" && !s2[2].isActive &&
      |s3| == 4 && s3[0].isActive && s3[1].isActive && s3[3].isActive
  {
    var s1 := AddedFreeform([], "a", Vec2(100.0, 200.0), 500.0);
    assert FindActiveRoot(s1).None?;
    FirstTextSortFollowsPlaceholder(s1, "b", Vec2(300.0, 400.0), 600.0, LTRText, DefaultMetrics);
  }

  // ---------------------------------------------------------------------------
  // The editor state

  /// `TextEditorState`: every sort of the design in one gap buffer.
  class TextEditorState {
    const buffer: SortBuffer<SortEntry>

    ghost predicate Valid()
      reads this, buffer
    {
      buffer.Valid()
    }

    ghost function Sorts(): seq<SortEntry>
      reads this, buffer, buffer.buf
      requires Valid()
    {
      buffer.Contents()
    }

    /// `TextEditorState::default()`: no sorts.
    constructor ()
      ensures Valid() && fresh(buffer) && fresh(buffer.buf) && Sorts() == []
    {
      buffer := new SortBuffer(DefaultEntry);
    }

    /// `get_text_sorts`: every LTR or RTL sort with its index, in buffer order.
    method GetTextSorts() returns (r: seq<(nat, SortEntry)>)
      requires Valid()
      ensures forall k :: 0 <= k < |r| ==>
        r[k].0 < |Sorts()| && r[k].1 == Sorts()[r[k].0] && IsText(r[k].1.layoutMode)
      ensures forall k, l :: 0 <= k < l < |r| ==> r[k].0 < r[l].0
      ensures forall i :: 0 <= i < |Sorts()| && IsText(Sorts()[i].layoutMode) ==>
        exists k :: 0 <= k < |r| && r[k].0 == i
    {
      r := [];
      var n := buffer.Len();
      for i := 0 to n
        invariant forall k :: 0 <= k < |r| ==>
          r[k].0 < i && r[k].1 == Sorts()[r[k].0] && IsText(r[k].1.layoutMode)
        invariant forall k, l :: 0 <= k < l < |r| ==> r[k].0 < r[l].0
        invariant forall j :: 0 <= j < i && IsText(Sorts()[j].layoutMode) ==>
          exists k :: 0 <= k < |r| && r[k].0 == j
      {
        var e := buffer.Get(i).value;
        if IsText(e.layoutMode) {
          ghost var before := r;
          r := r + [(i, e)];
          assert forall k :: 0 <= k < |before| ==> r[k] == before[k];
          assert r[|r| - 1].0 == i;
        }
      }
    }

    /// `get_sort_at_position`: the sort at a logical position, none past the end.
    method GetSortAtPosition(position: nat) returns (r: Option<SortEntry>)
      requires Valid()
      ensures r == if position < |Sorts()| then Some(Sorts()[position]) else None
    {
      r := buffer.Get(position);
    }

    /// `get_active_sort`: the first active sort, if any.
    method GetActiveSort() returns (r: Option<(nat, SortEntry)>)
      requires Valid()
      ensures r.Some? ==> r.value.0 < |Sorts()| && r.value.1 == Sorts()[r.value.0] && r.value.1.isActive
      ensures r.Some? ==> forall j :: 0 <= j < r.value.0 ==> !Sorts()[j].isActive
      ensures r.None? <==> forall j :: 0 <= j < |Sorts()| ==> !Sorts()[j].isActive
    {
      var n := buffer.Len();
      for i := 0 to n
        invariant forall j :: 0 <= j < i ==> !Sorts()[j].isActive
      {
        var e := buffer.Get(i).value;
        if e.isActive {
          return Some((i, e));
        }
      }
      return None;
    }

    /// `find_active_buffer_root_index`, proved against `FindActiveRoot`.
    method FindActiveBufferRootIndex() returns (r: Option<nat>)
      requires Valid()
      ensures r == FindActiveRoot(Sorts())
    {
      var n := buffer.Len();
      for i := 0 to n
        invariant forall j :: 0 <= j < i ==> !IsActiveRoot(Sorts()[j])
      {
        var e := buffer.Get(i).value;
        if e.isBufferRoot && e.isActive {
          FindActiveRootIs(Sorts(), i);
          return Some(i);
        }
      }
      for i := 0 to n
        invariant forall j :: 0 <= j < i ==> !IsCursorRoot(Sorts()[j])
      {
        var e := buffer.Get(i).value;
        if e.isBufferRoot && e.cursor.Some? {
          FindActiveRootIs(Sorts(), i);
          return Some(i);
        }
      }
      var i := n;
      while i > 0
        invariant i <= n == |Sorts()|
        invariant forall j :: i <= j < n ==> !Sorts()[j].isBufferRoot
      {
        var e := buffer.Get(i - 1).value;
        if e.isBufferRoot {
          FindActiveRootIs(Sorts(), i - 1);
          return Some(i - 1);
        }
        i := i - 1;
      }
      return None;
    }

    /// `get_buffer_sequence_length`, proved against `SequenceLength`.
    method GetBufferSequenceLength(root: nat) returns (n: nat)
      requires Valid()
      ensures n == SequenceLength(Sorts(), root)
    {
      n := 0;
      var len := buffer.Len();
      var i := root;
      while i < len
        invariant root <= i
        invariant i > root ==> i <= len && IsText(Sorts()[root].layoutMode)
        invariant forall j :: root < j < i ==> !EndsRun(Sorts()[j])
        invariant n == if i > root then i - root - (if IsPlaceholder(Sorts()[root]) then 1 else 0) else 0
      {
        var e := buffer.Get(i).value;
        if (i > root && e.isBufferRoot) || !IsText(e.layoutMode) {
          break;
        }
        if !(i == root && e.kind.Glyph? && e.kind.glyphName == "a" && e.isBufferRoot) {
          n := n + 1;
        }
        i := i + 1;
      }
    }

    /// `get_text_sort_flow_position`, proved against `FlowPosition`.
    method GetTextSortFlowPosition(pos: nat, metrics: FontMetrics) returns (r: Option<Vec2>)
      requires Valid()
      ensures r == FlowPosition(Sorts(), pos, metrics)
    {
      var entry := buffer.Get(pos);
      if entry.None? || !IsText(entry.value.layoutMode) {
        return None;
      }
      ghost var s := Sorts();
      var rootIndex: Option<nat> := None;
      var i: nat := pos + 1;
      while i > 0
        invariant i <= pos + 1 <= |s|
        invariant forall j :: i <= j <= pos ==> !IsTextRoot(s[j])
      {
        var candidate := buffer.Get(i - 1).value;
        if candidate.isBufferRoot && IsText(candidate.layoutMode) {
          rootIndex := Some(i - 1);
          break;
        }
        i := i - 1;
      }
      if rootIndex.None? {
        return None;
      }
      var root := rootIndex.value;
      assert LastWhere(s, IsTextRoot, pos + 1) == Some(root);
      var rootPosition := buffer.Get(root).value.rootPosition;
      if pos == root {
        return Some(rootPosition);
      }
      var lineHeight := LineHeight(metrics);
      var offset := Zero;
      var j := root;
      while j < pos
        invariant root <= j <= pos
        invariant forall k :: root < k < j ==> !s[k].isBufferRoot
        invariant offset == FlowOffset(s, root, j, lineHeight)
      {
        var e := buffer.Get(j).value;
        if j != root && e.isBufferRoot {
          break;
        }
        if j == root || IsText(e.layoutMode) {
          match e.kind
          case LineBreak =>
            offset := Vec2(0.0, offset.y - lineHeight);
          case Glyph(_, _, advance) =>
            if e.layoutMode == RTLText {
              offset := Vec2(offset.x - advance, offset.y);
            } else {
              offset := Vec2(offset.x + advance, offset.y);
            }
        }
        j := j + 1;
      }
      assert j == FlowStop(s, root, pos);
      r := Some(Vec2(rootPosition.x + offset.x, rootPosition.y + offset.y));
    }

    /// `get_sort_visual_position`: a text root or a freeform sort is drawn at its
    /// stored position; any other text sort flows from its root under the default
    /// font metrics.
    method GetSortVisualPosition(pos: nat) returns (r: Option<Vec2>)
      requires Valid()
      ensures r == VisualPosition(Sorts(), pos)
    {
      var entry := buffer.Get(pos);
      if entry.None? {
        return None;
      }
      var e := entry.value;
      if IsText(e.layoutMode) {
        if e.isBufferRoot {
          r := Some(e.rootPosition);
        } else {
          r := GetTextSortFlowPosition(pos, DefaultMetrics);
        }
      } else {
        r := Some(e.rootPosition);
      }
    }
  
    /// `clear_active_state`: no sort stays active.
    method ClearActiveState()
      requires Valid()
      modifies buffer.buf
      ensures Valid() && Sorts() == Deactivated(old(Sorts()))
    {
      ghost var s := Sorts();
      var n := buffer.Len();
      for i := 0 to n
        invariant Valid() && |Sorts()| == n
        invariant forall k :: 0 <= k < i ==> Sorts()[k] == s[k].(isActive := false)
        invariant forall k :: i <= k < n ==> Sorts()[k] == s[k]
      {
        var e := buffer.Get(i).value;
        var ok := buffer.SetAt(i, e.(isActive := false));
      }
    }

    /// `clear_all_states`: the same loop as `clear_active_state` in this editor.
    method ClearAllStates()
      requires Valid()
      modifies buffer.buf
      ensures Valid() && Sorts() == Deactivated(old(Sorts()))
    {
      ClearActiveState();
    }

    /// `activate_sort`: deactivate every sort, then activate the one at `position`;
    /// reports whether it exists.
    method ActivateSort(position: nat) returns (ok: bool)
      requires Valid()
      modifies buffer.buf
      ensures Valid() && ok == (position < |old(Sorts())|)
      ensures Sorts() == Activated(old(Sorts()), position)
    {
      ClearActiveState();
      var e := buffer.Get(position);
      if e.Some? {
        ok := buffer.SetAt(position, e.value.(isActive := true));
      } else {
        ok := false;
      }
    }

    /// `add_freeform_sort`.
    method AddFreeformSort(name: string, position: Vec2, advance: real)
      requires Valid()
      modifies buffer, buffer.buf
      ensures Valid() && (buffer.buf == old(buffer.buf) || fresh(buffer.buf))
      ensures Sorts() == AddedFreeform(old(Sorts()), name, position, advance)
    {
      ClearAllStates();
      buffer.Insert(buffer.Len(), FreeformSort(name, advance, position));
    }

    /// `create_text_root_with_fontir` (and `create_text_root`, which has no font:
    /// `fontAdvance` is None). `fontAdvance` is the font's advance of "a".
    method CreateTextRoot(position: Vec2, mode: LayoutMode, fontAdvance: Option<real>)
      requires Valid()
      modifies buffer, buffer.buf
      ensures Valid() && (buffer.buf == old(buffer.buf) || fresh(buffer.buf))
      ensures Sorts() == CreatedRoot(old(Sorts()), position, mode, fontAdvance)
    {
      if buffer.IsEmpty() {
        ClearAllStates();
      }
      var advance := if fontAdvance.Some? then fontAdvance.value else FallbackPlaceholderAdvance;
      buffer.Insert(buffer.Len(), PlaceholderRoot(position, mode, advance));
    }

    /// `create_text_root_with_glyph`.
    method CreateTextRootWithGlyph(name: string, advance: real, position: Vec2)
      requires Valid()
      modifies buffer, buffer.buf
      ensures Valid() && (buffer.buf == old(buffer.buf) || fresh(buffer.buf))
      ensures Sorts() == CreatedRootWithGlyph(old(Sorts()), name, advance, position)
    {
      ClearAllStates();
      buffer.Insert(buffer.Len(), GlyphRoot(name, advance, position));
    }

    /// Appends `e` and sets the root's cursor to `cursor`: the shared tail of
    /// typing a glyph and typing a line break.
    method AppendWithCursor(root: nat, e: SortEntry, cursor: nat)
      requires Valid() && root < |Sorts()|
      modifies buffer, buffer.buf
      ensures Valid() && (buffer.buf == old(buffer.buf) || fresh(buffer.buf))
      ensures Sorts() == WithCursor(old(Sorts()) + [e], root, cursor)
    {
      ghost var s := Sorts();
      buffer.Insert(buffer.Len(), e);
      assert Sorts() == s + [e];
      var rootSort := buffer.Get(root).value;
      var ok := buffer.SetAt(root, rootSort.(cursor := Some(cursor)));
    }

    /// `insert_sort_at_cursor`.
    method InsertSortAtCursor(name: string, advance: real)
      requires Valid()
      modifies buffer, buffer.buf
      ensures Valid() && (buffer.buf == old(buffer.buf) || fresh(buffer.buf))
      ensures Sorts() == InsertedAtCursor(old(Sorts()), name, advance)
    {
      var root := FindActiveBufferRootIndex();
      if root.Some? {
        var mode := buffer.Get(root.value).value.layoutMode;
        // the cursor lands on the new glyph's index, one past the old end
        AppendWithCursor(root.value, TextSort(name, advance, mode), buffer.Len());
      } else {
        CreateTextRootWithGlyph(name, advance, TypingRootPosition);
      }
    }

    /// Removes the last sort, then sets the root's cursor to `cursor` if the
    /// root is still there: the tail of a backspace.
    method DropLastWithCursor(root: nat, cursor: nat)
      requires Valid() && |Sorts()| > 0
      modifies buffer, buffer.buf
      ensures Valid() && buffer.buf == old(buffer.buf)
      ensures var t := old(Sorts())[..|old(Sorts())| - 1];
        Sorts() == if root < |t| then WithCursor(t, root, cursor) else t
    {
      ghost var s := Sorts();
      var deleted := buffer.Delete(buffer.Len() - 1);
      assert Sorts() == s[..|s| - 1];
      var rootSort := buffer.Get(root);
      if rootSort.Some? {
        var ok := buffer.SetAt(root, rootSort.value.(cursor := Some(cursor)));
      }
    }

    /// `delete_sort_at_cursor`.
    method DeleteSortAtCursor()
      requires Valid()
      modifies buffer, buffer.buf
      ensures Valid() && buffer.buf == old(buffer.buf)
      ensures Sorts() == DeletedAtCursor(old(Sorts()))
    {
      var root := FindActiveBufferRootIndex();
      if root.Some? {
        var cursor := CursorOf(buffer.Get(root.value).value);
        var len := buffer.Len();
        if len > 1 {
          DropLastWithCursor(root.value, if cursor > 0 then cursor - 1 else 0);
        }
      }
    }

    /// `insert_line_break_at_cursor`.
    method InsertLineBreakAtCursor()
      requires Valid()
      modifies buffer, buffer.buf
      ensures Valid() && (buffer.buf == old(buffer.buf) || fresh(buffer.buf))
      ensures Sorts() == InsertedLineBreak(old(Sorts()))
    {
      var root := FindActiveBufferRootIndex();
      if root.Some? {
        var mode := buffer.Get(root.value).value.layoutMode;
        AppendWithCursor(root.value, LineBreakSort(mode), buffer.Len() + 1);
      }
    }

    /// `create_text_sort_at_position`.
    method CreateTextSortAtPosition(name: string, position: Vec2, advance: real, mode: LayoutMode)
      requires Valid()
      modifies buffer, buffer.buf
      ensures Valid() && (buffer.buf == old(buffer.buf) || fresh(buffer.buf))
      ensures Sorts() == CreatedTextSort(old(Sorts()), name, position, advance, mode)
    {
      var root := FindActiveBufferRootIndex();
      if root.None? {
        CreateTextRoot(position, mode, None);
      }
      InsertSortAtCursor(name, advance);
    }

    /// `move_cursor_to`.
    method MoveCursorTo(position: nat)
      requires Valid()
      modifies buffer.buf
      ensures Valid() && Sorts() == MovedCursorTo(old(Sorts()), position)
    {
      var root := FindActiveBufferRootIndex();
      if root.Some? {
        var maxPosition := GetBufferSequenceLength(root.value);
        var rootSort := buffer.Get(root.value).value;
        var clamped := if position <= maxPosition then position else maxPosition;
        var ok := buffer.SetAt(root.value, rootSort.(cursor := Some(clamped)));
      }
    }

    /// `move_cursor_left`.
    method MoveCursorLeft()
      requires Valid()
      modifies buffer.buf
      ensures Valid() && Sorts() == MovedCursorLeft(old(Sorts()))
    {
      var root := FindActiveBufferRootIndex();
      if root.Some? {
        var rootSort := buffer.Get(root.value).value;
        var current := CursorOf(rootSort);
        if current > 0 {
          var ok := buffer.SetAt(root.value, rootSort.(cursor := Some(current - 1)));
        }
      }
    }

    /// `move_cursor_right`.
    method MoveCursorRight()
      requires Valid()
      modifies buffer.buf
      ensures Valid() && Sorts() == MovedCursorRight(old(Sorts()))
    {
      var root := FindActiveBufferRootIndex();
      if root.Some? {
        var maxPosition := GetBufferSequenceLength(root.value);
        var rootSort := buffer.Get(root.value).value;
        var current := CursorOf(rootSort);
        if current < maxPosition {
          var ok := buffer.SetAt(root.value, rootSort.(cursor := Some(current + 1)));
        }
      }
    }

    /// Clears the active flag of the sort at `index`.
    method Deactivate(index: nat)
      requires Valid() && index < |Sorts()|
      modifies buffer.buf
      ensures Valid() && Sorts() == old(Sorts())[index := old(Sorts())[index].(isActive := false)]
    {
      var e := buffer.Get(index).value;
      var ok := buffer.SetAt(index, e.(isActive := false));
    }

    /// Makes the sort at `index` active with its cursor at `cursor`.
    method ActivateWithCursor(index: nat, cursor: nat)
      requires Valid() && index < |Sorts()|
      modifies buffer.buf
      ensures Valid()
      ensures Sorts() == old(Sorts())[index := old(Sorts())[index].(isActive := true, cursor := Some(cursor))]
    {
      var e := buffer.Get(index).value;
      var ok := buffer.SetAt(index, e.(isActive := true, cursor := Some(cursor)));
    }

    /// `move_cursor_up`: search backwards for the previous root.
    method MoveCursorUp()
      requires Valid()
      modifies buffer.buf
      ensures Valid() && Sorts() == MovedCursorUp(old(Sorts()))
    {
      var current := FindActiveBufferRootIndex();
      if current.None? {
        return;
      }
      ghost var s := Sorts();
      var i: nat := current.value;
      while i > 0
        invariant i <= current.value < |s|
        invariant Sorts() == s
        invariant forall j :: i <= j < current.value ==> !s[j].isBufferRoot
      {
        var sort := buffer.Get(i - 1).value;
        if sort.isBufferRoot {
          assert LastWhere(s, IsRoot, current.value) == Some(i - 1);
          Deactivate(current.value);
          var length := GetBufferSequenceLength(i - 1);
          ActivateWithCursor(i - 1, length);
          return;
        }
        i := i - 1;
      }
    }

    /// `move_cursor_down`: search forwards for the next root.
    method MoveCursorDown()
      requires Valid()
      modifies buffer.buf
      ensures Valid() && Sorts() == MovedCursorDown(old(Sorts()))
    {
      var current := FindActiveBufferRootIndex();
      if current.None? {
        return;
      }
      ghost var s := Sorts();
      var n := buffer.Len();
      for i := current.value + 1 to n
        invariant Sorts() == s
        invariant forall j :: current.value + 1 <= j < i ==> !s[j].isBufferRoot
      {
        var sort := buffer.Get(i).value;
        if sort.isBufferRoot {
          assert FirstWhere(s, IsRoot, current.value + 1) == Some(i);
          Deactivate(current.value);
          ActivateWithCursor(i, 0);
          return;
        }
      }
    }
  }
}
