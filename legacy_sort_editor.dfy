/// The earlier text editor (src/core/state/text_editor.rs): the same gap buffer of
/// sorts and the same buffer roots, but typing inserts at `root + cursor`,
/// backspace removes the sort left of the cursor, the first glyph typed replaces
/// an unnamed placeholder root, and roots are chosen by their selection flag.
module LegacySortEditor {
  import opened Wrappers
  import opened DesignSpace
  import opened Search
  import opened GapBuffer

  datatype LayoutMode = Text | Freeform

  datatype SortKind = Glyph(glyphName: string, advanceWidth: real) | LineBreak

  datatype SortEntry = SortEntry(
    kind: SortKind,
    isActive: bool,
    isSelected: bool,
    layoutMode: LayoutMode,
    rootPosition: Vec2,
    bufferIndex: Option<nat>,
    isBufferRoot: bool,
    cursor: Option<nat>)

  /// `SortEntry::default()`: an unnamed zero-width text glyph.
  const DefaultEntry := SortEntry(Glyph("", 0.0), false, false, Text, Zero, None, false, None)

  /// Where a root created by typing without any root is placed.
  const TypingRootPosition := Vec2(500.0, 0.0)

  predicate IsRoot(e: SortEntry) { e.isBufferRoot }
  predicate IsSelectedRoot(e: SortEntry) { e.isBufferRoot && e.isSelected }
  predicate IsCursorRoot(e: SortEntry) { e.isBufferRoot && e.cursor.Some? }
  predicate IsTextRoot(e: SortEntry) { e.isBufferRoot && e.layoutMode == Text }
  predicate IsTextSort(e: SortEntry) { e.layoutMode == Text }
  predicate IsFreeformSort(e: SortEntry) { e.layoutMode == Freeform }
  predicate IsSelectedSort(e: SortEntry) { e.isSelected }
  /// A sort that ends the text run of the root before it.
  predicate EndsRun(e: SortEntry) { e.isBufferRoot || e.layoutMode != Text }
  /// The unnamed glyph a root is created with.
  predicate IsUnnamedGlyph(e: SortEntry) { e.kind.Glyph? && e.kind.glyphName == "" }

  function CursorOf(e: SortEntry): nat { if e.cursor.Some? then e.cursor.value else 0 }

  // ---------------------------------------------------------------------------
  // Root lookup and sequence length

  /// The root that typing goes to: the first selected root, else the first root
  /// holding a cursor, else the last root; None when there is no root.
  function FindActiveRoot(s: seq<SortEntry>): (r: Option<nat>)
    ensures r.Some? ==> r.value < |s| && s[r.value].isBufferRoot
  {
    var selected := FirstSelectedRoot(s, 0);
    if selected.Some? then selected
    else
      var withCursor := FirstCursorRoot(s, 0);
      if withCursor.Some? then withCursor
      else LastRoot(s, |s|)
  }

  /// Index of the first selected root at or after `from`.
  function FirstSelectedRoot(s: seq<SortEntry>, from: nat): (r: Option<nat>)
    requires from <= |s|
    ensures r.Some? ==> from <= r.value < |s| && IsSelectedRoot(s[r.value])
    decreases |s| - from
  {
    if from == |s| then None
    else if IsSelectedRoot(s[from]) then Some(from)
    else FirstSelectedRoot(s, from + 1)
  }

  /// Index of the first root holding a cursor at or after `from`.
  function FirstCursorRoot(s: seq<SortEntry>, from: nat): (r: Option<nat>)
    requires from <= |s|
    ensures r.Some? ==> from <= r.value < |s| && IsCursorRoot(s[r.value])
    decreases |s| - from
  {
    if from == |s| then None
    else if IsCursorRoot(s[from]) then Some(from)
    else FirstCursorRoot(s, from + 1)
  }

  /// Index of the last root before `upTo`.
  function LastRoot(s: seq<SortEntry>, upTo: nat): (r: Option<nat>)
    requires upTo <= |s|
    ensures r.Some? ==> r.value < upTo && s[r.value].isBufferRoot
  {
    if upTo == 0 then None
    else if s[upTo - 1].isBufferRoot then Some(upTo - 1)
    else LastRoot(s, upTo - 1)
  }

  /// The three searches are the generic ones specialised.
  lemma {:induction false} SearchesAgree(s: seq<SortEntry>, from: nat, upTo: nat)
    requires from <= |s| && upTo <= |s|
    ensures FirstSelectedRoot(s, from) == FirstWhere(s, IsSelectedRoot, from)
    ensures FirstCursorRoot(s, from) == FirstWhere(s, IsCursorRoot, from)
    ensures LastRoot(s, upTo) == LastWhere(s, IsRoot, upTo)
    decreases |s| - from + upTo
  {
    if from < |s| {
      SearchesAgree(s, from + 1, upTo);
    }
    if upTo > 0 {
      SearchesAgree(s, from, upTo - 1);
    }
  }

  /// The three rules of `find_active_buffer_root_index`: a selected root wins,
  /// then a root holding a cursor, then the last root.
  lemma FindActiveRootRules(s: seq<SortEntry>)
    ensures FindActiveRoot(s).None? <==> forall i :: 0 <= i < |s| ==> !s[i].isBufferRoot
    ensures var r := FindActiveRoot(s);
      ((exists i :: 0 <= i < |s| && IsSelectedRoot(s[i])) ==>
        r.Some? && IsSelectedRoot(s[r.value]) && forall j :: 0 <= j < r.value ==> !IsSelectedRoot(s[j])) &&
      ((forall i :: 0 <= i < |s| ==> !IsSelectedRoot(s[i])) && (exists i :: 0 <= i < |s| && IsCursorRoot(s[i])) ==>
        r.Some? && IsCursorRoot(s[r.value]) && forall j :: 0 <= j < r.value ==> !IsCursorRoot(s[j])) &&
      ((forall i :: 0 <= i < |s| ==> !IsSelectedRoot(s[i]) && !IsCursorRoot(s[i])) && r.Some? ==>
        forall j :: r.value < j < |s| ==> !s[j].isBufferRoot)
  {
    SearchesAgree(s, 0, |s|);
  }

  /// The three rules of `find_active_buffer_root_index`, each of which singles out `r`.
  lemma FindActiveRootIs(s: seq<SortEntry>, r: nat)
    requires r < |s|
    requires
      (IsSelectedRoot(s[r]) && forall j :: 0 <= j < r ==> !IsSelectedRoot(s[j])) ||
      ((forall j :: 0 <= j < |s| ==> !IsSelectedRoot(s[j])) &&
        IsCursorRoot(s[r]) && forall j :: 0 <= j < r ==> !IsCursorRoot(s[j])) ||
      ((forall j :: 0 <= j < |s| ==> !IsSelectedRoot(s[j]) && !IsCursorRoot(s[j])) &&
        s[r].isBufferRoot && forall j :: r < j < |s| ==> !s[j].isBufferRoot)
    ensures FindActiveRoot(s) == Some(r)
  {
    FindActiveRootRules(s);
    var found := FindActiveRoot(s);
    assert found.Some?;
    if IsSelectedRoot(s[r]) && forall j :: 0 <= j < r ==> !IsSelectedRoot(s[j]) {
      assert IsSelectedRoot(s[found.value]);
    } else if IsCursorRoot(s[r]) && forall j :: 0 <= j < |s| ==> !IsSelectedRoot(s[j]) {
      assert IsCursorRoot(s[found.value]);
    } else {
      assert s[found.value].isBufferRoot;
    }
  }

  /// The first selected root is the root in charge.
  lemma FirstSelectedRootIs(s: seq<SortEntry>, r: nat)
    requires r < |s| && IsSelectedRoot(s[r])
    requires forall j :: 0 <= j < r ==> !IsSelectedRoot(s[j])
    ensures FindActiveRoot(s) == Some(r)
  {
    FindActiveRootIs(s, r);
  }

  /// Exclusive end of the text run whose first entry after the root is `from`.
  function RunEnd(s: seq<SortEntry>, from: nat): (e: nat)
    requires from <= |s|
    ensures from <= e <= |s|
    ensures forall j :: from <= j < e ==> !EndsRun(s[j])
    ensures e < |s| ==> EndsRun(s[e])
  {
    var stop := FirstWhere(s, EndsRun, from);
    if stop.Some? then stop.value else |s|
  }

  /// Number of sorts in the line of the root at `root`: the sorts up to the next
  /// root or non-text sort, not counting an unnamed placeholder glyph at the root.
  function SequenceLength(s: seq<SortEntry>, root: nat): (n: nat)
    ensures root >= |s| || s[root].layoutMode != Text ==> n == 0
    ensures root < |s| && s[root].layoutMode == Text ==>
      n == RunEnd(s, root + 1) - root - (if IsUnnamedGlyph(s[root]) then 1 else 0)
  {
    if root >= |s| || s[root].layoutMode != Text then 0
    else RunEnd(s, root + 1) - root - (if IsUnnamedGlyph(s[root]) then 1 else 0)
  }

  /// Entries that agree on everything that lays out a line (kind, mode, root flag).
  predicate SameLayout(a: seq<SortEntry>, b: seq<SortEntry>)
  {
    |a| == |b| &&
    forall i :: 0 <= i < |a| ==>
      a[i].kind == b[i].kind && a[i].layoutMode == b[i].layoutMode && a[i].isBufferRoot == b[i].isBufferRoot
  }

  /// Sequence length ignores cursors, activity and selection.
  lemma SequenceLengthOfSameLayout(a: seq<SortEntry>, b: seq<SortEntry>, root: nat)
    requires SameLayout(a, b)
    ensures SequenceLength(a, root) == SequenceLength(b, root)
  {
  }

  // ---------------------------------------------------------------------------
  // Text flow

  /// Line height of this editor: ascender (1024 without one) minus descender
  /// (-256 without one), plus the leading.
  function LineHeight(m: FontMetrics, leading: real): real
  {
    (OrElse(m.ascender, 1024.0) - OrElse(m.descender, -256.0)) + leading
  }

  /// The root's own advance counts only when it is a named glyph.
  function RootAdvance(e: SortEntry): real
  {
    if e.kind.Glyph? && e.kind.glyphName != "" then e.kind.advanceWidth else 0.0
  }

  /// Offset of the sort at `hi` from its root at `root`: the root's advance, then
  /// every sort in between, whatever its mode, adds its advance; a line break
  /// returns to x = 0 one line lower.
  function FlowOffset(s: seq<SortEntry>, root: nat, hi: nat, lineHeight: real): Vec2
    requires root < hi <= |s|
    decreases hi - root
  {
    if hi == root + 1 then Vec2(RootAdvance(s[root]), 0.0)
    else
      var before := FlowOffset(s, root, hi - 1, lineHeight);
      match s[hi - 1].kind
      case Glyph(_, advance) => Vec2(before.x + advance, before.y)
      case LineBreak => Vec2(0.0, before.y - lineHeight)
  }

  /// Position of the text sort at `pos`, measured from the nearest text root at or
  /// before it; None when `pos` is out of range, not a text sort, or has no root.
  function FlowPosition(s: seq<SortEntry>, pos: nat, metrics: FontMetrics, leading: real): (r: Option<Vec2>)
    ensures r.Some? ==> pos < |s| && s[pos].layoutMode == Text
    ensures pos < |s| && IsTextRoot(s[pos]) ==> r == Some(s[pos].rootPosition)
    ensures pos < |s| && s[pos].layoutMode == Text ==> (r.None? <==> forall j :: 0 <= j <= pos ==> !IsTextRoot(s[j]))
  {
    if pos >= |s| || s[pos].layoutMode != Text then None
    else
      var root := LastWhere(s, IsTextRoot, pos + 1);
      if root.None? then None
      else if pos == root.value then Some(s[pos].rootPosition)
      else Some(s[root.value].rootPosition.Plus(
        FlowOffset(s, root.value, pos, LineHeight(metrics, leading))))
  }

  /// Where a sort is drawn: text roots and freeform sorts at their stored
  /// position, other text sorts where the flow under the default metrics puts them.
  function VisualPosition(s: seq<SortEntry>, pos: nat): (r: Option<Vec2>)
    ensures r.None? ==> pos >= |s| || (s[pos].layoutMode == Text && !s[pos].isBufferRoot)
    ensures pos < |s| && (s[pos].isBufferRoot || s[pos].layoutMode == Freeform) ==> r == Some(s[pos].rootPosition)
  {
    if pos >= |s| then None
    else if s[pos].layoutMode == Text && !s[pos].isBufferRoot then FlowPosition(s, pos, DefaultMetrics, 0.0)
    else Some(s[pos].rootPosition)
  }

  /// The flow of a sort after its root is the root's position plus the offset.
  lemma FlowFromRoot(s: seq<SortEntry>, root: nat, pos: nat, metrics: FontMetrics, leading: real)
    requires root < pos < |s| && IsTextRoot(s[root]) && s[pos].layoutMode == Text
    requires forall j :: root < j <= pos ==> !IsTextRoot(s[j])
    ensures FlowPosition(s, pos, metrics, leading) ==
      Some(s[root].rootPosition.Plus(FlowOffset(s, root, pos, LineHeight(metrics, leading))))
  {
    assert LastWhere(s, IsTextRoot, pos + 1) == Some(root);
  }

  /// Sum of the advance widths of the glyphs in `s[lo .. hi)`.
  function AdvanceSum(s: seq<SortEntry>, lo: nat, hi: nat): real
    requires lo <= hi <= |s|
    decreases hi - lo
  {
    if hi == lo then 0.0
    else AdvanceSum(s, lo, hi - 1) + (if s[hi - 1].kind.Glyph? then s[hi - 1].kind.advanceWidth else 0.0)
  }

  /// Without line breaks the offset is the root's advance (when it is named) plus
  /// the advances of every sort between the root and the target.
  lemma {:induction false} FlowOffsetSumsAdvances(s: seq<SortEntry>, root: nat, hi: nat, lineHeight: real)
    requires root < hi <= |s|
    requires forall j :: root < j < hi ==> s[j].kind.Glyph?
    ensures FlowOffset(s, root, hi, lineHeight) == Vec2(RootAdvance(s[root]) + AdvanceSum(s, root + 1, hi), 0.0)
    decreases hi - root
  {
    if hi > root + 1 {
      FlowOffsetSumsAdvances(s, root, hi - 1, lineHeight);
    }
  }

  /// A sort in an unbroken line sits at the root's x plus the root's advance (when
  /// named) plus the advances before it.
  lemma FlowSumsAdvances(s: seq<SortEntry>, root: nat, pos: nat, metrics: FontMetrics, leading: real)
    requires root < pos < |s| && IsTextRoot(s[root]) && s[pos].layoutMode == Text
    requires forall j :: root < j <= pos ==> !IsTextRoot(s[j])
    requires forall j :: root < j < pos ==> s[j].kind.Glyph?
    ensures FlowPosition(s, pos, metrics, leading) == Some(Vec2(
      s[root].rootPosition.x + RootAdvance(s[root]) + AdvanceSum(s, root + 1, pos), s[root].rootPosition.y))
  {
    var p := s[root].rootPosition;
    var a := RootAdvance(s[root]) + AdvanceSum(s, root + 1, pos);
    assert FlowPosition(s, pos, metrics, leading) == Some(p.Plus(Vec2(a, 0.0))) by {
      FlowFromRoot(s, root, pos, metrics, leading);
      FlowOffsetSumsAdvances(s, root, pos, LineHeight(metrics, leading));
    }
  }

  /// After a line break the next sort starts again at the root's x, one line lower.
  lemma FlowAfterLineBreak(s: seq<SortEntry>, root: nat, pos: nat, metrics: FontMetrics, leading: real)
    requires root < pos && pos + 1 < |s| && IsTextRoot(s[root])
    requires forall j :: root < j <= pos + 1 ==> !IsTextRoot(s[j])
    requires s[pos].kind.LineBreak? && s[pos].layoutMode == Text && s[pos + 1].layoutMode == Text
    ensures FlowPosition(s, pos, metrics, leading).Some? && FlowPosition(s, pos + 1, metrics, leading).Some?
    ensures FlowPosition(s, pos + 1, metrics, leading).value.x == s[root].rootPosition.x
    ensures FlowPosition(s, pos + 1, metrics, leading).value.y ==
      FlowPosition(s, pos, metrics, leading).value.y - LineHeight(metrics, leading)
  {
    FlowFromRoot(s, root, pos, metrics, leading);
    FlowFromRoot(s, root, pos + 1, metrics, leading);
  }

  // ---------------------------------------------------------------------------
  // What each editing operation makes of the sorts

  /// `clear_active_state`: no sort stays active.
  function Deactivated(s: seq<SortEntry>): seq<SortEntry>
  {
    seq(|s|, i requires 0 <= i < |s| => s[i].(isActive := false))
  }

  /// `clear_all_states`: no sort stays active or selected.
  function Cleared(s: seq<SortEntry>): seq<SortEntry>
  {
    seq(|s|, i requires 0 <= i < |s| => s[i].(isActive := false, isSelected := false))
  }

  /// `clear_selections`: no sort stays selected.
  function Unselected(s: seq<SortEntry>): seq<SortEntry>
  {
    seq(|s|, i requires 0 <= i < |s| => s[i].(isSelected := false))
  }

  /// Only the sort at `p` active (`activate_sort`).
  function Activated(s: seq<SortEntry>, p: nat): seq<SortEntry>
  {
    seq(|s|, i requires 0 <= i < |s| => s[i].(isActive := i == p))
  }

  /// `select_sort` (`selected` true) and `deselect_sort` (`selected` false).
  function WithSelection(s: seq<SortEntry>, p: nat, selected: bool): seq<SortEntry>
  {
    if p < |s| then s[p := s[p].(isSelected := selected)] else s
  }

  /// `toggle_sort_selection`.
  function Toggled(s: seq<SortEntry>, p: nat): seq<SortEntry>
  {
    if p < |s| then s[p := s[p].(isSelected := !s[p].isSelected)] else s
  }

  /// `is_sort_selected`.
  function IsSortSelected(s: seq<SortEntry>, p: nat): bool
  {
    p < |s| && s[p].isSelected
  }

  /// `convert_sort_to_freeform`.
  function ConvertedToFreeform(s: seq<SortEntry>, p: nat, position: Vec2): seq<SortEntry>
  {
    if p < |s| then s[p := s[p].(layoutMode := Freeform, rootPosition := position, bufferIndex := None)] else s
  }

  /// `convert_sort_to_text`.
  function ConvertedToText(s: seq<SortEntry>, p: nat, index: nat): seq<SortEntry>
  {
    if p < |s| then s[p := s[p].(layoutMode := Text, rootPosition := Zero, bufferIndex := Some(index))] else s
  }

  function WithCursor(s: seq<SortEntry>, r: nat, c: nat): seq<SortEntry>
    requires r < |s|
  {
    s[r := s[r].(cursor := Some(c))]
  }

  /// `SortBuffer::insert`: out-of-range indices leave the sorts unchanged.
  function InsertIfInRange(s: seq<SortEntry>, i: nat, e: SortEntry): seq<SortEntry>
  {
    if i <= |s| then InsertAt(s, i, e) else s
  }

  /// `SortBuffer::delete`: out-of-range indices leave the sorts unchanged.
  function RemoveIfInRange(s: seq<SortEntry>, i: nat): seq<SortEntry>
  {
    if i < |s| then RemoveAt(s, i) else s
  }

  /// A typed glyph: a text sort, neither active, selected nor a root.
  function TextSort(name: string, advance: real): SortEntry
  {
    SortEntry(Glyph(name, advance), false, false, Text, Zero, None, false, None)
  }

  function LineBreakSort(): SortEntry
  {
    SortEntry(LineBreak, false, false, Text, Zero, None, false, None)
  }

  /// An unnamed placeholder root, active and selected, cursor at 0.
  function PlaceholderRoot(position: Vec2, index: nat): SortEntry
  {
    SortEntry(Glyph("", 0.0), true, true, Text, position, Some(index), true, Some(0))
  }

  /// A root holding the glyph just typed, active and selected, cursor after it.
  function GlyphRoot(name: string, advance: real, position: Vec2): SortEntry
  {
    SortEntry(Glyph(name, advance), true, true, Text, position, None, true, Some(1))
  }

  function FreeformSort(name: string, advance: real, position: Vec2): SortEntry
  {
    SortEntry(Glyph(name, advance), true, true, Freeform, position, None, false, None)
  }

  /// `add_freeform_sort`.
  function AddedFreeform(s: seq<SortEntry>, name: string, position: Vec2, advance: real): seq<SortEntry>
  {
    Cleared(s) + [FreeformSort(name, advance, position)]
  }

  /// `create_text_root`.
  function CreatedRoot(s: seq<SortEntry>, position: Vec2): seq<SortEntry>
  {
    Cleared(s) + [PlaceholderRoot(position, |s|)]
  }

  /// `create_text_root_with_glyph`.
  function CreatedRootWithGlyph(s: seq<SortEntry>, name: string, advance: real, position: Vec2): seq<SortEntry>
  {
    Cleared(s) + [GlyphRoot(name, advance, position)]
  }

  /// The root an unnamed placeholder becomes when the first glyph is typed: the
  /// glyph, still the root, active and selected, at the placeholder's position,
  /// cursor after the glyph.
  function FilledPlaceholder(root: SortEntry, name: string, advance: real): SortEntry
  {
    TextSort(name, advance).(isBufferRoot := true, isActive := true, isSelected := true,
      cursor := Some(1), rootPosition := root.rootPosition)
  }

  /// `insert_sort_at_cursor`: an unnamed placeholder root is replaced by the glyph;
  /// otherwise the glyph goes to buffer index `root + cursor` and the sort at the
  /// root's index gets cursor + 1. Without a root a new root holds the glyph.
  function InsertedAtCursor(s: seq<SortEntry>, name: string, advance: real): seq<SortEntry>
  {
    var root := FindActiveRoot(s);
    if root.None? then CreatedRootWithGlyph(s, name, advance, TypingRootPosition)
    else
      var r := root.value;
      var k := CursorOf(s[r]);
      if IsUnnamedGlyph(s[r]) then s[r := FilledPlaceholder(s[r], name, advance)]
      else WithCursor(InsertIfInRange(s, r + k, TextSort(name, advance)), r, k + 1)
  }

  /// `delete_sort_at_cursor`: nothing at cursor 0; otherwise remove buffer index
  /// `root + cursor - 1` and give the sort now at the root's index cursor - 1.
  function DeletedAtCursor(s: seq<SortEntry>): seq<SortEntry>
  {
    var root := FindActiveRoot(s);
    if root.None? then s
    else
      var r := root.value;
      var k := CursorOf(s[r]);
      if k == 0 then s
      else RemovedWithCursor(s, r + k - 1, r, k - 1)
  }

  /// The sort at `at` removed when in range, then the cursor of the sort now at
  /// `root`, if there is one, set to `cursor`.
  function RemovedWithCursor(s: seq<SortEntry>, at: nat, root: nat, cursor: nat): seq<SortEntry>
  {
    var t := RemoveIfInRange(s, at);
    if root < |t| then WithCursor(t, root, cursor) else t
  }

  /// `insert_line_break_at_cursor`: a line break at `root + cursor`, cursor after it.
  function InsertedLineBreak(s: seq<SortEntry>): seq<SortEntry>
  {
    var root := FindActiveRoot(s);
    if root.None? then s
    else
      var r := root.value;
      var k := CursorOf(s[r]);
      WithCursor(InsertIfInRange(s, r + k, LineBreakSort()), r, k + 1)
  }

  /// The root `create_new_line` starts: unnamed, active and selected, one line
  /// below the root at `above` (its descender minus units per em; -256 without a
  /// descender).
  function NewLineRoot(above: Vec2, metrics: FontMetrics, index: nat): SortEntry
  {
    SortEntry(Glyph("", 0.0), true, true, Text,
      Vec2(above.x, above.y + OrElse(metrics.descender, -256.0) - metrics.unitsPerEm),
      Some(index), true, Some(0))
  }

  /// `create_new_line`: a line break at `root + cursor`, a new root right after it,
  /// and the sort at the root's index loses its activity and selection.
  function CreatedNewLine(s: seq<SortEntry>, metrics: FontMetrics): seq<SortEntry>
  {
    var root := FindActiveRoot(s);
    if root.None? then s
    else
      var r := root.value;
      var k := CursorOf(s[r]);
      var withBreak := InsertIfInRange(s, r + k, LineBreakSort());
      var withRoot := InsertIfInRange(withBreak, r + k + 1, NewLineRoot(s[r].rootPosition, metrics, r + k + 1));
      withRoot[r := withRoot[r].(isSelected := false, isActive := false)]
  }

  /// `create_text_sort_at_position`: start a placeholder root at `position` when
  /// there is none, then type the glyph.
  function CreatedTextSort(s: seq<SortEntry>, name: string, position: Vec2, advance: real): seq<SortEntry>
  {
    var withRoot := if FindActiveRoot(s).None? then CreatedRoot(s, position) else s;
    InsertedAtCursor(withRoot, name, advance)
  }

  function Min(a: nat, b: nat): nat { if a <= b then a else b }

  /// `move_cursor_to`: the root's cursor becomes `position`, clamped to the line length.
  function MovedCursorTo(s: seq<SortEntry>, position: nat): seq<SortEntry>
  {
    var root := FindActiveRoot(s);
    if root.None? then s
    else WithCursor(s, root.value, Min(position, SequenceLength(s, root.value)))
  }

  /// `move_cursor_left`: one step back unless the cursor is at 0.
  function MovedCursorLeft(s: seq<SortEntry>): seq<SortEntry>
  {
    var root := FindActiveRoot(s);
    if root.None? then s
    else
      var c := CursorOf(s[root.value]);
      if c > 0 then WithCursor(s, root.value, c - 1) else s
  }

  /// `move_cursor_right`: one step forward unless the cursor is at the line length.
  function MovedCursorRight(s: seq<SortEntry>): seq<SortEntry>
  {
    var root := FindActiveRoot(s);
    if root.None? then s
    else
      var c := CursorOf(s[root.value]);
      if c < SequenceLength(s, root.value) then WithCursor(s, root.value, c + 1) else s
  }

  /// `move_cursor_up`: select the previous root instead, cursor at the end of its line.
  function MovedCursorUp(s: seq<SortEntry>): seq<SortEntry>
  {
    var root := FindActiveRoot(s);
    if root.None? then s
    else
      var prev := LastWhere(s, IsRoot, root.value);
      if prev.None? then s
      else
        var t := s[root.value := s[root.value].(isSelected := false)];
        t[prev.value := t[prev.value].(isSelected := true, cursor := Some(SequenceLength(t, prev.value)))]
  }

  /// `move_cursor_down`: select the next root instead, cursor at its start.
  function MovedCursorDown(s: seq<SortEntry>): seq<SortEntry>
  {
    var root := FindActiveRoot(s);
    if root.None? then s
    else
      var next := FirstWhere(s, IsRoot, root.value + 1);
      if next.None? then s
      else
        var t := s[root.value := s[root.value].(isSelected := false)];
        t[next.value := t[next.value].(isSelected := true, cursor := Some(0))]
  }

  // ---------------------------------------------------------------------------
  // Which root typing goes to, across edits

  /// Moving the cursor of the root typing goes to keeps that root in charge.
  lemma RootKeptWhenCursorSet(s: seq<SortEntry>, r: nat, c: nat)
    requires FindActiveRoot(s) == Some(r)
    ensures FindActiveRoot(WithCursor(s, r, c)) == Some(r)
  {
    FindActiveRootRules(s);
    var t := WithCursor(s, r, c);
    assert forall j :: 0 <= j < |s| ==> IsSelectedRoot(t[j]) == IsSelectedRoot(s[j]) && t[j].isBufferRoot == s[j].isBufferRoot;
    assert forall j :: 0 <= j < |s| && j != r ==> IsCursorRoot(t[j]) == IsCursorRoot(s[j]);
    FindActiveRootIs(t, r);
  }

  /// A sort that is not a root, inserted after the root in charge, leaves it in charge.
  lemma RootKeptWhenNonRootInsertedAfter(s: seq<SortEntry>, r: nat, i: nat, e: SortEntry)
    requires FindActiveRoot(s) == Some(r) && r < i <= |s| && !e.isBufferRoot
    ensures FindActiveRoot(InsertAt(s, i, e)) == Some(r)
  {
    FindActiveRootRules(s);
    var t := InsertAt(s, i, e);
    InsertAtShifts(s, i, e);
    assert forall j :: i < j < |t| ==> t[j] == s[j - 1];
    FindActiveRootIs(t, r);
  }

  /// Removing a sort that is not a root, after the root in charge, leaves it in charge.
  lemma RootKeptWhenNonRootRemovedAfter(s: seq<SortEntry>, r: nat, i: nat)
    requires FindActiveRoot(s) == Some(r) && r < i < |s| && !s[i].isBufferRoot
    ensures FindActiveRoot(RemoveAt(s, i)) == Some(r)
  {
    FindActiveRootRules(s);
    var t := RemoveAt(s, i);
    assert forall j :: 0 <= j < i ==> t[j] == s[j];
    assert forall j :: i <= j < |t| ==> t[j] == s[j + 1];
    FindActiveRootIs(t, r);
  }

  // ---------------------------------------------------------------------------
  // Typing and backspace

  /// The first glyph typed into an unnamed placeholder root takes the root's place:
  /// same position, still the root in charge, cursor after it, one more sort in its line.
  lemma PlaceholderReplacedByFirstGlyph(s: seq<SortEntry>, r: nat, name: string, advance: real)
    requires FindActiveRoot(s) == Some(r) && IsUnnamedGlyph(s[r]) && IsTextRoot(s[r])
    ensures var t := InsertedAtCursor(s, name, advance);
      |t| == |s| && (forall j :: 0 <= j < |s| && j != r ==> t[j] == s[j]) &&
      t[r].kind == Glyph(name, advance) && t[r].isBufferRoot && t[r].isSelected &&
      t[r].rootPosition == s[r].rootPosition && t[r].cursor == Some(1) &&
      FindActiveRoot(t) == Some(r) &&
      (name != "" ==> SequenceLength(t, r) == SequenceLength(s, r) + 1)
  {
    var t := InsertedAtCursor(s, name, advance);
    assert t == s[r := FilledPlaceholder(s[r], name, advance)];
    FindActiveRootRules(s);
    FindActiveRootIs(t, r);
    assert RunEnd(t, r + 1) == RunEnd(s, r + 1) by {
      assert t[r + 1..] == s[r + 1..];
      assert forall j :: r < j < |s| ==> t[j] == s[j];
    }
  }

  /// Typing with a named root and its cursor inside the line puts the glyph at
  /// buffer index `root + cursor` and moves the cursor past it.
  lemma InsertGoesAtCursor(s: seq<SortEntry>, r: nat, name: string, advance: real)
    requires FindActiveRoot(s) == Some(r) && !IsUnnamedGlyph(s[r])
    requires 1 <= CursorOf(s[r]) && r + CursorOf(s[r]) <= |s|
    ensures var k := CursorOf(s[r]);
      var t := InsertedAtCursor(s, name, advance);
      t == WithCursor(InsertAt(s, r + k, TextSort(name, advance)), r, k + 1) &&
      |t| == |s| + 1 && t[r + k] == TextSort(name, advance) &&
      (forall j :: 0 <= j < r + k && j != r ==> t[j] == s[j]) &&
      (forall j :: r + k < j < |t| ==> t[j] == s[j - 1]) &&
      CursorOf(t[r]) == k + 1
  {
    var k := CursorOf(s[r]);
    var x := TextSort(name, advance);
    assert InsertedAtCursor(s, name, advance) == WithCursor(InsertAt(s, r + k, x), r, k + 1) by {
      TypedAtCursorIs(s, r, name, advance);
    }
    InsertedAfterRoot(s, r, k, x);
  }

  /// Putting `x` at `r + k`, after the sort at `r`, and giving that sort cursor
  /// `k + 1`: the entries before keep their places, those after move one right.
  lemma InsertedAfterRoot(s: seq<SortEntry>, r: nat, k: nat, x: SortEntry)
    requires 1 <= k && r + k <= |s|
    ensures var t := WithCursor(InsertAt(s, r + k, x), r, k + 1);
      |t| == |s| + 1 && t[r + k] == x &&
      (forall j :: 0 <= j < r + k && j != r ==> t[j] == s[j]) &&
      (forall j :: r + k < j < |t| ==> t[j] == s[j - 1]) &&
      CursorOf(t[r]) == k + 1
  {
    var u := InsertAt(s, r + k, x);
    InsertAtShifts(s, r + k, x);
    var t := WithCursor(u, r, k + 1);
    forall j | 0 <= j < |t| && j != r
      ensures t[j] == u[j]
    {
    }
  }

  /// The same typing leaves the same root in charge.
  lemma InsertKeepsRoot(s: seq<SortEntry>, r: nat, name: string, advance: real)
    requires FindActiveRoot(s) == Some(r) && !IsUnnamedGlyph(s[r])
    requires 1 <= CursorOf(s[r]) && r + CursorOf(s[r]) <= |s|
    ensures FindActiveRoot(InsertedAtCursor(s, name, advance)) == Some(r)
  {
    var k := CursorOf(s[r]);
    var x := TextSort(name, advance);
    var u := InsertAt(s, r + k, x);
    TypedAtCursorIs(s, r, name, advance);
    assert FindActiveRoot(u) == Some(r) by {
      RootKeptWhenNonRootInsertedAfter(s, r, r + k, x);
    }
    assert FindActiveRoot(WithCursor(u, r, k + 1)) == Some(r) by {
      RootKeptWhenCursorSet(u, r, k + 1);
    }
  }

  /// Typing with a named root whose cursor is at 0 puts the glyph in front of the
  /// root: the root moves one place right, keeps its cursor at 0, and the new
  /// glyph, which is not a root, is the one given cursor 1.
  lemma InsertAtLineStartGoesBeforeRoot(s: seq<SortEntry>, r: nat, name: string, advance: real)
    requires FindActiveRoot(s) == Some(r) && !IsUnnamedGlyph(s[r]) && CursorOf(s[r]) == 0
    ensures var t := InsertedAtCursor(s, name, advance);
      |t| == |s| + 1 && t[r] == TextSort(name, advance).(cursor := Some(1)) && !t[r].isBufferRoot &&
      t[r + 1] == s[r] && (IsSelectedRoot(s[r]) ==> FindActiveRoot(t) == Some(r + 1))
  {
    var t := InsertedAtCursor(s, name, advance);
    InsertAtShifts(s, r, TextSort(name, advance));
    if IsSelectedRoot(s[r]) {
      FindActiveRootRules(s);
      FindActiveRootIs(t, r + 1);
    }
  }

  /// Backspace with the cursor at the start of the line changes nothing.
  lemma BackspaceAtLineStartKeepsSorts(s: seq<SortEntry>, r: nat)
    requires FindActiveRoot(s) == Some(r) && CursorOf(s[r]) == 0
    ensures DeletedAtCursor(s) == s
  {
  }

  /// Backspace with the cursor past the root glyph removes the sort just left of the
  /// cursor, which is not a root, and moves the cursor back by one.
  lemma BackspaceDeletesBeforeCursor(s: seq<SortEntry>, r: nat)
    requires FindActiveRoot(s) == Some(r) && !IsUnnamedGlyph(s[r])
    requires 2 <= CursorOf(s[r]) <= SequenceLength(s, r)
    ensures var k := CursorOf(s[r]);
      r + k - 1 < |s| && !s[r + k - 1].isBufferRoot &&
      DeletedAtCursor(s) == WithCursor(RemoveAt(s, r + k - 1), r, k - 1) &&
      FindActiveRoot(DeletedAtCursor(s)) == Some(r)
  {
    var k := CursorOf(s[r]);
    assert r + k - 1 < RunEnd(s, r + 1);
    var u := RemoveAt(s, r + k - 1);
    assert DeletedAtCursor(s) == WithCursor(u, r, k - 1) by {
      BackspaceAt(s, r, k);
    }
    assert FindActiveRoot(u) == Some(r) by {
      RootKeptWhenNonRootRemovedAfter(s, r, r + k - 1);
    }
    assert FindActiveRoot(WithCursor(u, r, k - 1)) == Some(r) by {
      RootKeptWhenCursorSet(u, r, k - 1);
    }
  }

  /// Backspace with the cursor right after a named root glyph removes the root
  /// itself: the sort after it takes its index but not its root flag, and is given
  /// cursor 0.
  lemma BackspaceAtOneRemovesRoot(s: seq<SortEntry>, r: nat)
    requires FindActiveRoot(s) == Some(r) && CursorOf(s[r]) == 1 && r + 1 < |s|
    ensures DeletedAtCursor(s) == WithCursor(RemoveAt(s, r), r, 0)
    ensures DeletedAtCursor(s)[r].isBufferRoot == s[r + 1].isBufferRoot
  {
  }

  /// Removing an element after an updated position commutes with the update.
  lemma RemoveAfterUpdate(u: seq<SortEntry>, j: nat, x: SortEntry, i: nat)
    requires j < i < |u|
    ensures RemoveAt(u[j := x], i) == RemoveAt(u, i)[j := x]
  {
    assert (u[j := x])[..i] == u[..i][j := x];
    assert (u[j := x])[i + 1..] == u[i + 1..];
  }

  /// Removing what was inserted after the root, once the root's cursor is set,
  /// leaves only the cursor change.
  lemma RemoveInsertedAfterCursorSet(s: seq<SortEntry>, r: nat, i: nat, g: SortEntry, c: nat)
    requires r < i <= |s|
    ensures RemoveAt(WithCursor(InsertAt(s, i, g), r, c), i) == WithCursor(s, r, c)
  {
    var u := InsertAt(s, i, g);
    RemoveAfterInsert(s, i, g);
    RemoveAfterUpdate(u, r, u[r].(cursor := Some(c)), i);
  }

  /// Backspace once the root in charge and its cursor `k >= 1` are known.
  lemma BackspaceAt(s: seq<SortEntry>, r: nat, k: nat)
    requires FindActiveRoot(s) == Some(r) && CursorOf(s[r]) == k && 1 <= k
    ensures DeletedAtCursor(s) == RemovedWithCursor(s, r + k - 1, r, k - 1)
  {
  }

  /// What backspace does once the root in charge and its cursor are known.
  lemma DeletedAtCursorIs(t: seq<SortEntry>, r: nat, k: nat)
    requires FindActiveRoot(t) == Some(r) && CursorOf(t[r]) == k && 1 <= k && r + k <= |t| && r + 1 < |t|
    ensures DeletedAtCursor(t) == WithCursor(RemoveAt(t, r + k - 1), r, k - 1)
  {
  }

  /// Typing with a named root and its cursor inside the line, as one equation.
  lemma TypedAtCursorIs(s: seq<SortEntry>, r: nat, name: string, advance: real)
    requires FindActiveRoot(s) == Some(r) && !IsUnnamedGlyph(s[r])
    requires 1 <= CursorOf(s[r]) && r + CursorOf(s[r]) <= |s|
    ensures InsertedAtCursor(s, name, advance) == WithCursor(InsertAt(s, r + CursorOf(s[r]), TextSort(name, advance)), r, CursorOf(s[r]) + 1)
  {
  }

  /// Backspace right after typing, with a named root and its cursor inside the
  /// line, restores the sorts exactly.
  lemma DeleteUndoesInsert(s: seq<SortEntry>, r: nat, name: string, advance: real)
    requires FindActiveRoot(s) == Some(r) && !IsUnnamedGlyph(s[r])
    requires 1 <= CursorOf(s[r]) && r + CursorOf(s[r]) <= |s|
    ensures DeletedAtCursor(InsertedAtCursor(s, name, advance)) == s
  {
    var t := InsertedAtCursor(s, name, advance);
    assert DeletedAtCursor(t) == s by {
      TypingLeavesBackspaceTarget(s, r, name, advance);
      BackspaceRestores(t, s, r, CursorOf(s[r]));
    }
  }

  /// Backspace gives `s` back whenever removing the sort before the cursor and
  /// moving the cursor back does.
  lemma BackspaceRestores(t: seq<SortEntry>, s: seq<SortEntry>, r: nat, k: nat)
    requires FindActiveRoot(t) == Some(r) && |t| == |s| + 1 && CursorOf(t[r]) == k + 1 && 1 <= k && r + k <= |s|
    requires WithCursor(RemoveAt(t, r + k), r, k) == s
    ensures DeletedAtCursor(t) == s
  {
    DeletedAtCursorIs(t, r, k + 1);
  }

  /// After typing, the root in charge is unchanged, its cursor is one further on,
  /// and removing the sort just before that cursor and moving the cursor back
  /// gives the sorts from before.
  lemma TypingLeavesBackspaceTarget(s: seq<SortEntry>, r: nat, name: string, advance: real)
    requires FindActiveRoot(s) == Some(r) && !IsUnnamedGlyph(s[r])
    requires 1 <= CursorOf(s[r]) && r + CursorOf(s[r]) <= |s|
    ensures var k, t := CursorOf(s[r]), InsertedAtCursor(s, name, advance);
      FindActiveRoot(t) == Some(r) && |t| == |s| + 1 && CursorOf(t[r]) == k + 1 &&
      WithCursor(RemoveAt(t, r + k), r, k) == s
  {
    var k := CursorOf(s[r]);
    var g := TextSort(name, advance);
    TypedAtCursorIs(s, r, name, advance);
    InsertKeepsRoot(s, r, name, advance);
    TypedThenRemoved(s, r, k, g);
  }

  /// Setting a root's cursor and then setting it back restores the sorts.
  lemma CursorRestored(s: seq<SortEntry>, r: nat, c: nat)
    requires r < |s| && s[r].cursor.Some?
    ensures WithCursor(WithCursor(s, r, c), r, s[r].cursor.value) == s
  {
    assert WithCursor(s, r, c)[r].(cursor := s[r].cursor) == s[r];
  }

  /// Removing what typing put at `root + k` and setting the cursor back to `k`
  /// restores the sorts.
  lemma TypedThenRemoved(s: seq<SortEntry>, r: nat, k: nat, g: SortEntry)
    requires 1 <= k && r + k <= |s| && s[r].cursor == Some(k)
    ensures WithCursor(RemoveAt(WithCursor(InsertAt(s, r + k, g), r, k + 1), r + k), r, k) == s
  {
    calc {
      WithCursor(RemoveAt(WithCursor(InsertAt(s, r + k, g), r, k + 1), r + k), r, k);
      { RemoveInsertedAfterCursorSet(s, r, r + k, g, k + 1); }
      WithCursor(WithCursor(s, r, k + 1), r, k);
      { CursorRestored(s, r, k + 1); }
      s;
    }
  }

  // ---------------------------------------------------------------------------
  // Cursor movement

  /// `move_cursor_to` keeps the root, the layout, and a cursor within the line.
  lemma MoveCursorToClamps(s: seq<SortEntry>, r: nat, position: nat)
    requires FindActiveRoot(s) == Some(r)
    ensures var t := MovedCursorTo(s, position);
      FindActiveRoot(t) == Some(r) && SameLayout(s, t) &&
      t[r].cursor.Some? && t[r].cursor.value <= SequenceLength(t, r) &&
      (position <= SequenceLength(s, r) ==> t[r].cursor == Some(position))
  {
    var t := MovedCursorTo(s, position);
    RootKeptWhenCursorSet(s, r, Min(position, SequenceLength(s, r)));
    SequenceLengthOfSameLayout(s, t, r);
  }

  /// One step right undoes one step left inside a line.
  lemma RightUndoesLeft(s: seq<SortEntry>, r: nat)
    requires FindActiveRoot(s) == Some(r)
    requires s[r].cursor.Some? && 0 < s[r].cursor.value <= SequenceLength(s, r)
    ensures MovedCursorRight(MovedCursorLeft(s)) == s
  {
    var c := s[r].cursor.value;
    var t := WithCursor(s, r, c - 1);
    assert MovedCursorLeft(s) == t;
    assert FindActiveRoot(t) == Some(r) && SequenceLength(t, r) == SequenceLength(s, r) by {
      CursorSetKeepsLine(s, r, c - 1);
    }
    assert MovedCursorRight(t) == WithCursor(t, r, c);
    assert WithCursor(t, r, c) == s by {
      CursorRestored(s, r, c - 1);
    }
  }

  /// One step left undoes one step right inside a line.
  lemma LeftUndoesRight(s: seq<SortEntry>, r: nat)
    requires FindActiveRoot(s) == Some(r)
    requires s[r].cursor.Some? && s[r].cursor.value < SequenceLength(s, r)
    ensures MovedCursorLeft(MovedCursorRight(s)) == s
  {
    var c := s[r].cursor.value;
    var t := WithCursor(s, r, c + 1);
    assert MovedCursorRight(s) == t;
    assert FindActiveRoot(t) == Some(r) by {
      RootKeptWhenCursorSet(s, r, c + 1);
    }
    assert MovedCursorLeft(t) == WithCursor(t, r, c);
    assert WithCursor(t, r, c) == s by {
      CursorRestored(s, r, c + 1);
    }
  }

  /// Moving left keeps the root and the line length, and a cursor within the line.
  lemma CursorLeftStaysInLine(s: seq<SortEntry>, r: nat)
    requires FindActiveRoot(s) == Some(r) && CursorOf(s[r]) <= SequenceLength(s, r)
    ensures var t := MovedCursorLeft(s);
      FindActiveRoot(t) == Some(r) && SequenceLength(t, r) == SequenceLength(s, r) && CursorOf(t[r]) <= SequenceLength(t, r)
  {
    var c := CursorOf(s[r]);
    if c > 0 {
      var t := WithCursor(s, r, c - 1);
      assert MovedCursorLeft(s) == t;
      CursorSetKeepsLine(s, r, c - 1);
      assert CursorOf(t[r]) == c - 1;
    }
  }

  /// Moving right keeps the root and the line length, and a cursor within the line.
  lemma CursorRightStaysInLine(s: seq<SortEntry>, r: nat)
    requires FindActiveRoot(s) == Some(r) && CursorOf(s[r]) <= SequenceLength(s, r)
    ensures var t := MovedCursorRight(s);
      FindActiveRoot(t) == Some(r) && SequenceLength(t, r) == SequenceLength(s, r) && CursorOf(t[r]) <= SequenceLength(t, r)
  {
    var c := CursorOf(s[r]);
    if c < SequenceLength(s, r) {
      var t := WithCursor(s, r, c + 1);
      assert MovedCursorRight(s) == t;
      CursorSetKeepsLine(s, r, c + 1);
      assert CursorOf(t[r]) == c + 1;
    }
  }

  /// Setting the cursor of the root in charge keeps that root and its line length.
  lemma CursorSetKeepsLine(s: seq<SortEntry>, r: nat, c: nat)
    requires FindActiveRoot(s) == Some(r)
    ensures FindActiveRoot(WithCursor(s, r, c)) == Some(r)
    ensures SequenceLength(WithCursor(s, r, c), r) == SequenceLength(s, r)
  {
    RootKeptWhenCursorSet(s, r, c);
    SequenceLengthOfSameLayout(s, WithCursor(s, r, c), r);
  }

  /// No root before the root in charge is selected; neither is any root between
  /// it and `n` when there is no root in between.
  lemma NoOtherSelectedRootBefore(s: seq<SortEntry>, r: nat, n: nat)
    requires FindActiveRoot(s) == Some(r) && r < n <= |s|
    requires forall j :: r < j < n ==> !s[j].isBufferRoot
    ensures forall j :: 0 <= j < n && j != r ==> !IsSelectedRoot(s[j])
  {
    FindActiveRootRules(s);
    if exists i :: 0 <= i < |s| && IsSelectedRoot(s[i]) {
      assert forall j :: 0 <= j < r ==> !IsSelectedRoot(s[j]);
    }
  }

  /// The selection handed from the sort at `from` to the sort at `to`, which
  /// gets its cursor at `c`: the shape of moving up and moving down.
  function SelectionMoved(s: seq<SortEntry>, from: nat, to: nat, c: nat): seq<SortEntry>
    requires from < |s| && to < |s|
  {
    var u := s[from := s[from].(isSelected := false)];
    u[to := u[to].(isSelected := true, cursor := Some(c))]
  }

  /// Handing the selection over changes no layout, and only the two selection
  /// flags and the receiving cursor: every other cursor is kept.
  lemma SelectionMovedKeepsLayout(s: seq<SortEntry>, from: nat, to: nat, c: nat)
    requires from < |s| && to < |s|
    ensures var t := SelectionMoved(s, from, to, c);
      SameLayout(s, t) && t[to].cursor == Some(c) && t[to].isSelected &&
      (forall i :: 0 <= i < |s| && i != to ==> t[i].isSelected == (s[i].isSelected && i != from)) &&
      forall i :: 0 <= i < |s| && i != to ==> t[i].cursor == s[i].cursor
  {
  }

  /// A root that receives the selection takes charge when no selected root
  /// comes before it.
  lemma SelectionMovedTakesCharge(s: seq<SortEntry>, from: nat, to: nat, c: nat)
    requires from < |s| && to < |s| && s[to].isBufferRoot
    requires forall j :: 0 <= j < to && j != from ==> !IsSelectedRoot(s[j])
    ensures FindActiveRoot(SelectionMoved(s, from, to, c)) == Some(to)
  {
    var t := SelectionMoved(s, from, to, c);
    forall j | 0 <= j < to ensures !IsSelectedRoot(t[j]) {
      if j != from { assert t[j] == s[j]; }
    }
    FirstSelectedRootIs(t, to);
  }

  /// `move_cursor_up` hands the cursor to the previous root, at the end of its
  /// line; every other cursor is kept.
  lemma MoveUpSelectsPreviousRoot(s: seq<SortEntry>, r: nat, p: nat)
    requires FindActiveRoot(s) == Some(r) && LastWhere(s, IsRoot, r) == Some(p)
    ensures var t := MovedCursorUp(s);
      FindActiveRoot(t) == Some(p) && SameLayout(s, t) &&
      t[p].cursor == Some(SequenceLength(t, p)) &&
      (forall i :: 0 <= i < |s| && i != p ==> t[i].isSelected == (s[i].isSelected && i != r)) &&
      forall i :: 0 <= i < |s| && i != p ==> t[i].cursor == s[i].cursor
  {
    var c := SequenceLength(s[r := s[r].(isSelected := false)], p);
    var t := MovedCursorUp(s);
    assert t == SelectionMoved(s, r, p, c);
    SelectionMovedKeepsLayout(s, r, p, c);
    assert SequenceLength(t, p) == c by {
      assert SameLayout(s[r := s[r].(isSelected := false)], s);
      SequenceLengthOfSameLayout(s[r := s[r].(isSelected := false)], s, p);
      SequenceLengthOfSameLayout(s, t, p);
    }
    assert forall j :: 0 <= j < p && j != r ==> !IsSelectedRoot(s[j]) by {
      NoOtherSelectedRootBefore(s, r, r + 1);
    }
    SelectionMovedTakesCharge(s, r, p, c);
  }

  /// `move_cursor_down` hands the cursor to the next root, at the start of its
  /// line; every other cursor is kept.
  lemma MoveDownSelectsNextRoot(s: seq<SortEntry>, r: nat, n: nat)
    requires FindActiveRoot(s) == Some(r) && FirstWhere(s, IsRoot, r + 1) == Some(n)
    ensures var t := MovedCursorDown(s);
      FindActiveRoot(t) == Some(n) && SameLayout(s, t) && t[n].cursor == Some(0) &&
      (forall i :: 0 <= i < |s| && i != n ==> t[i].isSelected == (s[i].isSelected && i != r)) &&
      forall i :: 0 <= i < |s| && i != n ==> t[i].cursor == s[i].cursor
  {
    var t := MovedCursorDown(s);
    assert t == SelectionMoved(s, r, n, 0);
    SelectionMovedKeepsLayout(s, r, n, 0);
    assert forall j :: 0 <= j < n && j != r ==> !IsSelectedRoot(s[j]) by {
      NoOtherSelectedRootBefore(s, r, n);
    }
    SelectionMovedTakesCharge(s, r, n, 0);
  }

  /// Down then up returns to the root typing started in.
  lemma UpUndoesDown(s: seq<SortEntry>, r: nat, n: nat)
    requires FindActiveRoot(s) == Some(r) && FirstWhere(s, IsRoot, r + 1) == Some(n)
    ensures FindActiveRoot(MovedCursorUp(MovedCursorDown(s))) == Some(r)
  {
    var t := MovedCursorDown(s);
    MoveDownSelectsNextRoot(s, r, n);
    assert LastWhere(t, IsRoot, n) == Some(r);
    MoveUpSelectsPreviousRoot(t, n, r);
  }

  // ---------------------------------------------------------------------------
  // Queries, selection and activity

  /// The sorts among the first `n` that satisfy `p`, each with its buffer index, in
  /// buffer order (`get_all_sorts`, `get_text_sorts`, `get_freeform_sorts`,
  /// `get_selected_sorts`).
  function IndexedWhere(s: seq<SortEntry>, p: SortEntry -> bool, n: nat): (r: seq<(nat, SortEntry)>)
    requires n <= |s|
    ensures forall k :: 0 <= k < |r| ==> r[k].0 < n && r[k].1 == s[r[k].0] && p(r[k].1)
    ensures forall k, l :: 0 <= k < l < |r| ==> r[k].0 < r[l].0
    ensures forall i :: 0 <= i < n && p(s[i]) ==> (i, s[i]) in r
  {
    if n == 0 then []
    else
      var before := IndexedWhere(s, p, n - 1);
      if p(s[n - 1]) then
        var r := before + [(n - 1, s[n - 1])];
        assert forall k :: 0 <= k < |before| ==> r[k] == before[k];
        assert r[|before|] == (n - 1, s[n - 1]);
        r
      else before
  }

  /// Selecting or deselecting touches only the selection flag of the sort at `p`.
  lemma SelectionTouchesOnlyOneSort(s: seq<SortEntry>, p: nat, selected: bool, q: nat)
    ensures IsSortSelected(WithSelection(s, p, selected), q) ==
      if q == p then p < |s| && selected else IsSortSelected(s, q)
    ensures SameLayout(s, WithSelection(s, p, selected))
  {
  }

  /// Toggling flips the selection of one sort, and toggling twice restores the sorts.
  lemma ToggleTwiceRestores(s: seq<SortEntry>, p: nat)
    ensures IsSortSelected(Toggled(s, p), p) == (p < |s| && !IsSortSelected(s, p))
    ensures Toggled(Toggled(s, p), p) == s
  {
    if p < |s| {
      assert Toggled(s, p)[p].(isSelected := s[p].isSelected) == s[p];
    }
  }

  /// After `activate_sort` only the sort at `p` is active, and only if it exists;
  /// nothing else about the sorts changes.
  lemma ActivateLeavesOneActive(s: seq<SortEntry>, p: nat)
    ensures var t := Activated(s, p);
      SameLayout(s, t) && forall i :: 0 <= i < |t| ==> t[i] == s[i].(isActive := i == p)
  {
  }

  /// `clear_all_states` leaves no active and no selected sort, and keeps the layout
  /// and the cursors.
  lemma ClearAllLeavesNothingSelected(s: seq<SortEntry>)
    ensures var t := Cleared(s);
      SameLayout(s, t) && forall i :: 0 <= i < |t| ==>
        !t[i].isActive && !t[i].isSelected && t[i].cursor == s[i].cursor
  {
  }

  /// Converting a sort to freeform and back to text at the same index restores
  /// its mode and index; only its position is lost (reset to zero).
  lemma ConvertRoundTrip(s: seq<SortEntry>, p: nat, position: Vec2)
    requires p < |s| && s[p].layoutMode == Text && s[p].bufferIndex.Some?
    ensures var t := ConvertedToText(ConvertedToFreeform(s, p, position), p, s[p].bufferIndex.value);
      |t| == |s| && t[p] == s[p].(rootPosition := Zero) &&
      forall i :: 0 <= i < |s| && i != p ==> t[i] == s[i]
  {
  }

  // ---------------------------------------------------------------------------
  // Creating roots and sorts

  /// A new root, placeholder or holding a glyph, is the only selected and active
  /// sort and takes charge of typing.
  lemma NewRootTakesCharge(s: seq<SortEntry>, e: SortEntry)
    requires IsSelectedRoot(e) && e.isActive
    ensures var t := Cleared(s) + [e];
      FindActiveRoot(t) == Some(|s|) &&
      forall i :: 0 <= i < |s| ==> !t[i].isActive && !t[i].isSelected
  {
    var t := Cleared(s) + [e];
    FindActiveRootIs(t, |s|);
  }

  /// `create_text_root` starts an empty line at `position`; the root records its
  /// own buffer index.
  lemma CreatedRootStartsEmptyLine(s: seq<SortEntry>, position: Vec2)
    ensures var t := CreatedRoot(s, position);
      |t| == |s| + 1 && FindActiveRoot(t) == Some(|s|) && SequenceLength(t, |s|) == 0 &&
      CursorOf(t[|s|]) == 0 && t[|s|].rootPosition == position && t[|s|].bufferIndex == Some(|s|)
  {
    NewRootTakesCharge(s, PlaceholderRoot(position, |s|));
  }

  /// `create_text_root_with_glyph` starts a line holding the glyph, cursor after it.
  lemma RootWithGlyphTakesCharge(s: seq<SortEntry>, name: string, advance: real, position: Vec2)
    requires name != ""
    ensures var t := CreatedRootWithGlyph(s, name, advance, position);
      |t| == |s| + 1 && FindActiveRoot(t) == Some(|s|) && SequenceLength(t, |s|) == 1 &&
      CursorOf(t[|s|]) == 1 && t[|s|].kind == Glyph(name, advance)
  {
    NewRootTakesCharge(s, GlyphRoot(name, advance, position));
  }

  /// `create_text_sort_at_position` with no root: the glyph becomes a root of its own
  /// at `position`, active and selected, and nothing else stays active or selected.
  lemma TextSortWithoutRootStartsLine(s: seq<SortEntry>, name: string, position: Vec2, advance: real)
    requires FindActiveRoot(s).None?
    ensures var t := CreatedTextSort(s, name, position, advance);
      |t| == |s| + 1 && t[|s|].kind == Glyph(name, advance) && IsSelectedRoot(t[|s|]) && t[|s|].isActive &&
      t[|s|].rootPosition == position && t[|s|].cursor == Some(1) &&
      FindActiveRoot(t) == Some(|s|) &&
      forall i :: 0 <= i < |s| ==> !t[i].isActive && !t[i].isSelected
  {
    var u := CreatedRoot(s, position);
    CreatedRootStartsEmptyLine(s, position);
    PlaceholderReplacedByFirstGlyph(u, |s|, name, advance);
  }

  /// `create_new_line` with the cursor inside a named root's line: a line break at
  /// the cursor, then a new placeholder root one line below; the old root gives
  /// up its activity and selection, and every other sort keeps its place.
  lemma NewLineShape(s: seq<SortEntry>, r: nat, metrics: FontMetrics)
    requires FindActiveRoot(s) == Some(r) && IsTextRoot(s[r]) && !IsUnnamedGlyph(s[r])
    requires 1 <= CursorOf(s[r]) <= SequenceLength(s, r)
    ensures var k := CursorOf(s[r]);
      var t := CreatedNewLine(s, metrics);
      |t| == |s| + 2 && t[r] == s[r].(isSelected := false, isActive := false) &&
      (forall j :: 0 <= j < r + k && j != r ==> t[j] == s[j]) &&
      t[r + k] == LineBreakSort() &&
      t[r + k + 1] == NewLineRoot(s[r].rootPosition, metrics, r + k + 1) &&
      (forall j :: r + k + 2 <= j < |t| ==> t[j] == s[j - 2])
  {
    var k := CursorOf(s[r]);
    var g := NewLineRoot(s[r].rootPosition, metrics, r + k + 1);
    var w := InsertAt(InsertAt(s, r + k, LineBreakSort()), r + k + 1, g);
    assert CreatedNewLine(s, metrics) == w[r := w[r].(isSelected := false, isActive := false)] by {
      assert r + k <= |s|;
    }
    InsertPairShifts(s, r + k, LineBreakSort(), g);
  }

  /// After `create_new_line` the new root below takes charge.
  lemma NewLineSelectsRootBelow(s: seq<SortEntry>, r: nat, metrics: FontMetrics)
    requires FindActiveRoot(s) == Some(r) && IsTextRoot(s[r]) && !IsUnnamedGlyph(s[r])
    requires 1 <= CursorOf(s[r]) <= SequenceLength(s, r)
    ensures FindActiveRoot(CreatedNewLine(s, metrics)) == Some(r + CursorOf(s[r]) + 1)
  {
    assert FindActiveRoot(CreatedNewLine(s, metrics)) == Some(r + CursorOf(s[r]) + 1) by {
      var k := CursorOf(s[r]);
      var t := CreatedNewLine(s, metrics);
      assert |t| == |s| + 2 && !IsSelectedRoot(t[r]) && !IsSelectedRoot(t[r + k]) &&
        IsSelectedRoot(t[r + k + 1]) &&
        forall j :: 0 <= j < r + k && j != r ==> t[j] == s[j] by {
        NewLineShape(s, r, metrics);
      }
      assert forall j :: 0 <= j < r + k + 1 ==> !IsSelectedRoot(t[j]) by {
        assert forall j :: r < j < r + k ==> !s[j].isBufferRoot by {
          assert r + k <= RunEnd(s, r + 1);
        }
        NoOtherSelectedRootBefore(s, r, r + k);
      }
      FirstSelectedRootIs(t, r + k + 1);
    }
  }

  // ---------------------------------------------------------------------------
  // The editor's own test scenarios

  /// A root at (100, 200), then "a" (100), "b" (150), "c" (120) typed: the root
  /// glyph "a" replaces the placeholder, and the flow puts the first three sorts at
  /// x = 100, 200 and 350 on y = 200.
  lemma FlowScenario()
    ensures var s0 := CreatedRoot([], Vec2(100.0, 200.0));
      var s := InsertedAtCursor(InsertedAtCursor(InsertedAtCursor(s0, "a", 100.0), "b", 150.0), "c", 120.0);
      |s| == 3 &&
      FlowPosition(s, 0, DefaultMetrics, 0.0) == Some(Vec2(100.0, 200.0)) &&
      FlowPosition(s, 1, DefaultMetrics, 0.0) == Some(Vec2(200.0, 200.0)) &&
      FlowPosition(s, 2, DefaultMetrics, 0.0) == Some(Vec2(350.0, 200.0))
  {
    var s0 := CreatedRoot([], Vec2(100.0, 200.0));
    CreatedRootStartsEmptyLine([], Vec2(100.0, 200.0));
    PlaceholderReplacedByFirstGlyph(s0, 0, "a", 100.0);
    var s1 := InsertedAtCursor(s0, "a", 100.0);
    InsertGoesAtCursor(s1, 0, "b", 150.0);
    InsertKeepsRoot(s1, 0, "b", 150.0);
    var s2 := InsertedAtCursor(s1, "b", 150.0);
    InsertGoesAtCursor(s2, 0, "c", 120.0);
    var s := InsertedAtCursor(s2, "c", 120.0);
    assert s[0].kind == Glyph("a", 100.0) && s[1].kind == Glyph("b", 150.0);
    FlowSumsAdvances(s, 0, 1, DefaultMetrics, 0.0);
    FlowSumsAdvances(s, 0, 2, DefaultMetrics, 0.0);
  }

  /// A freeform sort, then a text sort somewhere else, then a new root: each new
  /// sort is the only active and selected one, and the text sort typed without a
  /// root becomes a root itself (two sorts, then three).
  lemma ActivationScenario()
    ensures var s1 := AddedFreeform([], "a", Vec2(100.0, 200.0), 500.0);
      var s2 := CreatedTextSort(s1, "b", Vec2(300.0, 400.0), 600.0);
      var s3 := CreatedRoot(s2, Vec2(500.0, 600.0));
      |s1| == 1 && s1[0].isActive && s1[0].isSelected && s1[0].kind.glyphName == "a" &&
      s1[0].rootPosition == Vec2(100.0, 200.0) &&
      |s2| == 2 && !s2[0].isActive && !s2[0].isSelected && s2[1].isActive && s2[1].isSelected &&
      s2[1].kind.glyphName == "b" && s2[1].rootPosition == Vec2(300.0, 400.0) &&
      |s3| == 3 && !s3[0].isActive && !s3[1].isActive && s3[2].isActive && s3[2].isSelected &&
      s3[2].isBufferRoot && s3[2].rootPosition == Vec2(500.0, 600.0)
  {
    var s1 := AddedFreeform([], "a", Vec2(100.0, 200.0), 500.0);
    assert FindActiveRoot(s1).None?;
    TextSortWithoutRootStartsLine(s1, "b", Vec2(300.0, 400.0), 600.0);
  }

  // ---------------------------------------------------------------------------
  // The editor state

  /// `TextEditorState` of the earlier editor, over its gap buffer of sorts.
  class TextEditorState {
    const buffer: SortBuffer<SortEntry>

    ghost predicate Valid()
      reads this, buffer
    {
      buffer.Valid()
    }

    ghost function Sorts(): seq<SortEntry>
      reads this, buffer, buffer.buf
      requires Valid()
    {
      buffer.Contents()
    }

    /// `TextEditorState::default()`: no sorts.
    constructor ()
      ensures Valid() && fresh(buffer) && fresh(buffer.buf) && Sorts() == []
    {
      buffer := new SortBuffer(DefaultEntry);
    }

    /// `get_all_sorts`: every sort with its index.
    method GetAllSorts() returns (r: seq<(nat, SortEntry)>)
      requires Valid()
      ensures |r| == |Sorts()| && forall k :: 0 <= k < |r| ==> r[k] == (k, Sorts()[k])
    {
      r := [];
      var n := buffer.Len();
      for i := 0 to n
        invariant |r| == i && forall k :: 0 <= k < i ==> r[k] == (k, Sorts()[k])
      {
        r := r + [(i, buffer.Get(i).value)];
      }
    }

    /// The sorts satisfying `p`, each with its index, in buffer order.
    method SortsWhere(p: SortEntry -> bool) returns (r: seq<(nat, SortEntry)>)
      requires Valid()
      ensures r == IndexedWhere(Sorts(), p, |Sorts()|)
    {
      r := [];
      var n := buffer.Len();
      for i := 0 to n
        invariant r == IndexedWhere(Sorts(), p, i)
      {
        var e := buffer.Get(i).value;
        if p(e) {
          r := r + [(i, e)];
        }
      }
    }

    /// `get_text_sorts`.
    method GetTextSorts() returns (r: seq<(nat, SortEntry)>)
      requires Valid()
      ensures r == IndexedWhere(Sorts(), IsTextSort, |Sorts()|)
    {
      r := SortsWhere(IsTextSort);
    }

    /// `get_freeform_sorts`.
    method GetFreeformSorts() returns (r: seq<(nat, SortEntry)>)
      requires Valid()
      ensures r == IndexedWhere(Sorts(), IsFreeformSort, |Sorts()|)
    {
      r := SortsWhere(IsFreeformSort);
    }

    /// `get_selected_sorts`.
    method GetSelectedSorts() returns (r: seq<(nat, SortEntry)>)
      requires Valid()
      ensures r == IndexedWhere(Sorts(), IsSelectedSort, |Sorts()|)
    {
      r := SortsWhere(IsSelectedSort);
    }

    /// `get_sort_at_position`.
    method GetSortAtPosition(position: nat) returns (r: Option<SortEntry>)
      requires Valid()
      ensures r == if position < |Sorts()| then Some(Sorts()[position]) else None
    {
      r := buffer.Get(position);
    }

    /// `is_sort_selected`.
    method IsSortSelectedAt(position: nat) returns (b: bool)
      requires Valid()
      ensures b == IsSortSelected(Sorts(), position)
    {
      var e := buffer.Get(position);
      b := e.Some? && e.value.isSelected;
    }

    /// `get_active_sort`: the first active sort, if any.
    method GetActiveSort() returns (r: Option<(nat, SortEntry)>)
      requires Valid()
      ensures r.Some? ==> r.value.0 < |Sorts()| && r.value.1 == Sorts()[r.value.0] && r.value.1.isActive
      ensures r.Some? ==> forall j :: 0 <= j < r.value.0 ==> !Sorts()[j].isActive
      ensures r.None? <==> forall j :: 0 <= j < |Sorts()| ==> !Sorts()[j].isActive
    {
      var n := buffer.Len();
      for i := 0 to n
        invariant forall j :: 0 <= j < i ==> !Sorts()[j].isActive
      {
        var e := buffer.Get(i).value;
        if e.isActive {
          return Some((i, e));
        }
      }
      return None;
    }

    /// `find_active_buffer_root_index`, proved against `FindActiveRoot`.
    method FindActiveBufferRootIndex() returns (r: Option<nat>)
      requires Valid()
      ensures r == FindActiveRoot(Sorts())
    {
      var n := buffer.Len();
      for i := 0 to n
        invariant forall j :: 0 <= j < i ==> !IsSelectedRoot(Sorts()[j])
      {
        var e := buffer.Get(i).value;
        if e.isBufferRoot && e.isSelected {
          FindActiveRootIs(Sorts(), i);
          return Some(i);
        }
      }
      for i := 0 to n
        invariant forall j :: 0 <= j < i ==> !IsCursorRoot(Sorts()[j])
      {
        var e := buffer.Get(i).value;
        if e.isBufferRoot && e.cursor.Some? {
          FindActiveRootIs(Sorts(), i);
          return Some(i);
        }
      }
      var i := n;
      while i > 0
        invariant i <= n == |Sorts()|
        invariant forall j :: i <= j < n ==> !Sorts()[j].isBufferRoot
      {
        var e := buffer.Get(i - 1).value;
        if e.isBufferRoot {
          FindActiveRootIs(Sorts(), i - 1);
          return Some(i - 1);
        }
        i := i - 1;
      }
      return None;
    }

    /// `get_buffer_sequence_length`, proved against `SequenceLength`.
    method GetBufferSequenceLength(root: nat) returns (n: nat)
      requires Valid()
      ensures n == SequenceLength(Sorts(), root)
    {
      n := 0;
      var len := buffer.Len();
      var i := root;
      while i < len
        invariant root <= i
        invariant i > root ==> i <= len && Sorts()[root].layoutMode == Text
        invariant forall j :: root < j < i ==> !EndsRun(Sorts()[j])
        invariant n == if i > root then i - root - (if IsUnnamedGlyph(Sorts()[root]) then 1 else 0) else 0
      {
        var e := buffer.Get(i).value;
        if (i > root && e.isBufferRoot) || e.layoutMode != Text {
          break;
        }
        if !(i == root && e.kind.Glyph? && e.kind.glyphName == "") {
          n := n + 1;
        }
        i := i + 1;
      }
    }

    /// `get_text_sort_flow_position`, proved against `FlowPosition`.
    method GetTextSortFlowPosition(pos: nat, metrics: FontMetrics, leading: real) returns (r: Option<Vec2>)
      requires Valid()
      ensures r == FlowPosition(Sorts(), pos, metrics, leading)
    {
      var entry := buffer.Get(pos);
      if entry.None? || entry.value.layoutMode != Text {
        return None;
      }
      ghost var s := Sorts();
      var lineHeight := LineHeight(metrics, leading);
      var i: nat := pos + 1;
      while i > 0
        invariant i <= pos + 1 <= |s|
        invariant forall j :: i <= j <= pos ==> !IsTextRoot(s[j])
      {
        var candidate := buffer.Get(i - 1).value;
        if candidate.isBufferRoot && candidate.layoutMode == Text {
          var root := i - 1;
          assert LastWhere(s, IsTextRoot, pos + 1) == Some(root);
          if pos == root {
            return Some(candidate.rootPosition);
          }
          var total := RootAdvance(candidate);
          var y := 0.0;
          for j := root + 1 to pos
            invariant Vec2(total, y) == FlowOffset(s, root, j, lineHeight)
          {
            match buffer.Get(j).value.kind
            case Glyph(_, advance) =>
              total := total + advance;
            case LineBreak =>
              total := 0.0;
              y := y - lineHeight;
          }
          return Some(candidate.rootPosition.Plus(Vec2(total, y)));
        }
        i := i - 1;
      }
      return None;
    }

    /// `get_sort_visual_position`.
    method GetSortVisualPosition(pos: nat) returns (r: Option<Vec2>)
      requires Valid()
      ensures r == VisualPosition(Sorts(), pos)
    {
      var entry := buffer.Get(pos);
      if entry.None? {
        return None;
      }
      var e := entry.value;
      if e.layoutMode == Text && !e.isBufferRoot {
        r := GetTextSortFlowPosition(pos, DefaultMetrics, 0.0);
      } else {
        r := Some(e.rootPosition);
      }
    }
  
    /// `clear_active_state`: no sort stays active.
    method ClearActiveState()
      requires Valid()
      modifies buffer.buf
      ensures Valid() && Sorts() == Deactivated(old(Sorts()))
    {
      ghost var s := Sorts();
      var n := buffer.Len();
      for i := 0 to n
        invariant Valid() && |Sorts()| == n
        invariant forall k :: 0 <= k < i ==> Sorts()[k] == s[k].(isActive := false)
        invariant forall k :: i <= k < n ==> Sorts()[k] == s[k]
      {
        var e := buffer.Get(i).value;
        var ok := buffer.SetAt(i, e.(isActive := false));
      }
    }

    /// `clear_selections`: no sort stays selected.
    method ClearSelections()
      requires Valid()
      modifies buffer.buf
      ensures Valid() && Sorts() == Unselected(old(Sorts()))
    {
      ghost var s := Sorts();
      var n := buffer.Len();
      for i := 0 to n
        invariant Valid() && |Sorts()| == n
        invariant forall k :: 0 <= k < i ==> Sorts()[k] == s[k].(isSelected := false)
        invariant forall k :: i <= k < n ==> Sorts()[k] == s[k]
      {
        var e := buffer.Get(i).value;
        var ok := buffer.SetAt(i, e.(isSelected := false));
      }
    }

    /// `clear_all_states`: no sort stays active or selected.
    method ClearAllStates()
      requires Valid()
      modifies buffer.buf
      ensures Valid() && Sorts() == Cleared(old(Sorts()))
    {
      ghost var s := Sorts();
      var n := buffer.Len();
      for i := 0 to n
        invariant Valid() && |Sorts()| == n
        invariant forall k :: 0 <= k < i ==> Sorts()[k] == s[k].(isActive := false, isSelected := false)
        invariant forall k :: i <= k < n ==> Sorts()[k] == s[k]
      {
        var e := buffer.Get(i).value;
        var ok := buffer.SetAt(i, e.(isActive := false, isSelected := false));
      }
    }

    /// `activate_sort`: deactivate every sort, then activate the one at `position`;
    /// reports whether it exists.
    method ActivateSort(position: nat) returns (ok: bool)
      requires Valid()
      modifies buffer.buf
      ensures Valid() && ok == (position < |old(Sorts())|)
      ensures Sorts() == Activated(old(Sorts()), position)
    {
      ClearActiveState();
      var e := buffer.Get(position);
      if e.Some? {
        ok := buffer.SetAt(position, e.value.(isActive := true));
      } else {
        ok := false;
      }
    }

    /// `select_sort` (`selected` true) and `deselect_sort` (`selected` false);
    /// reports whether the sort exists.
    method SetSortSelection(position: nat, selected: bool) returns (ok: bool)
      requires Valid()
      modifies buffer.buf
      ensures Valid() && ok == (position < |old(Sorts())|)
      ensures Sorts() == WithSelection(old(Sorts()), position, selected)
    {
      var e := buffer.Get(position);
      if e.Some? {
        ok := buffer.SetAt(position, e.value.(isSelected := selected));
      } else {
        ok := false;
      }
    }

    /// `toggle_sort_selection`; reports whether the sort exists.
    method ToggleSortSelection(position: nat) returns (ok: bool)
      requires Valid()
      modifies buffer.buf
      ensures Valid() && ok == (position < |old(Sorts())|)
      ensures Sorts() == Toggled(old(Sorts()), position)
    {
      var e := buffer.Get(position);
      if e.Some? {
        ok := buffer.SetAt(position, e.value.(isSelected := !e.value.isSelected));
      } else {
        ok := false;
      }
    }

    /// `convert_sort_to_freeform`; reports whether the sort exists.
    method ConvertSortToFreeform(position: nat, freeformPosition: Vec2) returns (ok: bool)
      requires Valid()
      modifies buffer.buf
      ensures Valid() && ok == (position < |old(Sorts())|)
      ensures Sorts() == ConvertedToFreeform(old(Sorts()), position, freeformPosition)
    {
      var e := buffer.Get(position);
      if e.Some? {
        ok := buffer.SetAt(position, e.value.(layoutMode := Freeform, rootPosition := freeformPosition, bufferIndex := None));
      } else {
        ok := false;
      }
    }

    /// `convert_sort_to_text`; reports whether the sort exists.
    method ConvertSortToText(position: nat, newIndex: nat) returns (ok: bool)
      requires Valid()
      modifies buffer.buf
      ensures Valid() && ok == (position < |old(Sorts())|)
      ensures Sorts() == ConvertedToText(old(Sorts()), position, newIndex)
    {
      var e := buffer.Get(position);
      if e.Some? {
        ok := buffer.SetAt(position, e.value.(layoutMode := Text, rootPosition := Zero, bufferIndex := Some(newIndex)));
      } else {
        ok := false;
      }
    }

    /// `add_freeform_sort`.
    method AddFreeformSort(name: string, position: Vec2, advance: real)
      requires Valid()
      modifies buffer, buffer.buf
      ensures Valid() && (buffer.buf == old(buffer.buf) || fresh(buffer.buf))
      ensures Sorts() == AddedFreeform(old(Sorts()), name, position, advance)
    {
      ClearAllStates();
      buffer.Insert(buffer.Len(), FreeformSort(name, advance, position));
    }

    /// `create_text_root`.
    method CreateTextRoot(position: Vec2)
      requires Valid()
      modifies buffer, buffer.buf
      ensures Valid() && (buffer.buf == old(buffer.buf) || fresh(buffer.buf))
      ensures Sorts() == CreatedRoot(old(Sorts()), position)
    {
      ClearAllStates();
      var n := buffer.Len();
      buffer.Insert(n, PlaceholderRoot(position, n));
    }

    /// `create_text_root_with_glyph`.
    method CreateTextRootWithGlyph(name: string, advance: real, position: Vec2)
      requires Valid()
      modifies buffer, buffer.buf
      ensures Valid() && (buffer.buf == old(buffer.buf) || fresh(buffer.buf))
      ensures Sorts() == CreatedRootWithGlyph(old(Sorts()), name, advance, position)
    {
      ClearAllStates();
      buffer.Insert(buffer.Len(), GlyphRoot(name, advance, position));
    }

    /// Inserts `e` at `at` when in range, then sets the cursor of the sort now
    /// at `root`: the shared tail of typing a glyph and typing a line break.
    method InsertWithCursor(at: nat, e: SortEntry, root: nat, cursor: nat)
      requires Valid() && root < |Sorts()|
      modifies buffer, buffer.buf
      ensures Valid() && (buffer.buf == old(buffer.buf) || fresh(buffer.buf))
      ensures Sorts() == WithCursor(InsertIfInRange(old(Sorts()), at, e), root, cursor)
    {
      ghost var t := InsertIfInRange(Sorts(), at, e);
      buffer.Insert(at, e);
      assert Sorts() == t;
      var current := buffer.Get(root).value;
      var ok := buffer.SetAt(root, current.(cursor := Some(cursor)));
    }

    /// Inserts `x` at `at` and then `y` right after it, each when in range.
    method InsertPair(at: nat, x: SortEntry, y: SortEntry)
      requires Valid()
      modifies buffer, buffer.buf
      ensures Valid() && (buffer.buf == old(buffer.buf) || fresh(buffer.buf))
      ensures Sorts() == InsertIfInRange(InsertIfInRange(old(Sorts()), at, x), at + 1, y)
    {
      ghost var t := InsertIfInRange(Sorts(), at, x);
      buffer.Insert(at, x);
      assert Sorts() == t;
      buffer.Insert(at + 1, y);
    }

    /// Takes away the activity and the selection of the sort at `index`.
    method Retire(index: nat)
      requires Valid() && index < |Sorts()|
      modifies buffer.buf
      ensures Valid() && Sorts() == old(Sorts())[index := old(Sorts())[index].(isSelected := false, isActive := false)]
    {
      var e := buffer.Get(index).value;
      var ok := buffer.SetAt(index, e.(isSelected := false, isActive := false));
    }

    /// `insert_sort_at_cursor`.
    method InsertSortAtCursor(name: string, advance: real)
      requires Valid()
      modifies buffer, buffer.buf
      ensures Valid() && (buffer.buf == old(buffer.buf) || fresh(buffer.buf))
      ensures Sorts() == InsertedAtCursor(old(Sorts()), name, advance)
    {
      ghost var s := Sorts();
      var root := FindActiveBufferRootIndex();
      if root.None? {
        CreateTextRootWithGlyph(name, advance, TypingRootPosition);
        assert Sorts() == InsertedAtCursor(s, name, advance);
        return;
      }
      assert s[root.value].isBufferRoot;
      TypeAtRoot(root.value, name, advance);
      assert Sorts() == InsertedAtCursor(s, name, advance);
    }

    /// Typing once the root at `r` is known: an unnamed placeholder root becomes
    /// the glyph; otherwise the glyph goes in at the root's cursor.
    method TypeAtRoot(r: nat, name: string, advance: real)
      requires Valid() && r < |Sorts()|
      modifies buffer, buffer.buf
      ensures Valid() && (buffer.buf == old(buffer.buf) || fresh(buffer.buf))
      ensures var s := old(Sorts());
        s[r].isBufferRoot && IsUnnamedGlyph(s[r]) ==> Sorts() == s[r := FilledPlaceholder(s[r], name, advance)]
      ensures var s, k := old(Sorts()), CursorOf(old(Sorts())[r]);
        !(s[r].isBufferRoot && IsUnnamedGlyph(s[r])) ==>
          Sorts() == WithCursor(InsertIfInRange(s, r + k, TextSort(name, advance)), r, k + 1)
    {
      ghost var s := Sorts();
      var rootSort := buffer.Get(r).value;
      assert rootSort == s[r];
      if rootSort.isBufferRoot && rootSort.kind.Glyph? && rootSort.kind.glyphName == "" {
        assert IsUnnamedGlyph(s[r]);
        Replace(r, FilledPlaceholder(rootSort, name, advance));
      } else {
        var k := CursorOf(rootSort);
        InsertWithCursor(r + k, TextSort(name, advance), r, k + 1);
      }
    }

    /// Puts `e` in place of the sort at `index`.
    method Replace(index: nat, e: SortEntry)
      requires Valid() && index < |Sorts()|
      modifies buffer.buf
      ensures Valid() && Sorts() == old(Sorts())[index := e]
    {
      var ok := buffer.SetAt(index, e);
    }

    /// Removes the sort at `at` when in range, then sets the cursor of the sort
    /// now at `root`, if there is one.
    method DeleteWithCursor(at: nat, root: nat, cursor: nat)
      requires Valid()
      modifies buffer, buffer.buf
      ensures Valid() && buffer.buf == old(buffer.buf)
      ensures Sorts() == RemovedWithCursor(old(Sorts()), at, root, cursor)
    {
      ghost var t := RemoveIfInRange(Sorts(), at);
      var removed := buffer.Delete(at);
      assert Sorts() == t;
      var current := buffer.Get(root);
      if current.Some? {
        var ok := buffer.SetAt(root, current.value.(cursor := Some(cursor)));
      }
    }

    /// `delete_sort_at_cursor`.
    method DeleteSortAtCursor()
      requires Valid()
      modifies buffer, buffer.buf
      ensures Valid() && buffer.buf == old(buffer.buf)
      ensures Sorts() == DeletedAtCursor(old(Sorts()))
    {
      ghost var s := Sorts();
      var root := FindActiveBufferRootIndex();
      if root.None? {
        assert DeletedAtCursor(s) == s;
        return;
      }
      var r := root.value;
      var rootSort := buffer.Get(r).value;
      var k := CursorOf(rootSort);
      if k == 0 {
        assert DeletedAtCursor(s) == s by {
          BackspaceAtLineStartKeepsSorts(s, r);
        }
        return;
      }
      BackspaceAtRoot(r, k);
    }

    /// Backspace once the root in charge, `r`, and its cursor `k >= 1` are known.
    method BackspaceAtRoot(r: nat, k: nat)
      requires Valid() && FindActiveRoot(Sorts()) == Some(r) && CursorOf(Sorts()[r]) == k && 1 <= k
      modifies buffer, buffer.buf
      ensures Valid() && buffer.buf == old(buffer.buf)
      ensures Sorts() == DeletedAtCursor(old(Sorts()))
    {
      BackspaceAt(Sorts(), r, k);
      DeleteWithCursor(r + k - 1, r, k - 1);
    }

    /// `insert_line_break_at_cursor`.
    method InsertLineBreakAtCursor()
      requires Valid()
      modifies buffer, buffer.buf
      ensures Valid() && (buffer.buf == old(buffer.buf) || fresh(buffer.buf))
      ensures Sorts() == InsertedLineBreak(old(Sorts()))
    {
      var root := FindActiveBufferRootIndex();
      if root.None? {
        return;
      }
      var r := root.value;
      var k := CursorOf(buffer.Get(r).value);
      InsertWithCursor(r + k, LineBreakSort(), r, k + 1);
    }

    /// `create_new_line`.
    method CreateNewLine(metrics: FontMetrics)
      requires Valid()
      modifies buffer, buffer.buf
      ensures Valid() && (buffer.buf == old(buffer.buf) || fresh(buffer.buf))
      ensures Sorts() == CreatedNewLine(old(Sorts()), metrics)
    {
      var root := FindActiveBufferRootIndex();
      if root.None? {
        return;
      }
      var r := root.value;
      var rootSort := buffer.Get(r).value;
      var k := CursorOf(rootSort);
      InsertPair(r + k, LineBreakSort(), NewLineRoot(rootSort.rootPosition, metrics, r + k + 1));
      Retire(r);
    }

    /// `create_text_sort_at_position`.
    method CreateTextSortAtPosition(name: string, position: Vec2, advance: real)
      requires Valid()
      modifies buffer, buffer.buf
      ensures Valid() && (buffer.buf == old(buffer.buf) || fresh(buffer.buf))
      ensures Sorts() == CreatedTextSort(old(Sorts()), name, position, advance)
    {
      var root := FindActiveBufferRootIndex();
      if root.None? {
        CreateTextRoot(position);
      }
      InsertSortAtCursor(name, advance);
    }

    /// `move_cursor_to`.
    method MoveCursorTo(position: nat)
      requires Valid()
      modifies buffer.buf
      ensures Valid() && Sorts() == MovedCursorTo(old(Sorts()), position)
    {
      var root := FindActiveBufferRootIndex();
      if root.Some? {
        var maxPosition := GetBufferSequenceLength(root.value);
        var rootSort := buffer.Get(root.value).value;
        var clamped := if position <= maxPosition then position else maxPosition;
        var ok := buffer.SetAt(root.value, rootSort.(cursor := Some(clamped)));
      }
    }

    /// `move_cursor_left`.
    method MoveCursorLeft()
      requires Valid()
      modifies buffer.buf
      ensures Valid() && Sorts() == MovedCursorLeft(old(Sorts()))
    {
      var root := FindActiveBufferRootIndex();
      if root.Some? {
        var rootSort := buffer.Get(root.value).value;
        var current := CursorOf(rootSort);
        if current > 0 {
          var ok := buffer.SetAt(root.value, rootSort.(cursor := Some(current - 1)));
        }
      }
    }

    /// `move_cursor_right`.
    method MoveCursorRight()
      requires Valid()
      modifies buffer.buf
      ensures Valid() && Sorts() == MovedCursorRight(old(Sorts()))
    {
      var root := FindActiveBufferRootIndex();
      if root.Some? {
        var maxPosition := GetBufferSequenceLength(root.value);
        var rootSort := buffer.Get(root.value).value;
        var current := CursorOf(rootSort);
        if current < maxPosition {
          var ok := buffer.SetAt(root.value, rootSort.(cursor := Some(current + 1)));
        }
      }
    }

    /// Takes the selection away from the sort at `index`.
    method Deselect(index: nat)
      requires Valid() && index < |Sorts()|
      modifies buffer.buf
      ensures Valid() && Sorts() == old(Sorts())[index := old(Sorts())[index].(isSelected := false)]
    {
      var e := buffer.Get(index).value;
      var ok := buffer.SetAt(index, e.(isSelected := false));
    }

    /// Selects the sort at `index` with its cursor at `cursor`.
    method SelectWithCursor(index: nat, cursor: nat)
      requires Valid() && index < |Sorts()|
      modifies buffer.buf
      ensures Valid()
      ensures Sorts() == old(Sorts())[index := old(Sorts())[index].(isSelected := true, cursor := Some(cursor))]
    {
      var e := buffer.Get(index).value;
      var ok := buffer.SetAt(index, e.(isSelected := true, cursor := Some(cursor)));
    }

    /// `move_cursor_up`: search backwards for the previous root.
    method MoveCursorUp()
      requires Valid()
      modifies buffer.buf
      ensures Valid() && Sorts() == MovedCursorUp(old(Sorts()))
    {
      var current := FindActiveBufferRootIndex();
      if current.None? {
        return;
      }
      ghost var s := Sorts();
      var i: nat := current.value;
      while i > 0
        invariant i <= current.value < |s|
        invariant Sorts() == s
        invariant forall j :: i <= j < current.value ==> !s[j].isBufferRoot
      {
        var sort := buffer.Get(i - 1).value;
        if sort.isBufferRoot {
          assert LastWhere(s, IsRoot, current.value) == Some(i - 1);
          Deselect(current.value);
          var length := GetBufferSequenceLength(i - 1);
          SelectWithCursor(i - 1, length);
          return;
        }
        i := i - 1;
      }
    }

    /// `move_cursor_down`: search forwards for the next root.
    method MoveCursorDown()
      requires Valid()
      modifies buffer.buf
      ensures Valid() && Sorts() == MovedCursorDown(old(Sorts()))
    {
      var current := FindActiveBufferRootIndex();
      if current.None? {
        return;
      }
      ghost var s := Sorts();
      var n := buffer.Len();
      for i := current.value + 1 to n
        invariant Sorts() == s
        invariant forall j :: current.value + 1 <= j < i ==> !s[j].isBufferRoot
      {
        var sort := buffer.Get(i).value;
        if sort.isBufferRoot {
          assert FirstWhere(s, IsRoot, current.value + 1) == Some(i);
          Deselect(current.value);
          SelectWithCursor(i, 0);
          return;
        }
      }
    }
  }
}
