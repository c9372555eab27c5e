/// The text tool's placement modes, cycled with Tab, and the layout mode a
/// newly placed sort gets in each.
module TextTool {
  import SortEditor

  datatype TextPlacementMode = LTRText | RTLText | Insert | Freeform

  /// The mode the tool starts in.
  const DefaultMode := LTRText

  /// `get_icon`: a private-use glyph of the icon font.
  function Icon(m: TextPlacementMode): (r: string)
    ensures |r| == 1 && 0xE000 <= r[0] as int <= 0xF8FF
  {
    match m
    case LTRText => "\U{E004}"
    case RTLText => "\U{E005}"
    case Insert => "\U{F001}"
    case Freeform => "\U{E006}"
  }

  /// `display_name`.
  function DisplayName(m: TextPlacementMode): (r: string)
    ensures r != []
  {
    match m
    case LTRText => "LTR Text"
    case RTLText => "RTL Text"
    case Insert => "Insert"
    case Freeform => "Freeform"
  }

  /// `to_sort_layout_mode`: Insert places left-to-right text.
  function ToSortLayoutMode(m: TextPlacementMode): (r: SortEditor.LayoutMode)
    ensures r == SortEditor.Freeform <==> m == Freeform
    ensures r == SortEditor.RTLText <==> m == RTLText
    ensures r == SortEditor.LTRText <==> m == LTRText || m == Insert
  {
    match m
    case LTRText => SortEditor.LTRText
    case RTLText => SortEditor.RTLText
    case Insert => SortEditor.LTRText
    case Freeform => SortEditor.Freeform
  }

  /// `cycle_next`, bound to Tab.
  function CycleNext(m: TextPlacementMode): (r: TextPlacementMode)
    ensures r != m
  {
    match m
    case LTRText => RTLText
    case RTLText => Insert
    case Insert => Freeform
    case Freeform => LTRText
  }

  /// Tab pressed `k` times.
  function CycleTimes(m: TextPlacementMode, k: nat): TextPlacementMode
  {
    if k == 0 then m else CycleNext(CycleTimes(m, k - 1))
  }

  /// The modes seen on the first four presses of Tab, starting with `m`.
  function Orbit(m: TextPlacementMode): seq<TextPlacementMode>
  {
    [CycleTimes(m, 0), CycleTimes(m, 1), CycleTimes(m, 2), CycleTimes(m, 3)]
  }

  /// Four presses of Tab come back to the starting mode, and the presses in
  /// between pass through every mode once.
  lemma CycleHasPeriodFour(m: TextPlacementMode)
    ensures CycleTimes(m, 4) == m
    ensures forall k :: 0 < k < 4 ==> CycleTimes(m, k) != m
    ensures forall t :: t in Orbit(m)
  {
    forall t ensures t in Orbit(m) {
      assert t == LTRText || t == RTLText || t == Insert || t == Freeform;
      match m
      case LTRText => assert Orbit(m) == [LTRText, RTLText, Insert, Freeform];
      case RTLText => assert Orbit(m) == [RTLText, Insert, Freeform, LTRText];
      case Insert => assert Orbit(m) == [Insert, Freeform, LTRText, RTLText];
      case Freeform => assert Orbit(m) == [Freeform, LTRText, RTLText, Insert];
    }
  }

  /// Each mode has a name of its own, and an icon of its own.
  lemma NamesAndIconsDistinct(a: TextPlacementMode, b: TextPlacementMode)
    requires a != b
    ensures DisplayName(a) != DisplayName(b)
    ensures Icon(a) != Icon(b)
  {
  }
}
