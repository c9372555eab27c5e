/// Codepoint cycling over a list of codepoint strings, as the UFO data layer
/// offers it (`cycle_codepoint_in_list` and its Next/Previous shorthands). It
/// differs from the navigation version: an empty or unknown current value starts
/// at the first entry going forward and at the last going backward, and the
/// wrap-around is written with comparisons rather than a remainder.
module UfoCodepoints {
  import opened Wrappers
  import opened Search
  import opened Sorting
  import opened Cycling

  datatype CycleDirection = Next | Previous

  /// `get_direction_default`: the first entry for Next, the last for Previous.
  function DirectionDefault(codepoints: seq<string>, direction: CycleDirection): (r: Option<string>)
    ensures r.None? <==> codepoints == []
    ensures r.Some? && direction == Next ==> r.value == codepoints[0]
    ensures r.Some? && direction == Previous ==> r.value == codepoints[|codepoints| - 1]
  {
    if codepoints == [] then None
    else
      match direction
      case Next => Some(codepoints[0])
      case Previous => Some(codepoints[|codepoints| - 1])
  }

  /// `cycle_codepoint_in_list`.
  function CycleCodepointInList(available: seq<string>, current: string, direction: CycleDirection): (r: Option<string>)
    ensures r.None? <==> available == []
    ensures r.Some? ==> r.value in available
  {
    if available == [] then None
    else if current == "" then DirectionDefault(available, direction)
    else
      match IndexOf(available, current)
      case None => DirectionDefault(available, direction)
      case Some(position) =>
        match direction
        case Next =>
          if position + 1 < |available| then Some(available[position + 1]) else Some(available[0])
        case Previous =>
          if position > 0 then Some(available[position - 1]) else Some(available[|available| - 1])
  }

  /// `find_next_codepoint_in_list`.
  function FindNextCodepointInList(available: seq<string>, current: string): (r: Option<string>)
    ensures r == CycleCodepointInList(available, current, Next)
    ensures r.None? <==> available == []
  {
    CycleCodepointInList(available, current, Next)
  }

  /// `find_previous_codepoint_in_list`.
  function FindPreviousCodepointInList(available: seq<string>, current: string): (r: Option<string>)
    ensures r == CycleCodepointInList(available, current, Previous)
    ensures r.None? <==> available == []
  {
    CycleCodepointInList(available, current, Previous)
  }

  /// No current value, or one the list does not hold, starts at the first entry
  /// going forward and at the last going backward.
  lemma CycleStartsAtEnds(available: seq<string>, current: string)
    requires available != [] && (current == "" || current !in available)
    ensures FindNextCodepointInList(available, current) == Some(available[0])
    ensures FindPreviousCodepointInList(available, current) == Some(available[|available| - 1])
  {
  }

  /// From a listed entry, Next goes one place on and Previous one place back,
  /// wrapping at both ends.
  lemma CycleStep(available: seq<string>, i: nat)
    requires Distinct(available) && i < |available| && available[i] != ""
    ensures FindNextCodepointInList(available, available[i]) == Some(available[NextIndex(i, |available|)])
    ensures FindPreviousCodepointInList(available, available[i]) == Some(available[PreviousIndex(i, |available|)])
  {
    IndexOfDistinct(available, i);
  }

  /// Next from the last entry is the first, and Previous from the first is the last.
  lemma CycleWraps(available: seq<string>)
    requires Distinct(available) && available != [] && "" !in available
    ensures FindNextCodepointInList(available, available[|available| - 1]) == Some(available[0])
    ensures FindPreviousCodepointInList(available, available[0]) == Some(available[|available| - 1])
  {
    CycleStep(available, |available| - 1);
    CycleStep(available, 0);
  }

  /// Previous undoes Next and Next undoes Previous when the entries are distinct
  /// and none is empty (codepoint strings never are).
  lemma CycleStepsUndo(available: seq<string>, x: string)
    requires Distinct(available) && "" !in available && x in available
    ensures FindPreviousCodepointInList(available, FindNextCodepointInList(available, x).value) == Some(x)
    ensures FindNextCodepointInList(available, FindPreviousCodepointInList(available, x).value) == Some(x)
  {
    var n := |available|;
    var i :| 0 <= i < n && available[i] == x;
    var j, k := NextIndex(i, n), PreviousIndex(i, n);
    CycleStep(available, i);
    CycleStep(available, j);
    CycleStep(available, k);
    StepsUndo(i, n);
  }
}
