/// The editor's selection state: the selected entities in the order they
/// were selected, the last one selected, and the multi-select and
/// drag-select flags.
module Selection {
  import opened Wrappers

  /// An entity of the scene; only its identity matters here.
  type Entity = nat

  /// No entity appears twice.
  predicate NoDuplicates(s: seq<Entity>)
  {
    forall i, j :: 0 <= i < j < |s| ==> s[i] != s[j]
  }

  function Elements(s: seq<Entity>): set<Entity>
  {
    set x | x in s
  }

  /// The selection list after selecting `e`: appended when new, unchanged otherwise.
  function AddedTo(s: seq<Entity>, e: Entity): (r: seq<Entity>)
    ensures Elements(r) == Elements(s) + {e}
    ensures NoDuplicates(s) ==> NoDuplicates(r)
    ensures s <= r
  {
    if e in s then s else s + [e]
  }

  /// Selecting an entity twice is selecting it once.
  lemma AddIsIdempotent(s: seq<Entity>, e: Entity)
    ensures AddedTo(AddedTo(s, e), e) == AddedTo(s, e)
  {
    assert e in AddedTo(s, e) by {
      assert e in Elements(AddedTo(s, e));
    }
  }

  /// Without duplicates, the list is as long as the set it holds.
  lemma {:induction false} DistinctCount(s: seq<Entity>)
    requires NoDuplicates(s)
    ensures |s| == |Elements(s)|
  {
    if s != [] {
      var init := s[..|s| - 1];
      DistinctCount(init);
      assert s == init + [s[|s| - 1]];
      assert Elements(s) == Elements(init) + {s[|s| - 1]};
      assert s[|s| - 1] !in Elements(init);
    }
  }

  class SelectionState {
    var multiSelect: bool
    var lastSelected: Option<Entity>
    var selectedEntities: seq<Entity>
    var dragSelecting: bool

    /// The selection lists each entity once, and whenever something is
    /// selected the last entity added is among it.
    ghost predicate Valid()
      reads this
    {
      NoDuplicates(selectedEntities) &&
      (lastSelected.Some? ==> lastSelected.value in selectedEntities)
    }

    /// `Default`: nothing selected, no mode active.
    constructor ()
      ensures selectedEntities == [] && lastSelected == None
      ensures !multiSelect && !dragSelecting
      ensures Valid()
    {
      multiSelect, dragSelecting := false, false;
      lastSelected := None;
      selectedEntities := [];
    }

    /// `add_selected`: a new entity goes to the end of the list and becomes
    /// the last selected; an entity already selected changes nothing.
    method AddSelected(entity: Entity)
      modifies this
      ensures selectedEntities == AddedTo(old(selectedEntities), entity)
      ensures lastSelected == if entity in old(selectedEntities) then old(lastSelected) else Some(entity)
      ensures multiSelect == old(multiSelect) && dragSelecting == old(dragSelecting)
      ensures old(Valid()) ==> Valid()
    {
      if entity !in selectedEntities {
        selectedEntities := selectedEntities + [entity];
        lastSelected := Some(entity);
      }
    }

    /// `clear`: nothing selected and no last selection; the flags stay.
    method Clear()
      modifies this
      ensures selectedEntities == [] && lastSelected == None
      ensures IsEmpty() && Count() == 0
      ensures multiSelect == old(multiSelect) && dragSelecting == old(dragSelecting)
      ensures Valid()
    {
      selectedEntities := [];
      lastSelected := None;
    }

    /// `is_empty`.
    function IsEmpty(): (r: bool)
      reads this
      ensures r <==> Elements(selectedEntities) == {}
    {
      assert selectedEntities != [] ==> selectedEntities[0] in Elements(selectedEntities);
      |selectedEntities| == 0
    }

    /// `count`: on a valid state, the number of distinct selected entities.
    function Count(): (r: nat)
      reads this
      ensures NoDuplicates(selectedEntities) ==> r == |Elements(selectedEntities)|
      ensures r == 0 <==> IsEmpty()
    {
      assert NoDuplicates(selectedEntities) ==> |selectedEntities| == |Elements(selectedEntities)| by {
        if NoDuplicates(selectedEntities) { DistinctCount(selectedEntities); }
      }
      |selectedEntities|
    }
  }
}
