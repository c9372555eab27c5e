/// The edit-mode toolbar's tool registry and the current/previous tool state.
/// Tools are kept in a map from id to tool; the display order is rebuilt
/// lazily, sorting by each tool's default order and then by id.
module Toolbar {
  import opened Wrappers
  import opened Sorting

  /// What the registry knows of a tool. The per-frame behaviour and the
  /// enter/exit hooks are not part of the model.
  datatype EditTool = EditTool(
    id: string,
    name: string,
    icon: string,
    shortcutKey: Option<char>,
    defaultOrder: int,
    description: string)

  /// Order of `(id, default order)` pairs: by order, then by id.
  predicate OrderedBefore(a: (string, int), b: (string, int))
  {
    a.1 < b.1 || (a.1 == b.1 && LexLe(a.0, b.0))
  }

  /// The comparison is a total order, so the sorted list is determined.
  lemma OrderedBeforeIsTotalOrder()
    ensures IsTotalPreorder(OrderedBefore)
    ensures forall a, b :: OrderedBefore(a, b) && OrderedBefore(b, a) ==> a == b
  {
    LexLeIsTotalOrder();
  }

  /// The sort key of a registered tool.
  function KeyOf(tools: map<string, EditTool>, id: string): (k: (string, int))
    requires id in tools
    ensures k.0 == id && k.1 == tools[id].defaultOrder
  {
    (id, tools[id].defaultOrder)
  }

  /// `ids` lists every registered tool once, sorted by (default order, id).
  ghost predicate IsToolOrdering(ids: seq<string>, tools: map<string, EditTool>)
  {
    Distinct(ids) && (forall id :: id in ids <==> id in tools) &&
    forall i, j :: 0 <= i < j < |ids| ==> OrderedBefore(KeyOf(tools, ids[i]), KeyOf(tools, ids[j]))
  }

  /// The sort keys of registered tools, in the order of `ids`.
  function Keys(tools: map<string, EditTool>, ids: seq<string>): (r: seq<(string, int)>)
    requires forall id :: id in ids ==> id in tools
    ensures |r| == |ids| && forall i :: 0 <= i < |ids| ==> r[i] == KeyOf(tools, ids[i])
  {
    seq(|ids|, i requires 0 <= i < |ids| => KeyOf(tools, ids[i]))
  }

  /// Keys carry their ids, so distinct ids give distinct keys.
  lemma KeysOfDistinctIds(tools: map<string, EditTool>, ids: seq<string>)
    requires forall id :: id in ids ==> id in tools
    requires Distinct(ids)
    ensures Distinct(Keys(tools, ids))
  {
    var k := Keys(tools, ids);
    forall i, j | 0 <= i < j < |k| ensures k[i] != k[j] { assert k[i].0 == ids[i]; }
  }

  /// Only one sequence is a tool ordering of a given registry, whatever order
  /// the map is iterated in.
  lemma ToolOrderingIsUnique(a: seq<string>, b: seq<string>, tools: map<string, EditTool>)
    requires IsToolOrdering(a, tools) && IsToolOrdering(b, tools)
    ensures a == b
  {
    var ka, kb := Keys(tools, a), Keys(tools, b);
    KeysOfDistinctIds(tools, a);
    KeysOfDistinctIds(tools, b);
    forall k ensures k in ka <==> k in kb {
      if k in ka {
        var i :| 0 <= i < |a| && ka[i] == k;
        assert a[i] in b;
        var j :| 0 <= j < |b| && b[j] == a[i];
        assert kb[j] == k;
      }
      if k in kb {
        var j :| 0 <= j < |b| && kb[j] == k;
        assert b[j] in a;
        var i :| 0 <= i < |a| && a[i] == b[j];
        assert ka[i] == k;
      }
    }
    SameElementsSameMultiset(ka, kb);
    OrderedBeforeIsTotalOrder();
    SortedUnique(ka, kb, OrderedBefore);
    assert forall i :: 0 <= i < |a| ==> a[i] == ka[i].0 == kb[i].0 == b[i];
  }

  /// `ToolRegistry`.
  class ToolRegistry {
    var tools: map<string, EditTool>
    var orderedToolIds: seq<string>
    var orderingDirty: bool

    /// Each tool is filed under its own id.
    ghost predicate Valid()
      reads this
    {
      forall id :: id in tools ==> tools[id].id == id
    }

    constructor()
      ensures Valid()
      ensures tools == map[] && orderedToolIds == [] && !orderingDirty
    {
      tools := map[];
      orderedToolIds := [];
      orderingDirty := false;
    }

    /// `register_tool`: adds the tool, replacing one with the same id, and
    /// marks the ordering stale.
    method RegisterTool(tool: EditTool)
      requires Valid()
      modifies this
      ensures Valid()
      ensures tools == old(tools)[tool.id := tool]
      ensures orderingDirty && orderedToolIds == old(orderedToolIds)
    {
      tools := tools[tool.id := tool];
      orderingDirty := true;
    }

    /// `get_tool`.
    function GetTool(id: string): (r: Option<EditTool>)
      reads this
      ensures r.Some? <==> id in tools
      ensures r.Some? ==> r.value == tools[id]
      ensures Valid() && r.Some? ==> r.value.id == id
    {
      if id in tools then Some(tools[id]) else None
    }

    /// `get_all_tool_ids`: every registered id once, in the map's iteration
    /// order, which the model leaves open.
    method GetAllToolIds() returns (ids: seq<string>)
      ensures Distinct(ids)
      ensures forall id :: id in ids <==> id in tools
    {
      ids := [];
      var rest := tools.Keys;
      while rest != {}
        invariant rest <= tools.Keys
        invariant Distinct(ids)
        invariant forall id :: id in ids <==> id in tools && id !in rest
        decreases |rest|
      {
        var id :| id in rest;
        ids := ids + [id];
        rest := rest - {id};
      }
    }

    /// `rebuild_ordering`.
    method RebuildOrdering()
      modifies this
      ensures tools == old(tools)
      ensures IsToolOrdering(orderedToolIds, tools) && !orderingDirty
    {
      var ids := GetAllToolIds();
      var keyed := Keys(tools, ids);
      var sorted := SortBy(keyed, OrderedBefore);
      OrderedBeforeIsTotalOrder();
      SortBySorted(keyed, OrderedBefore);
      SortByMembers(keyed, OrderedBefore);
      assert Distinct(keyed) by {
        forall i, j | 0 <= i < j < |keyed| ensures keyed[i] != keyed[j] { assert keyed[i].0 == ids[i]; }
      }
      SortByKeepsDistinct(keyed, OrderedBefore);
      orderedToolIds := seq(|sorted|, i requires 0 <= i < |sorted| => sorted[i].0);
      orderingDirty := false;
      SortedKeysGiveOrdering(tools, ids, keyed, sorted, orderedToolIds);
    }

    /// `get_ordered_tools`: the ordering, rebuilt first if stale.
    method GetOrderedTools() returns (ids: seq<string>)
      modifies this
      ensures tools == old(tools) && !orderingDirty && ids == orderedToolIds
      ensures old(orderingDirty) ==> IsToolOrdering(ids, tools)
      ensures !old(orderingDirty) ==> ids == old(orderedToolIds)
    {
      if orderingDirty {
        RebuildOrdering();
      }
      ids := orderedToolIds;
    }

    /// `apply_custom_ordering`: a non-empty order replaces the current one and
    /// counts as fresh; an empty one is ignored.
    method ApplyCustomOrdering(customOrder: seq<string>)
      modifies this
      ensures tools == old(tools)
      ensures customOrder != [] ==> orderedToolIds == customOrder && !orderingDirty
      ensures customOrder == [] ==> orderedToolIds == old(orderedToolIds) && orderingDirty == old(orderingDirty)
    {
      if customOrder != [] {
        orderedToolIds := customOrder;
        orderingDirty := false;
      }
    }
  }

  /// Sorting the keys of all registered ids and keeping the ids gives the tool
  /// ordering.
  lemma SortedKeysGiveOrdering(tools: map<string, EditTool>, ids: seq<string>, keyed: seq<(string, int)>,
                               sorted: seq<(string, int)>, ordered: seq<string>)
    requires forall id :: id in ids <==> id in tools
    requires keyed == Keys(tools, ids)
    requires (forall k :: k in sorted <==> k in keyed) && Distinct(sorted) && SortedBy(sorted, OrderedBefore)
    requires |ordered| == |sorted| && forall i :: 0 <= i < |sorted| ==> ordered[i] == sorted[i].0
    ensures IsToolOrdering(ordered, tools)
  {
    forall i | 0 <= i < |sorted| ensures ordered[i] in tools && sorted[i] == KeyOf(tools, ordered[i]) {
      assert sorted[i] in keyed;
    }
    assert Distinct(ordered) by {
      forall i, j | 0 <= i < j < |ordered| ensures ordered[i] != ordered[j] {
        assert sorted[i] == KeyOf(tools, ordered[i]) && sorted[j] == KeyOf(tools, ordered[j]);
      }
    }
    forall id | id in tools ensures id in ordered {
      var i :| 0 <= i < |ids| && ids[i] == id;
      assert keyed[i] in sorted;
      var j :| 0 <= j < |sorted| && sorted[j] == keyed[i];
      assert ordered[j] == id;
    }
  }

  /// `CurrentTool`: the active tool and the one before it.
  class CurrentTool {
    var current: Option<string>
    var previous: Option<string>

    constructor()
      ensures current == None && previous == None
    {
      current := None;
      previous := None;
    }

    /// `switch_to`: the old current tool becomes the previous one.
    method SwitchTo(newTool: string)
      modifies this
      ensures current == Some(newTool) && previous == old(current)
    {
      previous := current;
      current := Some(newTool);
    }
  }
}
