/// The edit-mode toolbar's fixed configuration table and its queries: the
/// enabled tools in display order, lookup by id, and all tools in display order.
module ToolbarConfig {
  import opened Wrappers
  import opened Search
  import opened Sorting

  datatype ToolBehavior = Select | Pan | Pen | Text | Shapes | Knife | Hyper | Measure | Metaballs | Ai

  datatype ToolConfig = ToolConfig(
    order: int,
    id: string,
    name: string,
    icon: string,
    shortcut: Option<char>,
    enabled: bool,
    behavior: ToolBehavior,
    description: string)

  /// `TOOLBAR_TOOLS`.
  const ToolbarTools: seq<ToolConfig> := [
    ToolConfig(10, "select", "Select", "\U{E010}", Some('v'), true, Select,
      "Select and move points, handles, and components"),
    ToolConfig(15, "pan", "Pan", "\U{E014}", Some(' '), true, Pan,
      "Pan the view (hold spacebar for temporary mode)"),
    ToolConfig(20, "pen", "Pen", "\U{E011}", Some('p'), true, Pen,
      "Draw and edit B\U{E9}zier curves (Tab for modes)"),
    ToolConfig(30, "shapes", "Shapes", "\U{E016}", Some('s'), true, Shapes,
      "Create geometric shapes like rectangles and ellipses"),
    ToolConfig(16, "text", "Text", "\U{E017}", Some('t'), true, Text,
      "Place text and create sorts (Tab for modes)"),
    ToolConfig(50, "knife", "Knife", "\U{E013}", Some('k'), true, Knife,
      "Cut contours at specific points"),
    ToolConfig(60, "hyper", "Hyper", "\U{E012}", Some('h'), false, Hyper,
      "Draw smooth hyperbezier curves"),
    ToolConfig(70, "measure", "Measure", "\U{E015}", Some('m'), true, Measure,
      "Measure distances and show guides"),
    ToolConfig(80, "metaballs", "Metaballs", "\U{E019}", Some('b'), false, Metaballs,
      "Create organic shapes with metaball effects"),
    ToolConfig(90, "ai", "AI", "\U{E012}", Some('a'), true, Ai,
      "AI-powered font editing tools (Tab for submenu)")
  ]

  /// `sort_by_key(|tool| tool.order)`'s comparison.
  predicate OrderLe(a: ToolConfig, b: ToolConfig)
  {
    a.order <= b.order
  }

  lemma OrderLeIsTotalPreorder()
    ensures IsTotalPreorder(OrderLe)
  {
  }

  /// The enabled entries of a table, sorted by order: exactly the table's
  /// enabled entries, in display order.
  function EnabledTools(table: seq<ToolConfig>): (r: seq<ToolConfig>)
    ensures SortedBy(r, OrderLe)
    ensures forall t :: t in r <==> t in table && t.enabled
    ensures |r| <= |table|
    ensures multiset(r) == multiset(Filter(table, (t: ToolConfig) => t.enabled))
    ensures forall t :: multiset(r)[t] == if t.enabled then multiset(table)[t] else 0
  {
    var enabled := Filter(table, (t: ToolConfig) => t.enabled);
    FilterCounts(table, (t: ToolConfig) => t.enabled);
    OrderLeIsTotalPreorder();
    SortBySorted(enabled, OrderLe);
    SortByMembers(enabled, OrderLe);
    SortBy(enabled, OrderLe)
  }

  /// `get_enabled_tools`: the enabled tools of the fixed table, in display
  /// order. `EnabledToolsSkipDisabled` says which entries that leaves.
  function GetEnabledTools(): (r: seq<ToolConfig>)
    ensures SortedBy(r, OrderLe)
    ensures forall t :: t in r ==> t.enabled
  {
    EnabledTools(ToolbarTools)
  }

  /// `get_tool`: the first entry with the id.
  function GetTool(id: string): (r: Option<ToolConfig>)
    ensures r.Some? ==> r.value in ToolbarTools && r.value.id == id
    ensures r.None? <==> forall t :: t in ToolbarTools ==> t.id != id
  {
    match FirstWhere(ToolbarTools, (t: ToolConfig) => t.id == id, 0)
    case Some(i) => Some(ToolbarTools[i])
    case None => None
  }

  /// `get_all_tools`: the whole table, enabled or not, reordered by display
  /// order.
  function GetAllTools(): (r: seq<ToolConfig>)
    ensures SortedBy(r, OrderLe)
    ensures multiset(r) == multiset(ToolbarTools)
    ensures |r| == |ToolbarTools|
  {
    OrderLeIsTotalPreorder();
    SortBySorted(ToolbarTools, OrderLe);
    SortByMembers(ToolbarTools, OrderLe);
    SortBy(ToolbarTools, OrderLe)
  }

  /// Ids in the table are unique, and so are display orders, so the sorted
  /// lists do not depend on how ties would be broken.
  lemma TableKeysAreUnique()
    ensures forall i, j :: 0 <= i < j < |ToolbarTools| ==> ToolbarTools[i].id != ToolbarTools[j].id
    ensures forall i, j :: 0 <= i < j < |ToolbarTools| ==> ToolbarTools[i].order != ToolbarTools[j].order
  {
  }

  /// Only the hyper and metaballs entries are disabled.
  lemma DisabledEntries()
    ensures forall i :: 0 <= i < |ToolbarTools| ==>
      (ToolbarTools[i].enabled <==> ToolbarTools[i].id != "hyper" && ToolbarTools[i].id != "metaballs")
  {
  }

  /// In a table where only hyper and metaballs are disabled, as in
  /// `ToolbarTools` (`DisabledEntries`), the enabled list holds every entry but
  /// those two.
  lemma EnabledToolsSkipDisabled(table: seq<ToolConfig>)
    requires forall i :: 0 <= i < |table| ==>
      (table[i].enabled <==> table[i].id != "hyper" && table[i].id != "metaballs")
    ensures forall t :: t in EnabledTools(table) ==> t.id != "hyper" && t.id != "metaballs"
    ensures forall t :: t in table && t.id != "hyper" && t.id != "metaballs" ==> t in EnabledTools(table)
  {
    forall t | t in EnabledTools(table) ensures t.id != "hyper" && t.id != "metaballs" {
      var i :| 0 <= i < |table| && table[i] == t;
    }
    forall t | t in table && t.id != "hyper" && t.id != "metaballs" ensures t in EnabledTools(table) {
      var i :| 0 <= i < |table| && table[i] == t;
    }
  }

  /// Looking up an id of the table finds that entry.
  lemma GetToolFindsEntry(i: nat)
    requires i < |ToolbarTools|
    ensures GetTool(ToolbarTools[i].id) == Some(ToolbarTools[i])
  {
    TableKeysAreUnique();
  }
}
