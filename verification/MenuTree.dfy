/**
 Menus as values (app/src/menu.rs): a tree of submenus, each with rows, a selection and a hovered row,
 and what each operation makes of the tree. Rendering, labels and scrolling are not part of it.
 */
module MenuTrees {
  import opened Wrappers

  /** Actions of items are compared, never looked into. */
  type Action = nat

  datatype Fields = Fields(disabled: bool, noInteractionOnHover: bool, onSelect: Option<Action>)

  datatype Row =
    | Item(fields: Fields)
    | Separator
    | ItemsRow(items: seq<Fields>)
    | Submenu(menu: Tree)
    | Header(fields: Fields, clickable: bool)

  datatype Source = KeyboardOrProgrammatic | Pointer

  datatype Tree = Tree(depth: nat, rows: seq<Row>, row: Option<nat>, item: Option<nat>, hovered: Option<nat>,
                       source: Option<Source>)

  datatype SelectAction = Previous | Next | Index(row: nat, item: nat)

  predicate Enabled(fields: Fields) {
    !fields.disabled && !fields.noInteractionOnHover
  }

  function ItemsLen(row: Row): Option<nat> {
    match row
    case Item(_) => Some(1)
    case Separator => None
    case ItemsRow(items) => Some(|items|)
    case Submenu(menu) => Some(|menu.rows| + 1)
    case Header(_, clickable) => Some(if clickable then 1 else 0)
  }

  /** `map_or(0, |l| l.saturating_sub(1))`. */
  function Decreased(len: Option<nat>): nat {
    if len.None? || len.value == 0 then 0 else len.value - 1
  }

  /** The last item that a move may reach in a row. */
  function LastItem(row: Row): nat {
    Decreased(ItemsLen(row))
  }

  predicate Selectable(row: Row) {
    match row
    case Item(fields) => Enabled(fields)
    case Separator => false
    case ItemsRow(items) => exists k :: 0 <= k < |items| && Enabled(items[k])
    case Submenu(menu) => menu.rows != []
    case Header(_, clickable) => clickable
  }

  // Moving a selection.

  /** The row at place `j` of the rows repeated for ever, or of the rows backwards repeated for ever. */
  function Cycled(n: nat, backwards: bool, j: nat): (k: nat)
    requires n > 0
    ensures k < n
  {
    if backwards then n - 1 - j % n else j % n
  }

  /** The first selectable row among `count` places from `j` on. */
  function FindCycled(rows: seq<Row>, backwards: bool, j: nat, count: nat): (r: Option<nat>)
    requires count > 0 ==> rows != []
    ensures r.Some? ==> r.value < |rows| && Selectable(rows[r.value])
    decreases count
  {
    if count == 0 then None
    else if Selectable(rows[Cycled(|rows|, backwards, j)]) then Some(Cycled(|rows|, backwards, j))
    else FindCycled(rows, backwards, j + 1, count - 1)
  }

  function OrElse(value: Option<nat>, default: nat): nat {
    if value.Some? then value.value else default
  }

  function RowAfter(rows: seq<Row>, row: nat): (r: nat)
    ensures row < |rows| ==> r < |rows|
  {
    OrElse(FindCycled(rows, false, row + 1, |rows|), row)
  }

  /** The rows that the search backwards from a row skips. */
  function SkippedBackwards(n: nat, row: nat): nat {
    if row < n then n - row else 0
  }

  function RowBefore(rows: seq<Row>, row: nat): (r: nat)
    ensures row < |rows| ==> r < |rows|
  {
    OrElse(FindCycled(rows, true, SkippedBackwards(|rows|, row), |rows|), row)
  }

  /** No row is indexed out of range: down looks at the row of a selected item, and up at the row that
      it goes to. */
  predicate CanSelect(t: Tree, action: SelectAction) {
    match action
    case Index(_, _) => true
    case Previous =>
      t.row.None? || (t.item.Some? && t.item.value > 0) || RowBefore(t.rows, t.row.value) < |t.rows|
    case Next => t.row.None? || t.item.None? || t.row.value < |t.rows|
  }

  /** Where a selection moves. */
  function Moved(t: Tree, action: SelectAction): (nat, nat)
    requires CanSelect(t, action)
  {
    match action
    case Index(row, item) => (row, item)
    case Previous =>
      if t.row.None? then (0, 0)
      else if t.item.Some? && t.item.value > 0 then (t.row.value, t.item.value - 1)
      else
        var row := RowBefore(t.rows, t.row.value);
        (row, LastItem(t.rows[row]))
    case Next =>
      if t.row.None? then (0, 0)
      else if t.item.Some? && t.item.value < LastItem(t.rows[t.row.value]) then (t.row.value, t.item.value + 1)
      else (RowAfter(t.rows, t.row.value), 0)
  }

  function Select(t: Tree, action: SelectAction, source: Source): Tree
    requires CanSelect(t, action)
  {
    var (row, item) := Moved(t, action);
    t.(row := Some(row), item := Some(item), hovered := Some(row), source := Some(source))
  }

  // The tree.

  /** The submenu of the selected row, when it has a selection of its own. */
  predicate Descends(t: Tree) {
    && t.row.Some? && t.row.value < |t.rows| && t.rows[t.row.value].Submenu?
    && t.rows[t.row.value].menu.row.Some?
  }

  function WithSelected(t: Tree, menu: Tree): Tree
    requires t.row.Some? && t.row.value < |t.rows|
  {
    t.(rows := t.rows[t.row.value := Submenu(menu)])
  }

  /** `CanSelect`, for the active menu. */
  predicate CanSelectActive(t: Tree, action: SelectAction) {
    if Descends(t) then CanSelectActive(t.rows[t.row.value].menu, action) else CanSelect(t, action)
  }

  /** `active_menu_mut` followed by `select`. */
  function SelectActive(t: Tree, action: SelectAction): Tree
    requires CanSelectActive(t, action)
  {
    if Descends(t) then WithSelected(t, SelectActive(t.rows[t.row.value].menu, action))
    else Select(t, action, KeyboardOrProgrammatic)
  }

  function FirstSelectable(rows: seq<Row>): (r: Option<nat>)
    ensures r.Some? ==> r.value < |rows| && Selectable(rows[r.value])
                        && forall k :: 0 <= k < r.value ==> !Selectable(rows[k])
    ensures r.None? ==> forall k :: 0 <= k < |rows| ==> !Selectable(rows[k])
  {
    if rows == [] then None
    else if Selectable(rows[0]) then Some(0)
    else
      match FirstSelectable(rows[1..])
      case None => None
      case Some(k) => Some(k + 1)
  }

  function SelectFirstSelectable(t: Tree): (Tree, bool) {
    match FirstSelectable(t.rows)
    case None => (t, false)
    case Some(row) => (Select(t, Index(row, 0), KeyboardOrProgrammatic), true)
  }

  /** The selected row of this very menu, if it is one. */
  function SelectedRow(t: Tree): Option<Row> {
    if t.row.Some? && t.row.value < |t.rows| then Some(t.rows[t.row.value]) else None
  }

  function OpenSelectedSubmenu(t: Tree): (Tree, bool) {
    if Descends(t) then
      var (menu, found) := OpenSelectedSubmenu(t.rows[t.row.value].menu);
      (WithSelected(t, menu), found)
    else
      match SelectedRow(t)
      case Some(Submenu(menu)) =>
        var (first, found) := SelectFirstSelectable(menu);
        (WithSelected(t, first), found)
      case _ => (t, false)
  }

  function ItemAction(row: Row, item: nat): Option<Action> {
    match row
    case Item(fields) => fields.onSelect
    case ItemsRow(items) => if item < |items| then items[item].onSelect else None
    case Header(fields, clickable) => if clickable then fields.onSelect else None
    case _ => None
  }

  function SelectedActionForEnter(t: Tree): (Tree, Option<Action>) {
    if Descends(t) then
      var (menu, action) := SelectedActionForEnter(t.rows[t.row.value].menu);
      (WithSelected(t, menu), action)
    else
      match SelectedRow(t)
      case None => (t, None)
      case Some(Submenu(menu)) => (WithSelected(t, SelectFirstSelectable(menu).0), None)
      case Some(row) => (t, ItemAction(row, OrElse(t.item, 0)))
  }

  function ResetSelection(t: Tree): Tree {
    t.(row := None, item := None, source := None)
  }

  lemma SelectActiveKeepsRow(t: Tree, action: SelectAction)
    requires CanSelectActive(t, action)
    ensures t.row.Some? ==> SelectActive(t, action).row.Some?
  {
  }

  lemma OpenKeepsRow(t: Tree)
    ensures OpenSelectedSubmenu(t).0.row == t.row && SelectedActionForEnter(t).0.row == t.row
  {
  }

  // New menus.

  function IncrementDepth(rows: seq<Row>): (deeper: seq<Row>)
    ensures |deeper| == |rows|
    decreases rows
  {
    seq(|rows|, k requires 0 <= k < |rows| => DeeperRow(rows[k]))
  }

  function DeeperRow(row: Row): Row
    decreases row
  {
    match row
    case Submenu(menu) => Submenu(menu.(depth := menu.depth + 1, rows := IncrementDepth(menu.rows)))
    case other => other
  }

  function NewTree(rows: seq<Row>): Tree {
    Tree(0, IncrementDepth(rows), None, None, None, None)
  }

  /** The depth of every menu is its level below a menu at `level`. */
  ghost predicate DepthIsLevel(t: Tree, level: nat) {
    && t.depth == level
    && forall k :: 0 <= k < |t.rows| && t.rows[k].Submenu? ==> DepthIsLevel(t.rows[k].menu, level + 1)
  }

  lemma {:induction false} DeeperByOne(rows: seq<Row>, level: nat)
    requires forall k :: 0 <= k < |rows| && rows[k].Submenu? ==> DepthIsLevel(rows[k].menu, level)
    ensures forall k :: 0 <= k < |rows| && IncrementDepth(rows)[k].Submenu? ==>
              DepthIsLevel(IncrementDepth(rows)[k].menu, level + 1)
    decreases rows
  {
    forall k | 0 <= k < |rows| && IncrementDepth(rows)[k].Submenu?
      ensures DepthIsLevel(IncrementDepth(rows)[k].menu, level + 1)
    {
      assert IncrementDepth(rows)[k] == DeeperRow(rows[k]);
      assert rows[k].Submenu? && DepthIsLevel(rows[k].menu, level);
      DeeperMenu(rows[k], level);
    }
  }

  lemma {:induction false} DeeperMenu(row: Row, level: nat)
    requires row.Submenu? && DepthIsLevel(row.menu, level)
    ensures DeeperRow(row).Submenu? && DepthIsLevel(DeeperRow(row).menu, level + 1)
    decreases row
  {
    DeeperByOne(row.menu.rows, level + 1);
  }

  /** In a menu made of rows whose submenus were made the same way, depth is nesting level. */
  lemma NewTreesCountTheirDepth(rows: seq<Row>)
    requires forall k :: 0 <= k < |rows| && rows[k].Submenu? ==> DepthIsLevel(rows[k].menu, 0)
    ensures DepthIsLevel(NewTree(rows), 0)
  {
    DeeperByOne(rows, 0);
  }

  // What the depth says nothing of.

  ghost function WithoutDepth(row: Row): Row
    decreases row
  {
    if row.Submenu? then Submenu(row.menu.(depth := 0, rows := WithoutDepths(row.menu.rows))) else row
  }

  ghost function WithoutDepths(rows: seq<Row>): seq<Row>
    decreases rows
  {
    seq(|rows|, k requires 0 <= k < |rows| => WithoutDepth(rows[k]))
  }

  lemma {:induction false} OnlyDeeper(rows: seq<Row>)
    ensures WithoutDepths(IncrementDepth(rows)) == WithoutDepths(rows)
    decreases rows
  {
    forall k | 0 <= k < |rows|
      ensures WithoutDepths(IncrementDepth(rows))[k] == WithoutDepths(rows)[k]
    {
      assert IncrementDepth(rows)[k] == DeeperRow(rows[k]);
      OnlyDeeperRow(rows[k]);
    }
  }

  lemma {:induction false} OnlyDeeperRow(row: Row)
    ensures WithoutDepth(DeeperRow(row)) == WithoutDepth(row)
    decreases row
  {
    if row.Submenu? {
      OnlyDeeper(row.menu.rows);
    }
  }

  /** A new menu has nothing selected or hovered, and its rows but for their depths. */
  lemma NewTreesKeepTheirRows(rows: seq<Row>)
    ensures var t := NewTree(rows);
            && WithoutDepths(t.rows) == WithoutDepths(rows)
            && t.row == None && t.item == None && t.hovered == None && t.source == None
  {
    OnlyDeeper(rows);
  }
}
