/**
 Menus as they are (app/src/menu.rs): objects whose selections are updated in place, and the view that
 puts the safe triangle before them.

 `Model` is the value of a submenu as a tree. Every method is proved to do to it what the functions of
 `MenuTrees` do, and to keep the submenus below it apart from each other.
 */
module Menus {
  import opened Wrappers
  import I = MenuInvariants
  import T = MenuTrees
  import opened SafeTriangles

  datatype Event = ItemSelected | ItemHovered | Closed(viaSelectItem: bool) | Dispatched(action: T.Action)

  /** Where events go. */
  class ViewContext {
    var emitted: seq<Event>

    constructor ()
      ensures emitted == []
    {
      emitted := [];
    }

    method Emit(e: Event)
      modifies this
      ensures emitted == old(emitted) + [e]
    {
      emitted := emitted + [e];
    }
  }

  datatype MenuItem =
    | Item(fields: T.Fields)
    | Separator
    | ItemsRow(items: seq<T.Fields>)
    | Submenu(menu: SubMenu)
    | Header(fields: T.Fields, clickable: bool)

  ghost function RowOf(item: MenuItem): T.Row
    reads if item.Submenu? then {item.menu} else {}
  {
    match item
    case Item(fields) => T.Item(fields)
    case Separator => T.Separator
    case ItemsRow(items) => T.ItemsRow(items)
    case Submenu(menu) => T.Submenu(menu.Model)
    case Header(fields, clickable) => T.Header(fields, clickable)
  }

  ghost function MenusOf(items: seq<MenuItem>): set<SubMenu> {
    set k | 0 <= k < |items| && items[k].Submenu? :: items[k].menu
  }

  /** The rows of a menu are those of its items. */
  ghost predicate RowsAre(items: seq<MenuItem>, rows: seq<T.Row>)
    reads MenusOf(items)
  {
    |rows| == |items| && forall k :: 0 <= k < |items| ==> rows[k] == RowOf(items[k])
  }

  /** The same, but for one row. */
  ghost predicate RowsAreBut(items: seq<MenuItem>, rows: seq<T.Row>, at: nat)
    reads MenusOf(items)
  {
    |rows| == |items| && forall k :: 0 <= k < |items| && k != at ==> rows[k] == RowOf(items[k])
  }

  /** Everything below some items. */
  ghost function ReprOf(items: seq<MenuItem>): set<SubMenu>
    reads MenusOf(items)
  {
    set m, o | m in MenusOf(items) && o in m.Repr :: o
  }

  /** The submenus among some items are in order and apart from each other. */
  ghost predicate Apart(items: seq<MenuItem>)
    reads MenusOf(items), ReprOf(items)
    decreases ReprOf(items), 1
  {
    && (forall k :: 0 <= k < |items| && items[k].Submenu? ==>
          items[k].menu.Repr <= ReprOf(items) && items[k].menu.Valid())
    && forall j, k :: 0 <= j < k < |items| && items[j].Submenu? && items[k].Submenu? ==>
         items[j].menu.Repr !! items[k].menu.Repr
  }

  predicate IsSelectable(item: MenuItem)
    reads if item.Submenu? then {item.menu} else {}
  {
    match item
    case Item(fields) => T.Enabled(fields)
    case Separator => false
    case ItemsRow(items) => exists k :: 0 <= k < |items| && T.Enabled(items[k])
    case Submenu(menu) => menu.items != []
    case Header(_, clickable) => clickable
  }

  function ItemsLen(item: MenuItem): Option<nat>
    reads if item.Submenu? then {item.menu} else {}
  {
    match item
    case Item(_) => Some(1)
    case Separator => None
    case ItemsRow(items) => Some(|items|)
    case Submenu(menu) => Some(|menu.items| + 1)
    case Header(_, clickable) => Some(if clickable then 1 else 0)
  }

  lemma ApartMeans(items: seq<MenuItem>, i: nat, k: nat)
    requires Apart(items) && i < |items| && k < |items| && items[i].Submenu? && items[k].Submenu?
    ensures items[k].menu.Valid() && items[k].menu in items[k].menu.Repr && items[k].menu.Repr <= ReprOf(items)
    ensures i != k ==> items[i].menu.Repr !! items[k].menu.Repr
  {
    hide SubMenu.Valid;
  }

  lemma MenusAreInTheirRepr(items: seq<MenuItem>)
    requires Apart(items)
    ensures MenusOf(items) <= ReprOf(items)
    ensures forall m :: m in ReprOf(items) ==> allocated(m)
  {
    hide SubMenu.Valid;
    forall m | m in MenusOf(items)
      ensures m in ReprOf(items)
    {
      assert m in m.Repr;
    }
  }

  twostate lemma OldApartMeans(items: seq<MenuItem>)
    requires old(Apart(items))
    ensures forall k :: 0 <= k < |items| && items[k].Submenu? ==>
              old(items[k].menu.Valid() && items[k].menu in items[k].menu.Repr && items[k].menu.Repr <= ReprOf(items))
    ensures forall j, k :: 0 <= j < |items| && 0 <= k < |items| && j != k && items[j].Submenu? && items[k].Submenu? ==>
              old(items[j].menu.Repr !! items[k].menu.Repr)
  {
    hide SubMenu.Valid;
  }

  twostate lemma SameReprs(items: seq<MenuItem>)
    requires forall m :: m in MenusOf(items) ==> m.Repr == old(m.Repr)
    ensures ReprOf(items) == old(ReprOf(items))
  {
  }

  lemma ApartByParts(items: seq<MenuItem>)
    requires forall k :: 0 <= k < |items| && items[k].Submenu? ==> items[k].menu.Valid()
    requires forall j, k :: 0 <= j < k < |items| && items[j].Submenu? && items[k].Submenu? ==>
               items[j].menu.Repr !! items[k].menu.Repr
    ensures Apart(items)
  {
    hide SubMenu.Valid;
  }

  /** A change within the submenu at one of some items. */
  datatype Change = Change(items: seq<MenuItem>, rows: seq<T.Row>, at: nat) {
    ghost predicate IsWithin()
    {
      at < |items| && items[at].Submenu?
    }
  }

  /** When one submenu has changed within itself, the others and their order are as they were. */
  twostate lemma OneMenuChanged(c: Change)
    requires c.IsWithin() && old(Apart(c.items) && RowsAre(c.items, c.rows))
    requires c.items[c.at].menu.Repr == old(c.items[c.at].menu.Repr)
    requires forall m :: m in old(ReprOf(c.items)) && m !in old(c.items[c.at].menu.Repr) ==> unchanged(m)
    requires c.items[c.at].menu.Valid()
    ensures Apart(c.items) && ReprOf(c.items) == old(ReprOf(c.items))
    ensures RowsAreBut(c.items, c.rows, c.at)
  {
    hide SubMenu.Valid, Apart, ReprOf;
    var items := c.items;
    OldApartMeans(items);
    forall k | 0 <= k < |items| && items[k].Submenu?
      ensures items[k].menu.Valid() && items[k].menu.Repr == old(items[k].menu.Repr)
      ensures k != c.at ==> items[k].menu.Model == old(items[k].menu.Model)
    {
      if k != c.at {
        assert forall m :: m in old(items[k].menu.Repr) ==> unchanged(m);
      }
    }
    SameReprs(items);
    ApartByParts(items);
  }

  /** Adds one to the depth of every submenu below some items. */
  method IncrementDepth(items: seq<MenuItem>, ghost rows: seq<T.Row>)
    requires Apart(items) && RowsAre(items, rows)
    modifies ReprOf(items)
    ensures Apart(items) && RowsAre(items, T.IncrementDepth(rows))
    ensures ReprOf(items) == old(ReprOf(items))
    decreases ReprOf(items), 3
  {
    hide Apart, RowOf, T.DeeperRow, ReprOf;
    var i := 0;
    ghost var deeper := rows;
    while i < |items|
      invariant 0 <= i <= |items| == |deeper|
      invariant Apart(items) && RowsAre(items, deeper) && ReprOf(items) == old(ReprOf(items))
      invariant forall k :: 0 <= k < i ==> deeper[k] == T.DeeperRow(rows[k])
      invariant forall k :: i <= k < |items| ==> deeper[k] == rows[k]
    {
      if items[i].Submenu? {
        DeepenOne(items, i, deeper);
      } else {
        DeeperLeaf(items[i]);
      }
      deeper := deeper[i := T.DeeperRow(deeper[i])];
      i := i + 1;
    }
    assert deeper == T.IncrementDepth(rows);
  }

  lemma DeeperLeaf(item: MenuItem)
    requires !item.Submenu?
    ensures T.DeeperRow(RowOf(item)) == RowOf(item)
  {
  }

  method DeepenOne(items: seq<MenuItem>, i: nat, ghost rows: seq<T.Row>)
    requires Apart(items) && RowsAre(items, rows) && i < |items| && items[i].Submenu?
    modifies ReprOf(items)
    ensures Apart(items) && RowsAre(items, rows[i := T.DeeperRow(rows[i])])
    ensures ReprOf(items) == old(ReprOf(items))
    decreases ReprOf(items), 2
  {
    hide SubMenu.Valid, Apart;
    ApartMeans(items, i, i);
    items[i].menu.Deepen();
    OneMenuChanged(Change(items, rows, i));
  }

  class SubMenu {
    var depth: nat
    var items: seq<MenuItem>
    var selectedRowIndex: Option<nat>
    var selectedItemIndex: Option<nat>
    var hoveredRowIndex: Option<nat>
    var lastSelectionSource: Option<T.Source>
    ghost var Model: T.Tree
    ghost var Repr: set<SubMenu>

    ghost predicate Valid()
      reads this, Repr
      ensures Valid() ==> this in Repr
      decreases Repr, 0
    {
      && this in Repr
      && MenusOf(items) <= Repr && this !in MenusOf(items)
      && ReprOf(items) <= Repr - {this}
      && Apart(items)
      && Model == T.Tree(depth, Model.rows, selectedRowIndex, selectedItemIndex, hoveredRowIndex, lastSelectionSource)
      && RowsAre(items, Model.rows)
    }

    method Deepen()
      requires Valid()
      modifies Repr
      ensures Valid() && Repr == old(Repr)
      ensures T.Submenu(Model) == T.DeeperRow(T.Submenu(old(Model)))
      decreases Repr, 1
    {
      hide Apart, RowOf, RowsAre, ReprOf, MenusOf;
      depth := depth + 1;
      IncrementDepth(items, Model.rows);
      Model := Model.(depth := depth, rows := T.IncrementDepth(Model.rows));
    }

    constructor (items: seq<MenuItem>, ghost rows: seq<T.Row>)
      requires Apart(items) && RowsAre(items, rows)
      modifies ReprOf(items)
      ensures Valid() && Model == T.NewTree(rows)
      ensures Repr == {this} + old(ReprOf(items))
    {
      hide Apart, RowOf, RowsAre, ReprOf, MenusOf, T.IncrementDepth;
      IncrementDepth(items, rows);
      MenusAreInTheirRepr(items);
      ghost var below := ReprOf(items);
      depth, this.items := 0, items;
      selectedRowIndex, selectedItemIndex, hoveredRowIndex, lastSelectionSource := None, None, None, None;
      Model, Repr := T.NewTree(rows), {this} + ReprOf(items);
      new;
      assert this !in below;
      assert ReprOf(items) == below;
    }

    lemma ItemsAreRows(k: nat)
      requires Valid() && k < |items|
      ensures |Model.rows| == |items|
      ensures IsSelectable(items[k]) <==> T.Selectable(Model.rows[k])
      ensures ItemsLen(items[k]) == T.ItemsLen(Model.rows[k])
      ensures items[k].Submenu? <==> Model.rows[k].Submenu?
      ensures items[k].Submenu? ==> Model.rows[k].menu == items[k].menu.Model
    {
      if items[k].Submenu? {
        assert items[k].menu.Valid();
      }
    }

    lemma AsManyRows()
      requires Valid()
      ensures |Model.rows| == |items| && Model.row == selectedRowIndex && Model.item == selectedItemIndex
    {
    }

    /** The first selectable item among all, from place `from` of them repeated for ever. */
    method FindCycled(backwards: bool, from: nat) returns (found: Option<nat>)
      requires Valid()
      ensures |Model.rows| == |items|
      ensures found == T.FindCycled(Model.rows, backwards, from, |items|)
    {
      hide Valid, IsSelectable, T.Selectable, T.Cycled;
      AsManyRows();
      var taken := 0;
      while taken < |items|
        invariant 0 <= taken <= |items|
        invariant T.FindCycled(Model.rows, backwards, from, |items|) ==
                  T.FindCycled(Model.rows, backwards, from + taken, |items| - taken)
      {
        var row := T.Cycled(|items|, backwards, from + taken);
        ItemsAreRows(row);
        if IsSelectable(items[row]) {
          return Some(row);
        }
        taken := taken + 1;
      }
      return None;
    }

    /** Where a selection moves. */
    method Move(action: T.SelectAction) returns (row: nat, item: nat)
      requires Valid() && T.CanSelect(Model, action)
      ensures (row, item) == T.Moved(Model, action)
    {
      hide Valid, T.FindCycled, ItemsLen, T.ItemsLen, RowOf;
      AsManyRows();
      match action
      case Index(r, i) =>
        return r, i;
      case Previous =>
        if selectedRowIndex.None? {
          return 0, 0;
        }
        if selectedItemIndex.Some? && selectedItemIndex.value > 0 {
          return selectedRowIndex.value, selectedItemIndex.value - 1;
        }
        var found := FindCycled(true, T.SkippedBackwards(|items|, selectedRowIndex.value));
        row := if found.Some? then found.value else selectedRowIndex.value;
        ItemsAreRows(row);
        item := T.Decreased(ItemsLen(items[row]));
      case Next =>
        if selectedRowIndex.None? {
          return 0, 0;
        }
        if selectedItemIndex.Some? {
          ItemsAreRows(selectedRowIndex.value);
          if selectedItemIndex.value < T.Decreased(ItemsLen(items[selectedRowIndex.value])) {
            return selectedRowIndex.value, selectedItemIndex.value + 1;
          }
        }
        var found := FindCycled(false, selectedRowIndex.value + 1);
        row := if found.Some? then found.value else selectedRowIndex.value;
        item := 0;
    }

    method SelectInternal(action: T.SelectAction, source: T.Source)
      requires Valid() && T.CanSelect(Model, action)
      modifies this
      ensures Valid() && Repr == old(Repr) && items == old(items)
      ensures Model == T.Select(old(Model), action, source)
    {
      hide T.Moved, T.CanSelect, RowOf, Apart, RowsAre, ReprOf, MenusOf;
      var row, item := Move(action);
      Model := T.Select(Model, action, source);
      selectedRowIndex := Some(row);
      selectedItemIndex := Some(item);
      hoveredRowIndex := Some(row);
      lastSelectionSource := Some(source);
    }

    method SelectWithSource(action: T.SelectAction, source: T.Source, ctx: ViewContext)
      requires Valid() && T.CanSelect(Model, action)
      modifies this, ctx
      ensures Valid() && Repr == old(Repr) && items == old(items)
      ensures Model == T.Select(old(Model), action, source)
      ensures ctx.emitted == old(ctx.emitted) + [ItemSelected]
    {
      hide Valid;
      SelectInternal(action, source);
      ctx.Emit(ItemSelected);
    }

    /** The selected row, when it is a submenu. */
    method SelectedSubmenu() returns (row: Option<nat>)
      requires Valid()
      ensures row.Some? <==> T.SelectedRow(Model).Some? && T.SelectedRow(Model).value.Submenu?
      ensures row.Some? ==> row == selectedRowIndex == Model.row && IsSubmenuAt(row.value)
    {
      hide Apart, ReprOf, MenusOf, RowOf;
      if selectedRowIndex.Some? && selectedRowIndex.value < |items| {
        ItemsAreRows(selectedRowIndex.value);
        if items[selectedRowIndex.value].Submenu? {
          BelowMeans(selectedRowIndex.value);
          return selectedRowIndex;
        }
      }
      return None;
    }

    /** There is a submenu at a row, and it is in order, below this one, and the model's. */
    ghost predicate IsSubmenuAt(k: nat)
      reads this, Repr, MenusOf(items)
    {
      && k < |items| && items[k].Submenu? && k < |Model.rows|
      && Model.rows[k] == T.Submenu(items[k].menu.Model)
      && items[k].menu.Repr <= Repr - {this} && items[k].menu.Valid()
      && items[k].menu in items[k].menu.Repr
      && items[k].menu.selectedRowIndex == items[k].menu.Model.row
      && items[k].menu.Repr <= ReprOf(items)
    }

    lemma BelowMeans(k: nat)
      requires Valid() && k < |items| && items[k].Submenu?
      ensures IsSubmenuAt(k)
    {
      ItemsAreRows(k);
      ApartMeans(items, k, k);
    }

    /** The row of the submenu that actions go down to, if they do. */
    method Descent() returns (row: Option<nat>)
      requires Valid()
      ensures row.Some? <==> T.Descends(Model)
      ensures row.Some? ==> row == selectedRowIndex == Model.row && IsSubmenuAt(row.value)
    {
      hide Valid;
      row := SelectedSubmenu();
      if row.Some? && items[row.value].menu.selectedRowIndex.None? {
        row := None;
      }
    }

    /** What `Valid` says but for the rows. */
    ghost predicate Structure()
      reads this, Repr, MenusOf(items)
    {
      && this in Repr && MenusOf(items) <= Repr && this !in MenusOf(items)
      && ReprOf(items) <= Repr - {this}
      && Model == T.Tree(depth, Model.rows, selectedRowIndex, selectedItemIndex, hoveredRowIndex, lastSelectionSource)
    }

    /** After a change within one submenu only its row of the model is out of date. */
    twostate lemma OneRowChanged()
      requires old(Valid()) && unchanged(this)
      requires selectedRowIndex.Some? && Change(items, Model.rows, selectedRowIndex.value).IsWithin()
      requires items[selectedRowIndex.value].menu.Valid()
      requires items[selectedRowIndex.value].menu.Repr == old(items[selectedRowIndex.value].menu.Repr)
      requires forall m :: m in old(Repr) && m !in old(items[selectedRowIndex.value].menu.Repr) ==> unchanged(m)
      ensures Structure() && Apart(items) && RowsAreBut(items, Model.rows, selectedRowIndex.value)
    {
      hide Apart, RowOf, RowsAre, ReprOf, MenusOf;
      assert forall m :: m in old(ReprOf(items)) ==> m in old(Repr);
      OneMenuChanged(Change(items, Model.rows, selectedRowIndex.value));
    }

    /** The model takes over what changed within the submenu at the selected row. */
    ghost method Adopt(row: nat)
      requires Structure() && Apart(items) && RowsAreBut(items, Model.rows, row)
      requires Model.row == Some(row) && row < |items| && items[row].Submenu?
      modifies this`Model
      ensures Valid() && Repr == old(Repr)
      ensures Model == T.WithSelected(old(Model), items[row].menu.Model)
    {
      hide Apart, ReprOf, MenusOf;
      Model := T.WithSelected(Model, items[row].menu.Model);
    }

    method SelectActive(action: T.SelectAction, ctx: ViewContext)
      requires Valid() && T.CanSelectActive(Model, action)
      modifies Repr, ctx
      ensures Valid() && Repr == old(Repr)
      ensures Model == T.SelectActive(old(Model), action)
      ensures ctx.emitted == old(ctx.emitted) + [ItemSelected]
      decreases Repr
    {
      hide Valid, Structure, RowsAreBut, Apart, ReprOf, MenusOf, T.Select;
      var row := Descent();
      if row.Some? {
        items[row.value].menu.SelectActive(action, ctx);
        OneRowChanged();
        Adopt(row.value);
      } else {
        SelectWithSource(action, T.KeyboardOrProgrammatic, ctx);
      }
    }

    method SelectFirstSelectable(ctx: ViewContext) returns (found: bool)
      requires Valid()
      modifies this, ctx
      ensures Valid() && Repr == old(Repr) && items == old(items)
      ensures (Model, found) == T.SelectFirstSelectable(old(Model))
      ensures ctx.emitted == old(ctx.emitted) + Selected(found)
    {
      hide Valid, T.Select, T.Selectable, IsSelectable, T.FirstSelectable;
      AsManyRows();
      for row := 0 to |items|
        invariant Valid() && Model == old(Model) && Repr == old(Repr) && items == old(items)
        invariant |Model.rows| == |items| && ctx.emitted == old(ctx.emitted)
        invariant forall k :: 0 <= k < row ==> !T.Selectable(Model.rows[k])
      {
        ItemsAreRows(row);
        if IsSelectable(items[row]) {
          FirstIs(Model.rows, row);
          SelectWithSource(T.Index(row, 0), T.KeyboardOrProgrammatic, ctx);
          return true;
        }
      }
      NoneIsFirst(Model.rows);
      return false;
    }

    method OpenSelectedSubmenu(ctx: ViewContext) returns (found: bool)
      requires Valid()
      modifies Repr, ctx
      ensures Valid() && Repr == old(Repr)
      ensures (Model, found) == T.OpenSelectedSubmenu(old(Model))
      ensures ctx.emitted == old(ctx.emitted) + Selected(found)
      decreases Repr
    {
      hide Valid, Structure, RowsAreBut, Apart, ReprOf, MenusOf, T.SelectFirstSelectable;
      var row := Descent();
      if row.Some? {
        found := items[row.value].menu.OpenSelectedSubmenu(ctx);
        OneRowChanged();
        Adopt(row.value);
        return;
      }
      row := SelectedSubmenu();
      if row.None? {
        return false;
      }
      found := items[row.value].menu.SelectFirstSelectable(ctx);
      OneRowChanged();
      Adopt(row.value);
    }

    /** The action of the selected row, which is not a submenu. */
    method ItemAction() returns (action: Option<T.Action>)
      requires Valid()
      requires T.SelectedRow(Model).Some? ==> !T.SelectedRow(Model).value.Submenu?
      ensures action == if T.SelectedRow(Model).None? then None
                        else T.ItemAction(T.SelectedRow(Model).value, T.OrElse(Model.item, 0))
    {
      hide Apart, ReprOf, MenusOf;
      if selectedRowIndex.None? || |items| <= selectedRowIndex.value {
        return None;
      }
      var selectedItem := if selectedItemIndex.Some? then selectedItemIndex.value else 0;
      match items[selectedRowIndex.value]
      case Item(fields) => action := fields.onSelect;
      case Separator => action := None;
      case ItemsRow(fields) => action := if selectedItem < |fields| then fields[selectedItem].onSelect else None;
      case Submenu(_) => action := None;
      case Header(fields, clickable) => action := if clickable then fields.onSelect else None;
    }

    method SelectedActionForEnter(ctx: ViewContext) returns (action: Option<T.Action>)
      requires Valid()
      modifies Repr, ctx
      ensures Valid() && Repr == old(Repr)
      ensures (Model, action) == T.SelectedActionForEnter(old(Model))
      ensures ctx.emitted == old(ctx.emitted) + Selected(T.OpenSelectedSubmenu(old(Model)).1)
      decreases Repr
    {
      hide Valid, Structure, RowsAreBut, Apart, ReprOf, MenusOf, T.SelectFirstSelectable, T.ItemAction;
      var row := Descent();
      if row.Some? {
        action := items[row.value].menu.SelectedActionForEnter(ctx);
        OneRowChanged();
        Adopt(row.value);
        return;
      }
      row := SelectedSubmenu();
      if row.Some? {
        var found := items[row.value].menu.SelectFirstSelectable(ctx);
        OneRowChanged();
        Adopt(row.value);
        return None;
      }
      action := ItemAction();
    }

    method ResetSelection()
      requires Valid()
      modifies this
      ensures Valid() && Repr == old(Repr) && Model == T.ResetSelection(old(Model))
    {
      hide Apart, RowsAre, ReprOf, MenusOf, RowOf;
      Model := T.ResetSelection(Model);
      selectedRowIndex, selectedItemIndex, lastSelectionSource := None, None, None;
    }

    method Hover(row: nat)
      requires Valid()
      modifies this
      ensures Valid() && Repr == old(Repr) && Model == old(Model).(hovered := Some(row))
    {
      hide Apart, RowsAre, ReprOf, MenusOf, RowOf;
      Model := Model.(hovered := Some(row));
      hoveredRowIndex := Some(row);
    }

    method HandleAction(action: MenuAction, dispatchItemActions: bool, ctx: ViewContext)
      requires Valid() && CanHandle(Model, action)
      modifies Repr, ctx
      ensures Valid() && Repr == old(Repr)
      ensures Model == Handled(old(Model), action, dispatchItemActions).0
      ensures ctx.emitted == old(ctx.emitted) + Handled(old(Model), action, dispatchItemActions).1
    {
      hide Valid, T.SelectActive, T.Select, T.OpenSelectedSubmenu, T.SelectedActionForEnter, T.CanSelectActive,
        T.CanSelect;
      DepthIsTheModels();
      match action
      case HoverSubmenuWithChildren(at, selection) =>
        if at == depth {
          SelectWithSource(selection, T.Pointer, ctx);
        }
      case UnhoverSubmenuParent(at) =>
        if at == depth {
          ResetSelection();
        }
      case HoverSubmenuLeafNode(at, row, _) =>
        if at == depth {
          Hover(row);
          ctx.Emit(ItemHovered);
        }
      case Select(selection) => SelectActive(selection, ctx);
      case OpenSubmenu =>
        var _ := OpenSelectedSubmenu(ctx);
      case CloseSubmenu(at) =>
        if at == depth {
          ResetSelection();
        }
      case Close(viaSelectItem) => ctx.Emit(Closed(viaSelectItem));
      case Enter =>
        var selected := SelectedActionForEnter(ctx);
        if selected.Some? {
          if dispatchItemActions {
            ctx.Emit(Dispatched(selected.value));
          } else {
            ctx.Emit(ItemSelected);
          }
          ctx.Emit(Closed(true));
        }
    }

    lemma DepthIsTheModels()
      requires Valid()
      ensures depth == Model.depth && this in Repr
    {
    }
  }

  function Selected(found: bool): seq<Event> {
    if found then [ItemSelected] else []
  }

  lemma FirstIs(rows: seq<T.Row>, row: nat)
    requires row < |rows| && T.Selectable(rows[row]) && forall k :: 0 <= k < row ==> !T.Selectable(rows[k])
    ensures T.FirstSelectable(rows) == Some(row)
  {
    hide T.Selectable;
    var first := T.FirstSelectable(rows);
    assert first.Some?;
  }

  lemma NoneIsFirst(rows: seq<T.Row>)
    requires forall k :: 0 <= k < |rows| ==> !T.Selectable(rows[k])
    ensures T.FirstSelectable(rows).None?
  {
  }

  datatype MenuAction =
    | Select(selection: T.SelectAction)
    | OpenSubmenu
    | UnhoverSubmenuParent(depth: nat)
    | HoverSubmenuWithChildren(depth: nat, selection: T.SelectAction)
    | HoverSubmenuLeafNode(depth: nat, row: nat, position: Vec)
    | CloseSubmenu(depth: nat)
    | Close(viaSelectItem: bool)
    | Enter

  /** Nothing is indexed out of range. */
  ghost predicate CanHandle(t: T.Tree, action: MenuAction) {
    match action
    case Select(selection) => T.CanSelectActive(t, selection)
    case HoverSubmenuWithChildren(depth, selection) => depth == t.depth ==> T.CanSelect(t, selection)
    case _ => true
  }

  /** What an action makes of a menu, and the events it emits. */
  ghost function Handled(t: T.Tree, action: MenuAction, dispatchItemActions: bool): (T.Tree, seq<Event>)
    requires CanHandle(t, action)
  {
    match action
    case HoverSubmenuWithChildren(depth, selection) =>
      if depth == t.depth then (T.Select(t, selection, T.Pointer), [ItemSelected]) else (t, [])
    case UnhoverSubmenuParent(depth) => (if depth == t.depth then T.ResetSelection(t) else t, [])
    case HoverSubmenuLeafNode(depth, row, _) =>
      if depth == t.depth then (t.(hovered := Some(row)), [ItemHovered]) else (t, [])
    case Select(selection) => (T.SelectActive(t, selection), [ItemSelected])
    case OpenSubmenu => (T.OpenSelectedSubmenu(t).0, Selected(T.OpenSelectedSubmenu(t).1))
    case CloseSubmenu(depth) => (if depth == t.depth then T.ResetSelection(t) else t, [])
    case Close(viaSelectItem) => (t, [Closed(viaSelectItem)])
    case Enter =>
      var (v, selected) := T.SelectedActionForEnter(t);
      (v, Selected(T.OpenSelectedSubmenu(t).1) +
          if selected.None? then []
          else [if dispatchItemActions then Dispatched(selected.value) else ItemSelected, Closed(true)])
  }

  /** A menu loses its selection exactly when a submenu of its depth is closed, or the pointer leaves the
      parent of one; it then keeps everything else. */
  lemma WhoLosesTheSelection(t: T.Tree, action: MenuAction, dispatch: bool)
    requires CanHandle(t, action)
    ensures var (v, events) := Handled(t, action, dispatch);
            var lost := (action.CloseSubmenu? || action.UnhoverSubmenuParent?) && action.depth == t.depth;
            && (t.row.Some? ==> (v.row.None? <==> lost))
            && (lost ==> v == T.Tree(t.depth, t.rows, None, None, t.hovered, None) && events == [])
  {
    hide T.Moved, T.CanSelect, T.FirstSelectable;
    match action
    case Select(selection) => T.SelectActiveKeepsRow(t, selection);
    case OpenSubmenu => T.OpenKeepsRow(t);
    case Enter => T.OpenKeepsRow(t);
    case _ =>
  }

  /** The pointer on a row with a submenu selects what it is told to in the menu of its depth; what the
      pointer does at other depths, and closing a submenu there, changes nothing. */
  lemma WhatThePointerDoes(t: T.Tree, depth: nat, row: nat, item: nat, dispatch: bool)
    ensures Handled(t, HoverSubmenuWithChildren(depth, T.Index(row, item)), dispatch) ==
            if depth == t.depth
            then (T.Tree(t.depth, t.rows, Some(row), Some(item), Some(row), Some(T.Pointer)), [ItemSelected])
            else (t, [])
    ensures depth != t.depth ==>
              && Handled(t, UnhoverSubmenuParent(depth), dispatch) == (t, [])
              && Handled(t, CloseSubmenu(depth), dispatch) == (t, [])
  {
  }

  ghost predicate ActsOn(t: T.Tree, action: MenuAction, item: T.Action) {
    action.Enter? && T.SelectedActionForEnter(t).1 == Some(item)
  }

  ghost predicate Acts(t: T.Tree, action: MenuAction) {
    exists item :: ActsOn(t, action, item)
  }

  ghost predicate Opens(t: T.Tree, action: MenuAction) {
    (action.OpenSubmenu? || action.Enter?) && T.OpenSelectedSubmenu(t).1
  }

  /** Which events an action emits: an item is dispatched, or reported as selected, and the menu closed,
      exactly when enter acts on it; and what else is reported. */
  lemma WhichEventsAreEmitted(t: T.Tree, action: MenuAction, dispatch: bool)
    requires CanHandle(t, action)
    ensures var events := Handled(t, action, dispatch).1;
            && (forall item :: Dispatched(item) in events <==> dispatch && ActsOn(t, action, item))
            && (forall via :: Closed(via) in events <==> action == Close(via) || (via && Acts(t, action)))
            && (ItemHovered in events <==> action.HoverSubmenuLeafNode? && action.depth == t.depth)
            && (ItemSelected in events <==>
                  || action.Select? || (action.HoverSubmenuWithChildren? && action.depth == t.depth)
                  || Opens(t, action) || (Acts(t, action) && !dispatch))
            && (Acts(t, action) ==> events != [] && events[|events| - 1] == Closed(true))
  {
    hide T.SelectedActionForEnter, T.OpenSelectedSubmenu, T.SelectActive, T.Select;
    if action.Enter? && T.SelectedActionForEnter(t).1.Some? {
      assert ActsOn(t, action, T.SelectedActionForEnter(t).1.value);
    }
  }

  // The view.

  datatype MenuView = MenuView(menu: T.Tree, zone: Option<Zone>)

  /** A leaf hover passes the safe triangle first, if there is one. */
  ghost function HandledView(v: MenuView, action: MenuAction, dispatchItemActions: bool): (MenuView, seq<Event>)
    requires CanHandle(v.menu, action)
  {
    if action.HoverSubmenuLeafNode? && v.zone.Some? && Verdict(v.zone.value, action.position) then
      (v.(zone := Some(Gate(v.zone.value, action.position))), [])
    else
      var (menu, events) := Handled(v.menu, action, dispatchItemActions);
      var zone := if action.HoverSubmenuLeafNode? && v.zone.Some?
                  then Some(Gate(v.zone.value, action.position)) else v.zone;
      (MenuView(menu, zone), events)
  }

  class Menu {
    const menu: SubMenu
    const safeTriangle: SafeTriangle?
    const dispatchItemActions: bool

    ghost function View(): MenuView
      reads menu, safeTriangle
    {
      MenuView(menu.Model, if safeTriangle == null then None else Some(safeTriangle.View()))
    }

    constructor (menu: SubMenu, safeTriangle: SafeTriangle?, dispatchItemActions: bool)
      ensures this.menu == menu && this.safeTriangle == safeTriangle
      ensures this.dispatchItemActions == dispatchItemActions
    {
      this.menu, this.safeTriangle, this.dispatchItemActions := menu, safeTriangle, dispatchItemActions;
    }

    method HandleAction(action: MenuAction, ctx: ViewContext)
      requires menu.Valid() && CanHandle(menu.Model, action)
      modifies menu.Repr, safeTriangle, ctx
      ensures menu.Valid()
      ensures View() == HandledView(old(View()), action, dispatchItemActions).0
      ensures ctx.emitted == old(ctx.emitted) + HandledView(old(View()), action, dispatchItemActions).1
    {
      hide SubMenu.Valid, Handled, CanHandle, Verdict;
      if action.HoverSubmenuLeafNode? && safeTriangle != null {
        var suppress := safeTriangle.ShouldSuppressHover(action.position);
        if suppress {
          return;
        }
        safeTriangle.UpdatePosition(action.position);
      }
      menu.HandleAction(action, dispatchItemActions, ctx);
    }
  }

  /** What the keys are bound to. */
  function ActionOf(key: I.Key): MenuAction {
    match key
    case Up => MenuAction.Select(T.Previous)
    case Down => MenuAction.Select(T.Next)
    case Right => OpenSubmenu
    case Enter => MenuAction.Enter
  }

  /** The keys reach the menu past the safe triangle, and are handled exactly when they index nothing out of
      range; so everything that holds of pressing keys in a tree holds of the view. */
  lemma KeysAreActions(v: MenuView, key: I.Key, dispatch: bool)
    ensures CanHandle(v.menu, ActionOf(key)) <==> I.CanPress(v.menu, key)
    ensures I.CanPress(v.menu, key) ==>
              HandledView(v, ActionOf(key), dispatch).0 == MenuView(I.Press(v.menu, key), v.zone)
  {
  }

  /** An index that is given is selected in the active menu, past the safe triangle, and no other menu
      changes. */
  lemma IndexIsSelected(v: MenuView, row: nat, item: nat, dispatch: bool, path: seq<nat>)
    ensures CanHandle(v.menu, MenuAction.Select(T.Index(row, item)))
    ensures var (u, events) := HandledView(v, MenuAction.Select(T.Index(row, item)), dispatch);
            && u.zone == v.zone && events == [ItemSelected]
            && I.IsPath(u.menu, I.ActivePath(v.menu))
            && I.MenuAt(u.menu, I.ActivePath(v.menu)) ==
               I.ActiveMenu(v.menu).(row := Some(row), item := Some(item), hovered := Some(row),
                                     source := Some(T.KeyboardOrProgrammatic))
            && (path != I.ActivePath(v.menu) ==> I.SameOwn(v.menu, u.menu, path))
  {
    hide I.SameOwn, I.ActiveMenu, I.ActivePath, I.MenuAt, I.IsPath;
    IndexIsInRange(v.menu, row, item);
    I.OnlyTheActiveMenuMoves(v.menu, T.Index(row, item), path);
  }

  lemma {:induction false} IndexIsInRange(t: T.Tree, row: nat, item: nat)
    ensures T.CanSelectActive(t, T.Index(row, item))
    decreases t
  {
    if T.Descends(t) {
      IndexIsInRange(t.rows[t.row.value].menu, row, item);
    }
  }

  /** Only leaf hovers concern the safe triangle. */
  lemma OtherActionsPass(v: MenuView, action: MenuAction, dispatch: bool)
    requires CanHandle(v.menu, action) && !action.HoverSubmenuLeafNode?
    ensures HandledView(v, action, dispatch) ==
            (MenuView(Handled(v.menu, action, dispatch).0, v.zone), Handled(v.menu, action, dispatch).1)
  {
  }

  datatype Hover = Hover(depth: nat, row: nat, position: Vec)

  /** A run of leaf hovers: the view after it, and everything it emitted. */
  ghost function HoverRun(v: MenuView, hovers: seq<Hover>, dispatch: bool): (MenuView, seq<Event>) {
    if hovers == [] then (v, [])
    else
      var (w, events) := HoverRun(v, hovers[..|hovers| - 1], dispatch);
      var h := hovers[|hovers| - 1];
      var (x, more) := HandledView(w, HoverSubmenuLeafNode(h.depth, h.row, h.position), dispatch);
      (x, events + more)
  }

  ghost function Positions(hovers: seq<Hover>): seq<Vec> {
    seq(|hovers|, k requires 0 <= k < |hovers| => hovers[k].position)
  }

  /** The safe triangle of a view sees every hover of a run, whatever the menu makes of them. */
  lemma {:induction false} TheZoneSeesEveryHover(v: MenuView, hovers: seq<Hover>, dispatch: bool)
    requires v.zone.Some?
    ensures HoverRun(v, hovers, dispatch).0.zone == Some(GateAll(v.zone.value, Positions(hovers)))
  {
    if hovers != [] {
      var before := hovers[..|hovers| - 1];
      TheZoneSeesEveryHover(v, before, dispatch);
      assert Positions(hovers)[..|hovers| - 1] == Positions(before);
    }
  }

  /** Hover `k` of a run reaches the menu: it is of the menu's depth, and the safe triangle, as the hovers
      before it have left it, does not suppress it. */
  ghost predicate IsSeen(v: MenuView, hovers: seq<Hover>, k: nat)
    requires k < |hovers|
  {
    && hovers[k].depth == v.menu.depth
    && (v.zone.None? || !Verdict(GateAll(v.zone.value, Positions(hovers[..k])), hovers[k].position))
  }

  /** The rows of the hovers that reach the menu. */
  ghost function SeenRows(v: MenuView, hovers: seq<Hover>, n: nat): seq<nat>
    requires n <= |hovers|
  {
    if n == 0 then []
    else SeenRows(v, hovers, n - 1) + if IsSeen(v, hovers, n - 1) then [hovers[n - 1].row] else []
  }

  lemma {:induction false} SeenInPrefix(v: MenuView, hovers: seq<Hover>, m: nat, n: nat)
    requires n <= m <= |hovers|
    ensures SeenRows(v, hovers[..m], n) == SeenRows(v, hovers, n)
  {
    hide Verdict, GateAll;
    if n > 0 {
      SeenInPrefix(v, hovers, m, n - 1);
      assert hovers[..m][..n - 1] == hovers[..n - 1];
    }
  }

  /**
   After any run of leaf hovers, suppressed ones and those of other depths among them, the menu is as it
   was but for its hovered row, which is that of the last hover that reached it, and one event was
   emitted for each hover that did.
   */
  lemma {:induction false} WhichHoversAreSeen(v: MenuView, hovers: seq<Hover>, dispatch: bool)
    ensures var (w, events) := HoverRun(v, hovers, dispatch);
            var rows := SeenRows(v, hovers, |hovers|);
            && w.menu == v.menu.(hovered := if rows == [] then v.menu.hovered else Some(rows[|rows| - 1]))
            && |events| == |rows| && forall k :: 0 <= k < |events| ==> events[k] == ItemHovered
  {
    hide Verdict, Gate, GateAll, Positions;
    if hovers != [] {
      var n := |hovers| - 1;
      WhichHoversAreSeen(v, hovers[..n], dispatch);
      SeenInPrefix(v, hovers, n, n);
      assert HoverRun(v, hovers[..n], dispatch).0.zone.None? <==> v.zone.None? by {
        ZoneStays(v, hovers[..n], dispatch);
      }
      if v.zone.Some? {
        TheZoneSeesEveryHover(v, hovers[..n], dispatch);
      }
    }
  }

  lemma {:induction false} ZoneStays(v: MenuView, hovers: seq<Hover>, dispatch: bool)
    ensures HoverRun(v, hovers, dispatch).0.zone.None? <==> v.zone.None?
  {
    hide Verdict, Gate;
    if hovers != [] {
      ZoneStays(v, hovers[..|hovers| - 1], dispatch);
    }
  }

  /**
   Through a stretch of suppressed hovers the menu's hovered row and selection stay as they were,
   nothing is emitted, and the apex of the safe triangle does not move.
   */
  lemma {:induction false} SuppressedHoversChangeNothing(v: MenuView, hovers: seq<Hover>, dispatch: bool)
    requires v.zone.Some? && AllSuppressed(v.zone.value, Positions(hovers))
    ensures var (w, events) := HoverRun(v, hovers, dispatch);
            && w.menu == v.menu && events == []
            && w.zone.Some? && w.zone.value.last == v.zone.value.last && w.zone.value.target == v.zone.value.target
  {
    TheZoneSeesEveryHover(v, hovers, dispatch);
    SuppressedStretch(v.zone.value, Positions(hovers));
    if hovers != [] {
      var before, h := hovers[..|hovers| - 1], hovers[|hovers| - 1];
      var zone := v.zone.value;
      assert Positions(hovers)[..|hovers| - 1] == Positions(before);
      forall k | 0 <= k < |before|
        ensures Verdict(GateAll(zone, Positions(before)[..k]), Positions(before)[k])
      {
        assert Positions(before)[..k] == Positions(hovers)[..k];
        assert Verdict(GateAll(zone, Positions(hovers)[..k]), Positions(hovers)[k]);
      }
      SuppressedHoversChangeNothing(v, before, dispatch);
      TheZoneSeesEveryHover(v, before, dispatch);
      assert Verdict(GateAll(zone, Positions(before)), h.position);
    }
  }
}
