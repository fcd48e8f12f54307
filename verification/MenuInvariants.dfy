/**
 What the keys keep in a whole tree of submenus: which selections are in range, which menu an action
 goes to and what stays as it was, and how far a menu can be opened.
 */
module MenuInvariants {
  import opened Wrappers
  import opened MenuTrees
  import opened MenuNavigation

  /** Every selection stored anywhere in the tree is at a position. */
  ghost predicate WellSelected(t: Tree) {
    && (if t.row.None? then t.item.None?
        else t.item.Some? && IsPosition(t.rows, (t.row.value, t.item.value)))
    && forall k :: 0 <= k < |t.rows| && t.rows[k].Submenu? ==> WellSelected(t.rows[k].menu)
  }

  /** Every selection stored anywhere in the tree is at a row. */
  ghost predicate InRange(t: Tree) {
    && (t.row.Some? ==> t.row.value < |t.rows|)
    && forall k :: 0 <= k < |t.rows| && t.rows[k].Submenu? ==> InRange(t.rows[k].menu)
  }

  lemma {:induction false} WellSelectedIsInRange(t: Tree)
    requires WellSelected(t)
    ensures InRange(t)
  {
    forall k | 0 <= k < |t.rows| && t.rows[k].Submenu?
      ensures InRange(t.rows[k].menu)
    {
      WellSelectedIsInRange(t.rows[k].menu);
    }
  }

  lemma SelectKeepsWell(t: Tree, action: SelectAction, source: Source)
    requires WellSelected(t) && CanSelect(t, action)
    requires if action.Index? then IsPosition(t.rows, (action.row, action.item)) else t.row.Some?
    ensures WellSelected(Select(t, action, source))
  {
    if !action.Index? {
      var p := (t.row.value, t.item.value);
      NextIsPlusOne(t, p);
      PreviousIsMinusOne(t, p);
    }
  }

  /** A submenu may be replaced by one with as many rows. */
  lemma ReplacingKeepsWell(t: Tree, menu: Tree)
    requires WellSelected(t) && t.row.Some? && t.rows[t.row.value].Submenu?
    requires WellSelected(menu) && |menu.rows| == |t.rows[t.row.value].menu.rows|
    ensures WellSelected(WithSelected(t, menu))
  {
    var v := WithSelected(t, menu);
    forall k | 0 <= k < |v.rows| && v.rows[k].Submenu?
      ensures WellSelected(v.rows[k].menu)
    {
      assert k != t.row.value ==> v.rows[k] == t.rows[k];
    }
  }

  lemma {:induction false} SelectActiveKeepsWell(t: Tree, action: SelectAction)
    requires WellSelected(t) && t.row.Some? && !action.Index?
    ensures CanSelectActive(t, action)
    ensures WellSelected(SelectActive(t, action)) && SelectActive(t, action).row.Some?
    ensures |SelectActive(t, action).rows| == |t.rows|
    decreases t
  {
    if Descends(t) {
      var menu := t.rows[t.row.value].menu;
      SelectActiveKeepsWell(menu, action);
      ReplacingKeepsWell(t, SelectActive(menu, action));
    } else {
      SelectKeepsWell(t, action, KeyboardOrProgrammatic);
    }
  }

  lemma FirstKeepsWell(t: Tree)
    requires WellSelected(t)
    ensures WellSelected(SelectFirstSelectable(t).0)
    ensures |SelectFirstSelectable(t).0.rows| == |t.rows|
  {
    var first := FirstSelectable(t.rows);
    if first.Some? {
      SelectableRowsHaveWidth(t.rows[first.value]);
      SelectKeepsWell(t, Index(first.value, 0), KeyboardOrProgrammatic);
    }
  }

  lemma {:induction false} OpenKeepsWell(t: Tree)
    requires WellSelected(t)
    ensures WellSelected(OpenSelectedSubmenu(t).0) && OpenSelectedSubmenu(t).0.row == t.row
    ensures |OpenSelectedSubmenu(t).0.rows| == |t.rows|
    decreases t
  {
    hide SelectFirstSelectable;
    if Descends(t) {
      var menu := t.rows[t.row.value].menu;
      OpenKeepsWell(menu);
      ReplacingKeepsWell(t, OpenSelectedSubmenu(menu).0);
    } else if SelectedRow(t).Some? && SelectedRow(t).value.Submenu? {
      var menu := t.rows[t.row.value].menu;
      FirstKeepsWell(menu);
      ReplacingKeepsWell(t, SelectFirstSelectable(menu).0);
    }
  }

  // Paths.

  /** The rows that lead from a menu to the one that actions go to. */
  ghost function ActivePath(t: Tree): seq<nat> {
    if Descends(t) then [t.row.value] + ActivePath(t.rows[t.row.value].menu) else []
  }

  ghost predicate IsPath(t: Tree, path: seq<nat>) {
    path != [] ==>
      path[0] < |t.rows| && t.rows[path[0]].Submenu? && IsPath(t.rows[path[0]].menu, path[1..])
  }

  ghost function MenuAt(t: Tree, path: seq<nat>): Tree
    requires IsPath(t, path)
  {
    if path == [] then t else MenuAt(t.rows[path[0]].menu, path[1..])
  }

  lemma {:induction false} ActivePathIsAPath(t: Tree)
    ensures IsPath(t, ActivePath(t))
    decreases t
  {
    if Descends(t) {
      ActivePathIsAPath(t.rows[t.row.value].menu);
      assert ActivePath(t)[1..] == ActivePath(t.rows[t.row.value].menu);
    }
  }

  /** The menu that actions go to. */
  ghost function ActiveMenu(t: Tree): Tree {
    ActivePathIsAPath(t);
    MenuAt(t, ActivePath(t))
  }

  lemma ActiveMenuBelow(t: Tree)
    ensures if Descends(t) then ActiveMenu(t) == ActiveMenu(t.rows[t.row.value].menu) else ActiveMenu(t) == t
  {
    if Descends(t) {
      ActivePathIsAPath(t);
      ActivePathIsAPath(t.rows[t.row.value].menu);
      assert ActivePath(t)[1..] == ActivePath(t.rows[t.row.value].menu);
    }
  }

  const NO_MENU := Tree(0, [], None, None, None, None)

  /** A menu without what is inside its submenus. */
  ghost function Own(t: Tree): Tree {
    t.(rows := seq(|t.rows|, k requires 0 <= k < |t.rows| =>
                     if t.rows[k].Submenu? then Submenu(NO_MENU) else t.rows[k]))
  }

  /** A menu on a path that is not the path of a replaced one keeps everything of its own. */
  ghost predicate SameOwn(t: Tree, v: Tree, path: seq<nat>) {
    IsPath(t, path) ==> IsPath(v, path) && Own(MenuAt(v, path)) == Own(MenuAt(t, path))
  }

  lemma OwnAcrossReplacement(t: Tree, menu: Tree)
    requires t.row.Some? && t.row.value < |t.rows| && t.rows[t.row.value].Submenu?
    ensures Own(WithSelected(t, menu)) == Own(t)
  {
    var v := WithSelected(t, menu);
    assert forall k :: 0 <= k < |t.rows| ==> Own(v).rows[k] == Own(t).rows[k];
  }

  /** Up and down do to the active menu what they do to one menu, and change nothing of any other. */
  lemma {:induction false} OnlyTheActiveMenuMoves(t: Tree, action: SelectAction, path: seq<nat>)
    requires CanSelectActive(t, action)
    ensures CanSelect(ActiveMenu(t), action)
    ensures IsPath(SelectActive(t, action), ActivePath(t))
    ensures var (row, item) := Moved(ActiveMenu(t), action);
            MenuAt(SelectActive(t, action), ActivePath(t)) ==
            ActiveMenu(t).(row := Some(row), item := Some(item), hovered := Some(row),
                           source := Some(KeyboardOrProgrammatic))
    ensures path != ActivePath(t) ==> SameOwn(t, SelectActive(t, action), path)
    decreases t
  {
    ActiveMenuBelow(t);
    ActivePathIsAPath(t);
    if Descends(t) {
      var r := t.row.value;
      var menu := t.rows[r].menu;
      var below := if path == [] then [] else path[1..];
      OnlyTheActiveMenuMoves(menu, action, below);
      OwnAcrossReplacement(t, SelectActive(menu, action));
      assert ActivePath(t)[1..] == ActivePath(menu);
      if path != [] && path != ActivePath(t) && path[0] == r {
        assert path == [r] + below;
      }
    } else if path != [] && IsPath(t, path) {
      assert SelectActive(t, action).rows == t.rows;
    }
  }

  // Opening.

  /** Opening either changes nothing, or it makes the path to the active menu longer at its end and
      leaves the menu at its start where it was. */
  lemma {:induction false} OpeningExtendsThePath(t: Tree)
    ensures var (v, found) := OpenSelectedSubmenu(t);
            && v.row == t.row && |v.rows| == |t.rows|
            && if found then ActivePath(t) < ActivePath(v) else v == t
    decreases t
  {
    if Descends(t) {
      var menu := t.rows[t.row.value].menu;
      OpeningExtendsThePath(menu);
    }
  }

  lemma SameRowsSamePaths(a: Tree, b: Tree, path: seq<nat>)
    requires a.rows == b.rows && path != []
    ensures IsPath(a, path) <==> IsPath(b, path)
    ensures IsPath(a, path) ==> MenuAt(a, path) == MenuAt(b, path)
  {
  }

  /** Replacing the submenu that is selected leaves the other menus. */
  lemma ReplacingLeavesOthers(t: Tree, menu: Tree, path: seq<nat>)
    requires SelectedRow(t).Some? && SelectedRow(t).value.Submenu?
    requires var before := t.rows[t.row.value].menu;
             path != [] && path[0] == t.row.value ==> SameOwn(before, menu, path[1..])
    ensures SameOwn(t, WithSelected(t, menu), path)
  {
    OwnAcrossReplacement(t, menu);
    hide Own;
  }

  lemma OpeningHere(t: Tree, path: seq<nat>)
    requires SelectedRow(t).Some? && SelectedRow(t).value.Submenu?
    ensures var menu := t.rows[t.row.value].menu;
            path != [t.row.value] ==> SameOwn(t, WithSelected(t, SelectFirstSelectable(menu).0), path)
  {
    var menu := t.rows[t.row.value].menu;
    var first := SelectFirstSelectable(menu).0;
    if path != [t.row.value] {
      if path != [] && path[0] == t.row.value {
        assert path == [path[0]] + path[1..];
        SameRowsSamePaths(menu, first, path[1..]);
      }
      ReplacingLeavesOthers(t, first, path);
    }
  }

  /** The path to the submenu that is selected in the active menu. */
  ghost function PathInside(t: Tree): seq<nat> {
    ActivePath(t) + if ActiveMenu(t).row.Some? then [ActiveMenu(t).row.value] else []
  }

  /** A menu with the first item of its first selectable row selected, if it has one. */
  ghost function WithFirst(menu: Tree): Tree {
    var first := FirstSelectable(menu.rows);
    if first.None? then menu
    else menu.(row := first, item := Some(0), hovered := first, source := Some(KeyboardOrProgrammatic))
  }

  /** Opening succeeds exactly on a submenu with a selectable row; it selects the first of those rows,
      and changes nothing of any other menu. */
  lemma {:induction false} OnlyTheOpenedMenuChanges(t: Tree, path: seq<nat>)
    ensures var (v, found) := OpenSelectedSubmenu(t);
            var selected := SelectedRow(ActiveMenu(t));
            if selected.Some? && selected.value.Submenu? then
              && (found <==> FirstSelectable(selected.value.menu.rows).Some?)
              && IsPath(v, PathInside(t))
              && MenuAt(v, PathInside(t)) == WithFirst(selected.value.menu)
              && (path != PathInside(t) ==> SameOwn(t, v, path))
            else
              !found && v == t
    decreases t
  {
    hide SelectFirstSelectable, SameOwn, FirstSelectable, Own, WithFirst;
    ActiveMenuBelow(t);
    ActivePathIsAPath(t);
    if Descends(t) {
      var r := t.row.value;
      var menu := t.rows[r].menu;
      var below := if path == [] then [] else path[1..];
      OnlyTheOpenedMenuChanges(menu, below);
      assert PathInside(t) == [r] + PathInside(menu);
      if path != PathInside(t) && SelectedRow(ActiveMenu(t)).Some? && SelectedRow(ActiveMenu(t)).value.Submenu? {
        if path != [] && path[0] == r {
          assert path == [r] + below;
        }
        ReplacingLeavesOthers(t, OpenSelectedSubmenu(menu).0, path);
      }
    } else if SelectedRow(t).Some? && SelectedRow(t).value.Submenu? {
      assert PathInside(t) == [t.row.value] && [t.row.value][1..] == [];
      OpeningHere(t, path);
      FoundIsSome(t.rows[t.row.value].menu);
    }
  }

  lemma FoundIsSome(t: Tree)
    ensures SelectFirstSelectable(t).1 <==> FirstSelectable(t.rows).Some?
    ensures SelectFirstSelectable(t).0 == WithFirst(t)
  {
  }

  ghost function RowHeight(row: Row): nat
    decreases row
  {
    if row.Submenu? then 1 + RowsHeight(row.menu.rows) else 0
  }

  ghost function RowsHeight(rows: seq<Row>): nat
    decreases rows
  {
    if rows == [] then 0
    else
      var h, last := RowsHeight(rows[..|rows| - 1]), RowHeight(rows[|rows| - 1]);
      if last > h then last else h
  }

  lemma {:induction false} RowsHeightIsTheMost(rows: seq<Row>)
    ensures forall k :: 0 <= k < |rows| ==> RowHeight(rows[k]) <= RowsHeight(rows)
    ensures RowsHeight(rows) == 0 || exists k :: 0 <= k < |rows| && RowHeight(rows[k]) == RowsHeight(rows)
    decreases |rows|
  {
    hide RowHeight;
    if rows != [] {
      var n := |rows| - 1;
      RowsHeightIsTheMost(rows[..n]);
      assert forall k :: 0 <= k < n ==> rows[k] == rows[..n][k];
      assert RowHeight(rows[n]) <= RowsHeight(rows);
    }
  }

  /** How many submenus deep a tree goes. */
  ghost function Height(t: Tree): nat {
    RowsHeight(t.rows)
  }

  lemma {:induction false} PathsAreWithinTheHeight(t: Tree, path: seq<nat>)
    requires IsPath(t, path)
    ensures |path| <= Height(t)
    decreases t
  {
    if path != [] {
      PathsAreWithinTheHeight(t.rows[path[0]].menu, path[1..]);
      RowsHeightIsTheMost(t.rows);
    }
  }

  lemma SameHeights(rows: seq<Row>, r: nat, menu: Tree)
    requires r < |rows| && rows[r].Submenu? && Height(menu) == Height(rows[r].menu)
    ensures RowsHeight(rows[r := Submenu(menu)]) == RowsHeight(rows)
  {
    var replaced := rows[r := Submenu(menu)];
    assert forall k :: 0 <= k < |rows| ==> RowHeight(replaced[k]) == RowHeight(rows[k]);
    RowsHeightIsTheMost(rows);
    RowsHeightIsTheMost(replaced);
  }

  lemma {:induction false} OpeningKeepsTheHeight(t: Tree)
    ensures Height(OpenSelectedSubmenu(t).0) == Height(t)
    decreases t
  {
    hide RowsHeight, FirstSelectable;
    if Descends(t) {
      var menu := t.rows[t.row.value].menu;
      OpeningKeepsTheHeight(menu);
      SameHeights(t.rows, t.row.value, OpenSelectedSubmenu(menu).0);
    } else if SelectedRow(t).Some? && SelectedRow(t).value.Submenu? {
      var menu := t.rows[t.row.value].menu;
      SameHeights(t.rows, t.row.value, SelectFirstSelectable(menu).0);
    }
  }

  ghost function OpenTimes(t: Tree, n: nat): Tree {
    if n == 0 then t else OpenSelectedSubmenu(OpenTimes(t, n - 1)).0
  }

  /** Submenus can be opened one after another only as often as the tree is high. */
  lemma {:induction false} OpeningsAreBounded(t: Tree, n: nat)
    requires forall k :: 0 <= k < n ==> OpenSelectedSubmenu(OpenTimes(t, k)).1
    ensures Height(OpenTimes(t, n)) == Height(t)
    ensures |ActivePath(t)| + n <= |ActivePath(OpenTimes(t, n))| <= Height(t)
  {
    hide OpenSelectedSubmenu, ActivePath, Height, IsPath;
    var v := OpenTimes(t, n);
    ActivePathIsAPath(v);
    PathsAreWithinTheHeight(v, ActivePath(v));
    if n > 0 {
      OpeningsAreBounded(t, n - 1);
      OpeningKeepsTheHeight(OpenTimes(t, n - 1));
      OpeningExtendsThePath(OpenTimes(t, n - 1));
    }
  }

  // Enter.

  /** Enter opens the submenu that is selected in the active menu, as right does; on any other row it
      changes nothing and gives the action of the selected item of the active menu. */
  lemma {:induction false} EnterOpensOrActs(t: Tree)
    ensures var (v, action) := SelectedActionForEnter(t);
            var selected := SelectedRow(ActiveMenu(t));
            if selected.Some? && selected.value.Submenu? then
              v == OpenSelectedSubmenu(t).0 && action == None
            else
              && v == t && v == OpenSelectedSubmenu(t).0
              && action == if selected.None? then None
                           else ItemAction(selected.value, OrElse(ActiveMenu(t).item, 0))
    decreases t
  {
    ActiveMenuBelow(t);
    if Descends(t) {
      EnterOpensOrActs(t.rows[t.row.value].menu);
    }
  }

  /** Enter gives an action exactly when the row selected in the active menu is an item with that action, a
      header with it that can be clicked, or a row of items of which the selected one, or the first when none
      is, has it. Whether an item is disabled makes no difference. */
  lemma WhichActionEnterGives(t: Tree, action: Action)
    ensures SelectedActionForEnter(t).1 == Some(action) <==>
            var m := ActiveMenu(t);
            && m.row.Some? && m.row.value < |m.rows|
            && match m.rows[m.row.value]
               case Item(fields) => fields.onSelect == Some(action)
               case Header(fields, clickable) => clickable && fields.onSelect == Some(action)
               case ItemsRow(items) =>
                 var i := if m.item.Some? then m.item.value else 0;
                 i < |items| && items[i].onSelect == Some(action)
               case Separator => false
               case Submenu(_) => false
  {
    hide ActiveMenu;
    EnterOpensOrActs(t);
  }

  lemma {:induction false} ActiveMenuIsWell(t: Tree)
    requires WellSelected(t)
    ensures WellSelected(ActiveMenu(t)) && (t.row.Some? ==> ActiveMenu(t).row.Some?)
    decreases t
  {
    ActiveMenuBelow(t);
    if Descends(t) {
      ActiveMenuIsWell(t.rows[t.row.value].menu);
    }
  }

  /** While every selection is at a position, enter acts only on rows that can be selected. */
  lemma EnterActsOnSelectable(t: Tree)
    requires WellSelected(t) && SelectedActionForEnter(t).1.Some?
    ensures SelectedRow(ActiveMenu(t)).Some? && Selectable(SelectedRow(ActiveMenu(t)).value)
  {
    hide ActiveMenu, ActivePath;
    ActiveMenuIsWell(t);
    EnterOpensOrActs(t);
  }

  /** After a blind first move it may act on a disabled item. */
  lemma DisabledItemActs()
    ensures var t := NewTree([Item(Fields(true, false, Some(7)))]);
            SelectedActionForEnter(Press(t, Down)).1 == Some(7)
  {
    var t := NewTree([Item(Fields(true, false, Some(7)))]);
    assert t.rows == [DeeperRow(Item(Fields(true, false, Some(7))))];
    PressUnselected(t, Down);
  }

  // Any sequence of keys.

  datatype Key = Up | Down | Right | Enter

  predicate Moves(key: Key) {
    key.Up? || key.Down?
  }

  function MoveOf(key: Key): SelectAction
    requires Moves(key)
  {
    if key.Up? then SelectAction.Previous else SelectAction.Next
  }

  /** The key indexes nothing out of range. */
  predicate CanPress(t: Tree, key: Key) {
    Moves(key) ==> CanSelectActive(t, MoveOf(key))
  }

  ghost function Press(t: Tree, key: Key): Tree
    requires CanPress(t, key)
  {
    match key
    case Up => SelectActive(t, SelectAction.Previous)
    case Down => SelectActive(t, SelectAction.Next)
    case Right => OpenSelectedSubmenu(t).0
    case Enter => SelectedActionForEnter(t).0
  }

  /** The menus that a sequence of keys goes through, up to the first key that indexes out of range. */
  ghost predicate Typed(menus: seq<Tree>, keys: seq<Key>) {
    && |menus| == |keys| + 1
    && forall k :: 0 <= k < |keys| ==> CanPress(menus[k], keys[k]) ==> menus[k + 1] == Press(menus[k], keys[k])
  }

  /** Right and enter do nothing to a menu without a selection, and the first move selects the first
      item of the first row without looking. */
  lemma PressUnselected(t: Tree, key: Key)
    requires t.row.None?
    ensures CanPress(t, key)
    ensures Press(t, key) == if Moves(key) then Select(t, MoveOf(key), KeyboardOrProgrammatic) else t
    ensures Moves(key) ==> Press(t, key).row == Some(0) && Press(t, key).item == Some(0)
    ensures Press(t, key).rows == t.rows
  {
  }

  // Whether keys keep selections at positions.

  lemma PressKeepsWell(t: Tree, key: Key)
    requires WellSelected(t) && t.row.Some?
    ensures CanPress(t, key) && WellSelected(Press(t, key)) && Press(t, key).row.Some?
  {
    match key
    case Up => SelectActiveKeepsWell(t, SelectAction.Previous);
    case Down => SelectActiveKeepsWell(t, SelectAction.Next);
    case Right => OpenKeepsWell(t);
    case Enter =>
      OpenKeepsWell(t);
      EnterOpensOrActs(t);
  }

  lemma FirstMoveKeepsWell(t: Tree, key: Key)
    requires WellSelected(t) && t.row.None? && Moves(key)
    ensures CanPress(t, key)
    ensures WellSelected(Press(t, key)) <==> t.rows != [] && Selectable(t.rows[0])
  {
    FirstMoveIsBlind(t, MoveOf(key));
  }

  /** From a menu with something selected and every selection at a position, all of them stay so, whatever
      keys are pressed, and no key ever indexes out of range. */
  lemma {:induction false} KeysKeepWell(menus: seq<Tree>, keys: seq<Key>, from: nat, n: nat)
    requires Typed(menus, keys) && from <= n < |menus|
    requires WellSelected(menus[from]) && menus[from].row.Some?
    ensures WellSelected(menus[n]) && menus[n].row.Some? && InRange(menus[n])
    ensures n < |keys| ==> CanPress(menus[n], keys[n])
    decreases n - from
  {
    hide WellSelected, CanPress, Press;
    if n > from {
      KeysKeepWell(menus, keys, from, n - 1);
      PressKeepsWell(menus[n - 1], keys[n - 1]);
    }
    WellSelectedIsInRange(menus[n]);
    if n < |keys| {
      PressKeepsWell(menus[n], keys[n]);
    }
  }

  ghost predicate NoMovesIn(keys: seq<Key>, from: nat, to: nat)
    requires to <= |keys|
  {
    forall k :: from <= k < to ==> !Moves(keys[k])
  }

  ghost predicate NoMoves(keys: seq<Key>) {
    NoMovesIn(keys, 0, |keys|)
  }

  lemma {:induction false} UnselectedUntilTheFirstMove(menus: seq<Tree>, keys: seq<Key>, n: nat)
    requires Typed(menus, keys) && n < |menus| && menus[0].row.None?
    requires NoMovesIn(keys, 0, n)
    ensures menus[n] == menus[0]
  {
    hide CanPress, Press;
    if n > 0 {
      UnselectedUntilTheFirstMove(menus, keys, n - 1);
      PressUnselected(menus[n - 1], keys[n - 1]);
    }
  }

  lemma {:induction false} FirstMove(keys: seq<Key>, from: nat) returns (first: nat)
    requires from <= |keys| && !NoMovesIn(keys, from, |keys|)
    ensures from <= first < |keys| && Moves(keys[first]) && NoMovesIn(keys, from, first)
    decreases |keys| - from
  {
    if Moves(keys[from]) {
      first := from;
    } else {
      first := FirstMove(keys, from + 1);
    }
  }

  /**
   Whatever keys are pressed in a menu whose selections are at positions, they stay at positions exactly
   when the menu itself has a selection, or no move is made, or its first row can be selected.
   */
  lemma WhenKeysKeepWell(menus: seq<Tree>, keys: seq<Key>)
    requires Typed(menus, keys) && WellSelected(menus[0])
    ensures (forall n :: 0 <= n < |menus| ==> WellSelected(menus[n])) <==>
            || menus[0].row.Some? || NoMoves(keys)
            || (menus[0].rows != [] && Selectable(menus[0].rows[0]))
  {
    hide WellSelected, CanPress, Press;
    if menus[0].row.Some? {
      forall n | 0 <= n < |menus|
        ensures WellSelected(menus[n])
      {
        KeysKeepWell(menus, keys, 0, n);
      }
    } else if NoMoves(keys) {
      forall n | 0 <= n < |menus|
        ensures WellSelected(menus[n])
      {
        UnselectedUntilTheFirstMove(menus, keys, n);
      }
    } else {
      var first := FirstMove(keys, 0);
      WellAfterTheFirstMove(menus, keys, first);
    }
  }

  lemma WellAfterTheFirstMove(menus: seq<Tree>, keys: seq<Key>, first: nat)
    requires Typed(menus, keys) && WellSelected(menus[0]) && menus[0].row.None?
    requires first < |keys| && Moves(keys[first]) && NoMovesIn(keys, 0, first)
    ensures (forall n :: 0 <= n < |menus| ==> WellSelected(menus[n])) <==>
            menus[0].rows != [] && Selectable(menus[0].rows[0])
  {
    hide WellSelected, CanPress, Press, Selectable;
    UnselectedUntilTheFirstMove(menus, keys, first);
    FirstMoveKeepsWell(menus[0], keys[first]);
    PressUnselected(menus[0], keys[first]);
    assert menus[first + 1] == Press(menus[first], keys[first]);
    if menus[0].rows != [] && Selectable(menus[0].rows[0]) {
      forall n | 0 <= n < |menus|
        ensures WellSelected(menus[n])
      {
        if n <= first {
          UnselectedUntilTheFirstMove(menus, keys, n);
        } else {
          KeysKeepWell(menus, keys, first + 1, n);
        }
      }
    }
  }

  // From a first row that cannot be selected.

  ghost predicate SubmenusAreWell(t: Tree) {
    forall k :: 0 <= k < |t.rows| && t.rows[k].Submenu? ==> WellSelected(t.rows[k].menu)
  }

  /** What the first move leaves when the first row cannot be selected. */
  ghost predicate IsBlind(t: Tree) {
    && t.rows != [] && t.row == Some(0) && t.item == Some(0) && !Selectable(t.rows[0])
    && SubmenusAreWell(t)
  }

  /** The only rows that cannot be selected and yet have a second item to move to. */
  ghost predicate HasSeveralItems(row: Row) {
    row.ItemsRow? && |row.items| > 1
  }

  lemma BlindIsAtTheTop(t: Tree)
    requires IsBlind(t)
    ensures !Descends(t)
  {
    if t.rows[0].Submenu? {
      assert WellSelected(t.rows[0].menu);
    }
  }

  /** Right and enter leave a blind selection, up goes from it to a position, and down does exactly when
      the row does not have several items. */
  lemma PressBlind(t: Tree, key: Key)
    requires IsBlind(t) && AnySelectable(t.rows)
    ensures CanPress(t, key)
    ensures !Moves(key) ==> Press(t, key) == t
    ensures Moves(key) ==> (WellSelected(Press(t, key)) <==> key.Up? || !HasSeveralItems(t.rows[0]))
    ensures Press(t, key).row.Some?
  {
    hide RowAfter, RowBefore, IncrementDepth;
    BlindIsAtTheTop(t);
    if Moves(key) {
      WhenMovesAreInRange(t);
      RowAfterIsNext(t.rows, 0);
      RowBeforeIsPrevious(t.rows, 0);
      SelectableRowsHaveWidth(t.rows[RowAfter(t.rows, 0)]);
      SelectableRowsHaveWidth(t.rows[RowBefore(t.rows, 0)]);
      assert Press(t, key).rows == t.rows;
    } else {
      OpeningExtendsThePath(t);
      EnterOpensOrActs(t);
      OnlyTheOpenedMenuChanges(t, []);
      ActiveMenuBelow(t);
    }
  }

  lemma {:induction false} BlindUntilTheSecondMove(menus: seq<Tree>, keys: seq<Key>, from: nat, n: nat)
    requires Typed(menus, keys) && from <= n < |menus| && NoMovesIn(keys, from, n)
    requires IsBlind(menus[from]) && AnySelectable(menus[from].rows)
    ensures menus[n] == menus[from]
    decreases n - from
  {
    hide CanPress, Press, IsBlind;
    if n > from {
      BlindUntilTheSecondMove(menus, keys, from, n - 1);
      PressBlind(menus[n - 1], keys[n - 1]);
    }
  }

  /** The first two moves among some keys. */
  ghost predicate FirstTwoMoves(keys: seq<Key>, first: nat, second: nat) {
    && first < second < |keys| && Moves(keys[first]) && Moves(keys[second])
    && NoMovesIn(keys, 0, first) && NoMovesIn(keys, first + 1, second)
  }

  /**
   In a menu without a selection but with a row to select, every selection is at a position again after
   the second move and whatever follows, exactly when the first row can be selected, or is not a row of
   several items, or that second move is up.
   */
  lemma SecondMoveLands(menus: seq<Tree>, keys: seq<Key>, first: nat, second: nat)
    requires Typed(menus, keys) && FirstTwoMoves(keys, first, second)
    requires WellSelected(menus[0]) && menus[0].row.None? && AnySelectable(menus[0].rows)
    ensures (forall n :: second < n < |menus| ==> WellSelected(menus[n])) <==>
            Selectable(menus[0].rows[0]) || !HasSeveralItems(menus[0].rows[0]) || keys[second].Up?
  {
    hide CanPress, Press, WellSelected, IsBlind;
    UnselectedUntilTheFirstMove(menus, keys, first);
    PressUnselected(menus[0], keys[first]);
    var t := menus[first + 1];
    assert t == Press(menus[first], keys[first]);
    if Selectable(menus[0].rows[0]) {
      FirstMoveKeepsWell(menus[0], keys[first]);
      forall n | second < n < |menus|
        ensures WellSelected(menus[n])
      {
        KeysKeepWell(menus, keys, first + 1, n);
      }
    } else {
      FirstMoveIsBlindAt(menus[0], keys[first]);
      BlindUntilTheSecondMove(menus, keys, first + 1, second);
      PressBlind(t, keys[second]);
      assert menus[second + 1] == Press(t, keys[second]);
      if WellSelected(menus[second + 1]) {
        forall n | second < n < |menus|
          ensures WellSelected(menus[n])
        {
          KeysKeepWell(menus, keys, second + 1, n);
        }
      }
    }
  }

  lemma FirstMoveIsBlindAt(t: Tree, key: Key)
    requires WellSelected(t) && t.row.None? && Moves(key) && AnySelectable(t.rows) && !Selectable(t.rows[0])
    ensures CanPress(t, key) && IsBlind(Press(t, key))
  {
    PressUnselected(t, key);
  }

  /** A row of two disabled items before one that can be selected: down twice stays on a disabled item. */
  lemma DisabledItemIsSelected()
    ensures var off, on := Fields(true, false, None), Fields(false, false, None);
            var t := NewTree([ItemsRow([off, off]), Item(on)]);
            var v := Press(t, Down);
            && CanPress(v, Down)
            && Press(v, Down).row == Some(0) && Press(v, Down).item == Some(1) && !WellSelected(Press(v, Down))
  {
    var off, on := Fields(true, false, None), Fields(false, false, None);
    var t := NewTree([ItemsRow([off, off]), Item(on)]);
    assert t.rows == [DeeperRow(ItemsRow([off, off])), DeeperRow(Item(on))];
    PressUnselected(t, Down);
    assert Selectable(t.rows[1]);
    FirstMoveIsBlindAt(t, Down);
    PressBlind(Press(t, Down), Down);
  }

  // Whether keys index out of range.

  lemma {:induction false} InRangeCanSelect(t: Tree, action: SelectAction)
    requires InRange(t) && !action.Index?
    ensures CanSelectActive(t, action)
    decreases t
  {
    if Descends(t) {
      InRangeCanSelect(t.rows[t.row.value].menu, action);
    } else {
      WhenMovesAreInRange(t);
    }
  }

  lemma SelectKeepsRange(t: Tree, action: SelectAction)
    requires InRange(t) && !action.Index? && CanSelect(t, action)
    requires t.row.None? ==> t.rows != []
    ensures InRange(Select(t, action, KeyboardOrProgrammatic))
  {
    hide FindCycled;
  }

  lemma ReplacingKeepsRange(t: Tree, menu: Tree)
    requires InRange(t) && SelectedRow(t).Some? && InRange(menu)
    ensures InRange(WithSelected(t, menu))
  {
    var v := WithSelected(t, menu);
    forall k | 0 <= k < |v.rows| && v.rows[k].Submenu?
      ensures InRange(v.rows[k].menu)
    {
      assert k != t.row.value ==> v.rows[k] == t.rows[k];
    }
  }

  lemma {:induction false} SelectActiveKeepsRange(t: Tree, action: SelectAction)
    requires InRange(t) && !action.Index? && CanSelectActive(t, action)
    requires t.row.None? ==> t.rows != []
    ensures InRange(SelectActive(t, action)) && |SelectActive(t, action).rows| == |t.rows|
    decreases t
  {
    hide Select;
    if Descends(t) {
      var menu := t.rows[t.row.value].menu;
      SelectActiveKeepsRange(menu, action);
      ReplacingKeepsRange(t, SelectActive(menu, action));
    } else {
      SelectKeepsRange(t, action);
      SelectKeepsRows(t, action);
    }
  }

  lemma SelectKeepsRows(t: Tree, action: SelectAction)
    requires CanSelect(t, action)
    ensures Select(t, action, KeyboardOrProgrammatic).rows == t.rows
  {
  }

  lemma FirstKeepsRange(t: Tree)
    requires InRange(t)
    ensures InRange(SelectFirstSelectable(t).0)
  {
  }

  lemma {:induction false} OpenKeepsRange(t: Tree)
    requires InRange(t)
    ensures InRange(OpenSelectedSubmenu(t).0) && |OpenSelectedSubmenu(t).0.rows| == |t.rows|
    decreases t
  {
    hide SelectFirstSelectable;
    if Descends(t) {
      var menu := t.rows[t.row.value].menu;
      OpenKeepsRange(menu);
      ReplacingKeepsRange(t, OpenSelectedSubmenu(menu).0);
    } else if SelectedRow(t).Some? && SelectedRow(t).value.Submenu? {
      var menu := t.rows[t.row.value].menu;
      FirstKeepsRange(menu);
      ReplacingKeepsRange(t, SelectFirstSelectable(menu).0);
    }
  }

  lemma PressKeepsRange(t: Tree, key: Key)
    requires InRange(t) && t.rows != []
    ensures CanPress(t, key) && InRange(Press(t, key)) && Press(t, key).rows != []
  {
    hide InRange, SelectActive, OpenSelectedSubmenu, SelectedActionForEnter, CanSelectActive;
    if Moves(key) {
      InRangeCanSelect(t, MoveOf(key));
      SelectActiveKeepsRange(t, MoveOf(key));
    } else {
      OpenKeepsRange(t);
      EnterOpensOrActs(t);
    }
  }

  /** In a menu with rows no key ever indexes out of range. */
  lemma {:induction false} KeysKeepRange(menus: seq<Tree>, keys: seq<Key>, n: nat)
    requires Typed(menus, keys) && n < |menus|
    requires InRange(menus[0]) && menus[0].rows != []
    ensures InRange(menus[n]) && menus[n].rows != []
    ensures n < |keys| ==> CanPress(menus[n], keys[n])
  {
    hide InRange, CanPress, Press;
    if n > 0 {
      KeysKeepRange(menus, keys, n - 1);
      PressKeepsRange(menus[n - 1], keys[n - 1]);
    }
    if n < |keys| {
      PressKeepsRange(menus[n], keys[n]);
    }
  }

  /** After the first move a menu without rows has a selection out of range, which right and enter leave
      and the next move indexes. */
  lemma {:induction false} StuckOutOfRange(menus: seq<Tree>, keys: seq<Key>, from: nat, n: nat)
    requires Typed(menus, keys) && from <= n < |menus| && NoMovesIn(keys, from, n)
    requires menus[from].rows == [] && menus[from].row == Some(0) && menus[from].item == Some(0)
    ensures menus[n] == menus[from]
    ensures n < |keys| ==> (CanPress(menus[n], keys[n]) <==> !Moves(keys[n]))
    decreases n - from
  {
    if n > from {
      StuckOutOfRange(menus, keys, from, n - 1);
    }
  }

  /** There are two moves among the keys. */
  ghost predicate MovesTwice(keys: seq<Key>) {
    exists j, k :: 0 <= j < k < |keys| && Moves(keys[j]) && Moves(keys[k])
  }

  ghost predicate AllPressed(menus: seq<Tree>, keys: seq<Key>)
    requires |menus| == |keys| + 1
  {
    forall k :: 0 <= k < |keys| ==> CanPress(menus[k], keys[k])
  }

  lemma PressedUpTo(menus: seq<Tree>, keys: seq<Key>, n: nat)
    requires Typed(menus, keys) && menus[0].row.None? && n <= |keys| && NoMovesIn(keys, 0, n)
    ensures menus[n] == menus[0]
    ensures forall k :: 0 <= k <= n && k < |keys| ==> CanPress(menus[k], keys[k])
  {
    hide CanPress, Press;
    UnselectedUntilTheFirstMove(menus, keys, n);
    forall k | 0 <= k <= n && k < |keys|
      ensures CanPress(menus[k], keys[k])
    {
      UnselectedUntilTheFirstMove(menus, keys, k);
      PressUnselected(menus[0], keys[k]);
    }
  }

  lemma AtMostOneMove(menus: seq<Tree>, keys: seq<Key>)
    requires Typed(menus, keys) && menus[0].rows == [] && menus[0].row.None?
    ensures AllPressed(menus, keys) <==> !MovesTwice(keys)
  {
    hide CanPress, Press;
    if NoMoves(keys) {
      PressedUpTo(menus, keys, |keys|);
    } else {
      var first := FirstMove(keys, 0);
      PressedUpTo(menus, keys, first);
      PressUnselected(menus[0], keys[first]);
      assert menus[first + 1] == Press(menus[first], keys[first]);
      if NoMovesIn(keys, first + 1, |keys|) {
        forall k | first < k < |keys|
          ensures CanPress(menus[k], keys[k])
        {
          StuckOutOfRange(menus, keys, first + 1, k);
        }
      } else {
        var second := FirstMove(keys, first + 1);
        StuckOutOfRange(menus, keys, first + 1, second);
      }
    }
  }

  /**
   No key ever indexes a row out of range, from a menu whose selections are in range, exactly when the
   menu has rows or no two moves are made in it.
   */
  lemma WhenKeysStayInRange(menus: seq<Tree>, keys: seq<Key>)
    requires Typed(menus, keys) && InRange(menus[0])
    ensures AllPressed(menus, keys) <==> menus[0].rows != [] || !MovesTwice(keys)
  {
    if menus[0].rows == [] {
      AtMostOneMove(menus, keys);
    } else {
      forall k | 0 <= k < |keys|
        ensures CanPress(menus[k], keys[k])
      {
        KeysKeepRange(menus, keys, k);
      }
    }
  }

  /** A menu that starts with a separator: down selects it. */
  lemma SeparatorIsSelected()
    ensures var t := NewTree([Separator, Item(Fields(false, false, None))]);
            && WellSelected(t) && SelectedRow(Press(t, Down)) == Some(Separator)
            && !WellSelected(Press(t, Down))
  {
    var t := NewTree([Separator, Item(Fields(false, false, None))]);
    assert t.rows == [DeeperRow(Separator), DeeperRow(Item(Fields(false, false, None)))];
    PressUnselected(t, Down);
    FirstMoveKeepsWell(t, Down);
  }

  /** A menu without rows: down twice indexes out of range. */
  lemma SecondMoveIsOutOfRange()
    ensures var t := NewTree([]);
            CanPress(t, Down) && !CanPress(Press(t, Down), Down)
  {
    var t := NewTree([]);
    PressUnselected(t, Down);
  }
}
