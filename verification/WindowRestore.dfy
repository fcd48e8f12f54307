/**
 Saving the windows of a session (app/src/app_state.rs) and opening them again (app/src/root_view.rs).

 Saving skips windows without a workspace, drag previews and windows without tabs, but the index that
 it saves for the active window counts every window. Restoring opens the saved windows in order, the
 active one last.
 */
module WindowRestore {
  import opened Wrappers

  type WindowId = nat

  datatype Workspace = Workspace(isTabDragPreview: bool, tabs: nat)

  datatype Window = Window(id: WindowId, workspace: Option<Workspace>)

  datatype Snapshot = Snapshot(id: WindowId, quakeMode: bool)

  datatype AppState = AppState(windows: seq<Snapshot>, activeWindowIndex: Option<nat>)

  // Saving.

  predicate IsSaved(window: Window) {
    window.workspace.Some? && !window.workspace.value.isTabDragPreview && window.workspace.value.tabs != 0
  }

  function Saved(window: Window, quakeId: Option<WindowId>): Snapshot {
    Snapshot(window.id, quakeId == Some(window.id))
  }

  ghost function SavedWindows(windows: seq<Window>, quakeId: Option<WindowId>): (s: seq<Snapshot>)
    ensures |s| <= |windows|
  {
    if windows == [] then []
    else
      var last := windows[|windows| - 1];
      SavedWindows(windows[..|windows| - 1], quakeId) + if IsSaved(last) then [Saved(last, quakeId)] else []
  }

  /** The index is that of the last window with the active id, counted over all windows. */
  ghost predicate IsActiveIndex(windows: seq<Window>, activeId: Option<WindowId>, index: Option<nat>) {
    match index
    case None => forall k :: 0 <= k < |windows| ==> activeId != Some(windows[k].id)
    case Some(i) =>
      && i < |windows| && activeId == Some(windows[i].id)
      && forall k :: i < k < |windows| ==> activeId != Some(windows[k].id)
  }

  method GetAppState(windows: seq<Window>, activeId: Option<WindowId>, quakeId: Option<WindowId>)
    returns (state: AppState)
    ensures state.windows == SavedWindows(windows, quakeId)
    ensures IsActiveIndex(windows, activeId, state.activeWindowIndex)
  {
    var activeWindowIndex: Option<nat> := None;
    var snapshots: seq<Snapshot> := [];
    for index := 0 to |windows|
      invariant snapshots == SavedWindows(windows[..index], quakeId)
      invariant IsActiveIndex(windows[..index], activeId, activeWindowIndex)
    {
      var window := windows[index];
      assert windows[..index + 1][..index] == windows[..index];
      if activeId.Some? && activeId.value == window.id {
        activeWindowIndex := Some(index);
      }
      if window.workspace.Some? {
        if window.workspace.value.isTabDragPreview {
          continue;
        }
        if window.workspace.value.tabs != 0 {
          snapshots := snapshots + [Saved(window, quakeId)];
        }
      }
    }
    assert windows[..|windows|] == windows;
    return AppState(snapshots, activeWindowIndex);
  }

  // Restoring.

  /** A saved window that is opened again, or a new one. */
  datatype Opened = Restored(index: nat) | Fresh

  /** Quake windows are not restored on Windows. */
  predicate IsRestored(window: Snapshot, isWindows: bool) {
    !(window.quakeMode && isWindows)
  }

  predicate IsActiveNormal(state: AppState, index: nat) {
    index < |state.windows| && state.activeWindowIndex == Some(index) && !state.windows[index].quakeMode
  }

  /** What the loop has opened after `n` windows. */
  ghost function OpenedInOrder(state: AppState, isWindows: bool, n: nat): seq<Opened>
    requires n <= |state.windows|
  {
    if n == 0 then []
    else
      OpenedInOrder(state, isWindows, n - 1) +
      if IsRestored(state.windows[n - 1], isWindows) && !IsActiveNormal(state, n - 1) then [Restored(n - 1)] else []
  }

  ghost predicate HasNormal(windows: seq<Snapshot>) {
    exists k :: 0 <= k < |windows| && !windows[k].quakeMode
  }

  ghost function ActiveLast(state: AppState): seq<Opened> {
    if state.activeWindowIndex.Some? && IsActiveNormal(state, state.activeWindowIndex.value) then
      [Restored(state.activeWindowIndex.value)]
    else []
  }

  ghost function Restoration(state: AppState, isWindows: bool): seq<Opened> {
    OpenedInOrder(state, isWindows, |state.windows|) +
    (if HasNormal(state.windows) then [] else [Fresh]) +
    ActiveLast(state)
  }

  method OpenFromRestored(state: AppState, restoreSession: bool, isWindows: bool) returns (reopened: seq<Opened>)
    ensures reopened == if restoreSession then Restoration(state, isWindows) else []
  {
    reopened := [];
    if !restoreSession {
      return;
    }
    var activeIndex: Option<nat> := None;
    var normalWindowCount := 0;
    for idx := 0 to |state.windows|
      invariant reopened == OpenedInOrder(state, isWindows, idx)
      invariant normalWindowCount == 0 <==> forall k :: 0 <= k < idx ==> state.windows[k].quakeMode
      invariant activeIndex.Some? ==> activeIndex.value < idx && IsActiveNormal(state, activeIndex.value)
      invariant activeIndex.None? ==> forall k :: 0 <= k < idx ==> !IsActiveNormal(state, k)
    {
      var window := state.windows[idx];
      if window.quakeMode {
        if isWindows {
          continue;
        }
        reopened := reopened + [Restored(idx)];
      } else {
        normalWindowCount := normalWindowCount + 1;
        if state.activeWindowIndex == Some(idx) {
          activeIndex := Some(idx);
        } else {
          reopened := reopened + [Restored(idx)];
        }
      }
    }
    if normalWindowCount == 0 {
      reopened := reopened + [Fresh];
    }
    if activeIndex.Some? {
      reopened := reopened + [Restored(activeIndex.value)];
    }
  }

  // What restoring guarantees.

  lemma {:induction false} OpensInOrder(state: AppState, isWindows: bool, n: nat, i: nat)
    requires n <= |state.windows|
    ensures Restored(i) in OpenedInOrder(state, isWindows, n) <==>
            i < n && IsRestored(state.windows[i], isWindows) && !IsActiveNormal(state, i)
  {
    if n > 0 {
      OpensInOrder(state, isWindows, n - 1, i);
    }
  }

  /** Saved windows that may be restored, in order, all before `n`. */
  ghost predicate InSavedOrder(state: AppState, isWindows: bool, n: nat, s: seq<Opened>) {
    && (forall k :: 0 <= k < |s| ==> s[k].Restored? && s[k].index < n && s[k].index < |state.windows|
                                     && IsRestored(state.windows[s[k].index], isWindows))
    && (forall k, l :: 0 <= k < l < |s| && s[k].Restored? && s[l].Restored? ==> s[k].index < s[l].index)
  }

  lemma {:induction false} InOrderIncreases(state: AppState, isWindows: bool, n: nat)
    requires n <= |state.windows|
    ensures InSavedOrder(state, isWindows, n, OpenedInOrder(state, isWindows, n))
  {
    if n > 0 {
      InOrderIncreases(state, isWindows, n - 1);
    }
  }

  /** Every saved window that may be restored opens exactly once, no other opens, and one new window
      opens exactly when there is no normal one. */
  lemma EachOpensOnce(state: AppState, isWindows: bool)
    ensures var s := Restoration(state, isWindows);
            && (forall i: nat :: Restored(i) in s <==>
                  i < |state.windows| && !(state.windows[i].quakeMode && isWindows))
            && (Fresh in s <==> forall k :: 0 <= k < |state.windows| ==> state.windows[k].quakeMode)
            && forall k, l :: 0 <= k < l < |s| ==> s[k] != s[l]
  {
    hide OpenedInOrder;
    var n := |state.windows|;
    var inOrder, visible := OpenedInOrder(state, isWindows, n), if HasNormal(state.windows) then [] else [Fresh];
    var s := Restoration(state, isWindows);
    assert s == inOrder + visible + ActiveLast(state);
    InOrderIncreases(state, isWindows, n);
    forall i: nat
      ensures Restored(i) in s <==> i < n && IsRestored(state.windows[i], isWindows)
    {
      OpensInOrder(state, isWindows, n, i);
    }
    if ActiveLast(state) != [] {
      OpensInOrder(state, isWindows, n, state.activeWindowIndex.value);
      assert ActiveLast(state)[0] !in inOrder;
    }
  }

  /** However the session was saved, something visible opens. */
  lemma SomethingVisibleOpens(state: AppState, isWindows: bool)
    ensures exists o :: o in Restoration(state, isWindows)
              && (o == Fresh || (o.index < |state.windows| && !state.windows[o.index].quakeMode))
  {
    hide Restoration;
    EachOpensOnce(state, isWindows);
    if HasNormal(state.windows) {
      var k :| 0 <= k < |state.windows| && !state.windows[k].quakeMode;
      assert Restored(k) in Restoration(state, isWindows);
    } else {
      assert Fresh in Restoration(state, isWindows);
    }
  }

  ghost function Last(reopened: seq<Opened>): Opened
    requires reopened != []
  {
    reopened[|reopened| - 1]
  }

  /** Windows open in saved order, but for the active normal window, which opens last. */
  lemma SavedOrderIsKept(state: AppState, isWindows: bool)
    ensures var s := Restoration(state, isWindows);
            && s != []
            && (forall k, l :: 0 <= k < l < |s| && s[k].Restored? && s[l].Restored? ==>
                  s[k].index < s[l].index || (l == |s| - 1 && state.activeWindowIndex == Some(s[l].index)))
            && (forall i :: 0 <= i < |state.windows| && state.activeWindowIndex == Some(i) ==>
                  state.windows[i].quakeMode || Last(s) == Restored(i))
            && (Fresh in s ==> Last(s) == Fresh)
  {
    var inOrder := OpenedInOrder(state, isWindows, |state.windows|);
    InOrderIncreases(state, isWindows, |state.windows|);
    SomethingVisibleOpens(state, isWindows);
  }

  // Saving and restoring.

  ghost predicate DistinctIds(windows: seq<Window>) {
    forall j, k :: 0 <= j < k < |windows| ==> windows[j].id != windows[k].id
  }

  /** How many windows before `n` were skipped. */
  ghost function SkippedBefore(windows: seq<Window>, n: nat): (m: nat)
    requires n <= |windows|
    ensures m <= n
  {
    if n == 0 then 0 else SkippedBefore(windows, n - 1) + if IsSaved(windows[n - 1]) then 0 else 1
  }

  lemma {:induction false} SavedCount(windows: seq<Window>, quakeId: Option<WindowId>)
    ensures |SavedWindows(windows, quakeId)| == |windows| - SkippedBefore(windows, |windows|)
  {
    if windows != [] {
      var before := windows[..|windows| - 1];
      SavedCount(before, quakeId);
      SkippedInPrefix(windows, |windows| - 1, |windows| - 1);
    }
  }

  lemma {:induction false} SkippedInPrefix(windows: seq<Window>, m: nat, n: nat)
    requires n <= m <= |windows|
    ensures SkippedBefore(windows[..m], n) == SkippedBefore(windows, n)
  {
    if n > 0 {
      SkippedInPrefix(windows, m, n - 1);
    }
  }

  /** A saved window is found where the skipped windows before it put it. */
  lemma {:induction false} WhereItIsSaved(windows: seq<Window>, quakeId: Option<WindowId>, n: nat)
    requires n < |windows| && IsSaved(windows[n])
    ensures var j, saved := n - SkippedBefore(windows, n), SavedWindows(windows, quakeId);
            j < |saved| && saved[j] == Saved(windows[n], quakeId)
  {
    var before := windows[..|windows| - 1];
    SkippedInPrefix(windows, |windows| - 1, n);
    if n == |windows| - 1 {
      SavedCount(before, quakeId);
    } else {
      WhereItIsSaved(before, quakeId, n);
    }
  }

  /** A saved window keeps its identity, and is saved as the quake window exactly when it is that. */
  lemma WhatIsSaved(windows: seq<Window>, quakeId: Option<WindowId>, n: nat)
    requires n < |windows| && IsSaved(windows[n])
    ensures var j, saved := n - SkippedBefore(windows, n), SavedWindows(windows, quakeId);
            j < |saved| && saved[j].id == windows[n].id && (saved[j].quakeMode <==> quakeId == Some(windows[n].id))
  {
    WhereItIsSaved(windows, quakeId, n);
  }

  lemma {:induction false} SavedComesFrom(windows: seq<Window>, quakeId: Option<WindowId>, j: nat)
    requires j < |SavedWindows(windows, quakeId)|
    ensures exists n: nat :: n < |windows| && IsSaved(windows[n])
                             && SavedWindows(windows, quakeId)[j] == Saved(windows[n], quakeId)
  {
    if windows != [] {
      var last := |windows| - 1;
      if j < |SavedWindows(windows[..last], quakeId)| {
        SavedComesFrom(windows[..last], quakeId, j);
        var n: nat :| n < last && IsSaved(windows[..last][n])
                      && SavedWindows(windows[..last], quakeId)[j] == Saved(windows[..last][n], quakeId);
        assert windows[..last][n] == windows[n];
      } else {
        assert IsSaved(windows[last]);
      }
    }
  }

  /** Saved are exactly the windows with a workspace that has tabs and is no drag preview. */
  lemma WhichWindowsAreSaved(windows: seq<Window>, quakeId: Option<WindowId>, id: WindowId)
    ensures (exists j :: 0 <= j < |SavedWindows(windows, quakeId)| && SavedWindows(windows, quakeId)[j].id == id) <==>
            (exists n :: 0 <= n < |windows| && windows[n].id == id && windows[n].workspace.Some?
                         && !windows[n].workspace.value.isTabDragPreview && windows[n].workspace.value.tabs > 0)
  {
    hide SavedWindows, SkippedBefore;
    var saved := SavedWindows(windows, quakeId);
    if j :| 0 <= j < |saved| && saved[j].id == id {
      SavedComesFrom(windows, quakeId, j);
    }
    if n :| 0 <= n < |windows| && windows[n].id == id && IsSaved(windows[n]) {
      WhatIsSaved(windows, quakeId, n);
    }
  }

  /** Saved and restored on Windows, the quake window never opens again; elsewhere it does. */
  lemma WhetherTheQuakeWindowReopens(windows: seq<Window>, n: nat, state: AppState, isWindows: bool)
    requires n < |windows| && IsSaved(windows[n])
    requires state.windows == SavedWindows(windows, Some(windows[n].id))
    ensures var j := n - SkippedBefore(windows, n);
            Restored(j) in Restoration(state, isWindows) <==> !isWindows
  {
    hide SavedWindows, SkippedBefore, Restoration;
    WhatIsSaved(windows, Some(windows[n].id), n);
    EachOpensOnce(state, isWindows);
  }

  /** A session of the quake window alone opens a new window, on Windows nothing else. */
  lemma QuakeWindowAlone(window: Window, state: AppState, isWindows: bool)
    requires IsSaved(window) && state.windows == SavedWindows([window], Some(window.id))
    ensures Restoration(state, isWindows) == if isWindows then [Fresh] else [Restored(0), Fresh]
  {
    assert [window][..0] == [];
    assert SavedWindows([], Some(window.id)) == [];
    assert state.windows == [Snapshot(window.id, true)];
    assert OpenedInOrder(state, isWindows, 0) == [];
  }

  lemma LastInOrder(state: AppState, isWindows: bool, n: nat, j: nat)
    requires n <= |state.windows| && ActiveLast(state) == []
    requires j < n && IsRestored(state.windows[j], isWindows)
    ensures var s := OpenedInOrder(state, isWindows, n);
            && s != []
            && (Last(s) == Restored(j) <==> forall k :: j < k < n ==> !IsRestored(state.windows[k], isWindows))
  {
    InOrderIncreases(state, isWindows, n);
    OpensInOrder(state, isWindows, n, j);
    hide OpenedInOrder;
    var s := OpenedInOrder(state, isWindows, n);
    assert forall o :: o in s ==> o.Restored? && o.index <= Last(s).index;
    forall k: nat
      ensures Restored(k) in s <==> k < n && IsRestored(state.windows[k], isWindows)
    {
      OpensInOrder(state, isWindows, n, k);
    }
    assert Last(s) in s;
  }

  /**
   When the active window was saved as a normal window, and the session is then restored, it opens
   last exactly when no window before it was skipped, or no window saved after it is restored.
   */
  lemma TheActiveWindowOpensLast(windows: seq<Window>, n: nat, quakeId: Option<WindowId>, state: AppState,
                                 isWindows: bool)
    requires n < |windows| && DistinctIds(windows)
    requires IsSaved(windows[n]) && quakeId != Some(windows[n].id)
    requires state.windows == SavedWindows(windows, quakeId)
    requires IsActiveIndex(windows, Some(windows[n].id), state.activeWindowIndex)
    ensures var j, s := n - SkippedBefore(windows, n), Restoration(state, isWindows);
            && j < |state.windows| && state.windows[j] == Snapshot(windows[n].id, false)
            && s != []
            && (Last(s) == Restored(j) <==>
                  || SkippedBefore(windows, n) == 0
                  || forall k :: j < k < |state.windows| ==> !IsRestored(state.windows[k], isWindows))
  {
    hide OpenedInOrder;
    var j := n - SkippedBefore(windows, n);
    assert state.activeWindowIndex == Some(n);
    WhereItIsSaved(windows, quakeId, n);
    SavedOrderIsKept(state, isWindows);
    if !IsActiveNormal(state, n) {
      LastInOrder(state, isWindows, |state.windows|, j);
      assert HasNormal(state.windows);
      assert Restoration(state, isWindows) == OpenedInOrder(state, isWindows, |state.windows|);
    }
  }

  /** A drag preview, then the active window, then another. */
  const PREVIEW_FIRST: seq<Window> :=
    [Window(0, Some(Workspace(true, 1))), Window(1, Some(Workspace(false, 1))), Window(2, Some(Workspace(false, 1)))]

  /** The saved index is then that of the other window, which opens last instead of the active one. */
  lemma AnotherWindowOpensLast(state: AppState, isWindows: bool)
    requires state.windows == SavedWindows(PREVIEW_FIRST, None)
    requires IsActiveIndex(PREVIEW_FIRST, Some(1), state.activeWindowIndex)
    ensures state.windows == [Snapshot(1, false), Snapshot(2, false)]
    ensures Restoration(state, isWindows) == [Restored(0), Restored(1)]
  {
    SavedPreviewFirst();
    assert state.activeWindowIndex == Some(1);
    assert IsActiveNormal(state, 1) && !state.windows[0].quakeMode;
    assert OpenedInOrder(state, isWindows, 1) == [Restored(0)];
  }

  lemma SavedPreviewFirst()
    ensures SavedWindows(PREVIEW_FIRST, None) == [Snapshot(1, false), Snapshot(2, false)]
  {
    var windows := PREVIEW_FIRST;
    assert windows[..2] == [windows[0], windows[1]] && windows[..2][..1] == [windows[0]];
    assert SavedWindows([], None) == [] && [windows[0]][..0] == [];
    assert SavedWindows([windows[0]], None) == [];
    assert SavedWindows(windows[..2], None) == [Snapshot(1, false)];
  }
}
