# Verified models of the desktop client's state machines

Dafny models of the parts of the client whose behaviour is a state machine or an algorithm, and proofs
of what those parts promise on every input and in every run. `dafny verify dfyconfig.toml` checks all
of it.

| file | models | main results |
|---|---|---|
| `Streams.dfy`, `Debounce.dfy`, `Throttle.dfy` | the two rate limiters, polled at any time over any inner stream | bursts end in exactly the outputs, spacing in time, what is lost when a stream ends |
| `CrashRecovery.dfy` | frame accounting of the crash recovery process | when the program exits or the child is killed, from the bare list of frames; at most 29 frames of a window leave it open |
| `MenuTree.dfy`, `MenuNavigation.dfy`, `MenuInvariants.dfy`, `Menu.dfy` | menus as trees of submenus, and the objects that hold them | up and down are minus and plus one on the positions, only the active menu changes, openings are bounded, and exactly when selections stay at positions and in range |
| `SafeTriangle.dfy` | suppression of hovers on the way to a side panel | the sign test is the convex hull, and when it is not; stretches of suppressed hovers |
| `Onboarding.dfy` | sign-in, SSO and onboarding of one window | one workspace, conservation of settings and tutorials, the SSO lock |
| `WindowRestore.dfy` | saving and restoring the windows of a session | every window once, in order, the active one last, and exactly when |
| `Prefix.dfy` | the longest common prefix over UTF-8 | the byte count is a character boundary and cuts the longest prefix |
| `Keystrokes.dfy`, `Keyboard.dfy` | keystrokes and keybindings as text | the round trips, and exactly which keybindings survive |
| `Wrappers.dfy` | options and results | |

Code that updates something in place is a method, a class or both; each is proved to do what a function
on values does (`View()` or `Model` is the value of an object), and the lemmas are about those functions
over all runs. What the code reads from outside is a parameter that may be anything: the clock and the
replies of the inner stream, the signed-in user and the flags at each event, the windows that exist.

## Where the code and its comments differ

The models follow the code.

- `handle_frame_drawn` is said to return whether the child was killed (app/src/crash_recovery.rs:124-125);
  it returns nothing. The message before exiting speaks of the last 10 frames
  (app/src/crash_recovery.rs:102) and shows all of them.
- An authentication that needs an SSO link is said to block every state (app/src/root_view.rs:2949-2950);
  onboarding and the login slide are not blocked (app/src/root_view.rs:3559-3562).
  `Onboarding.WhichWindowsAreLocked` says which windows are.
- `MenuItem::items_len` of a submenu counts its children besides its label (app/src/menu.rs:1392-1395), so
  a submenu row takes as many steps to leave.
- `MenuItem::selectable` takes it that all items of a row are selectable or none (app/src/menu.rs:1411-1413), and
  one is enough in the code; a move may then be on a disabled item (`MenuInvariants.DisabledItemIsSelected`).
  Enter does not ask whether an item is disabled (`MenuInvariants.DisabledItemActs`).

## Model

| member | source | states |
|---|---|---|
| Streams.DrainFollowsTheScript | app/src/debounce.rs:103-115 | reading out a stream takes every reply up to the first that is pending or the end, and says whether it was the end |
| Streams.DrainReadsTheArrivals | app/src/debounce.rs:103-115 | what reading out finds is every item among those replies, in order |
| Streams.DrainTakesItsTime | app/src/debounce.rs:103-107 | reading out takes as long as the replies that it takes, and reads every item when it arrives |
| Debounces.Debounce.constructor | app/src/debounce.rs:73-84 | a debouncer starts with no timer, no item and not expired |
| Debounces.Debounce.ReadOut | app/src/debounce.rs:103-115 | the loop over the inner stream leaves the last item held and the timer set from its reading, or both as they were |
| Debounces.Debounce.PollNext | app/src/debounce.rs:92-127 | one poll has the answer, the clock and the new state of `Turn` |
| Debounces.BurstsOfEveryRun | app/src/debounce.rs:92-127 | in every run the items read are consecutive non-empty bursts whose last items are exactly the outputs, plus the open burst that ends in the held item; item and timer are there together |
| Debounces.TimesOfEveryRun | app/src/debounce.rs:103-124 | every output driven by a timer left `period` or more after it was read, with nothing read in between; a running timer is that of the latest read |
| Debounces.EveryRunIsOrdered | app/src/debounce.rs:92-127 | reads and outputs of a run are in order of time |
| Debounces.TimerOutputsAreApart | app/src/debounce.rs:117-124 | an output driven by a timer is `period` or more after any output before it |
| Debounces.RunsFollowTheScript | app/src/debounce.rs:95-115 | the items read are those of the replies polled for, none skipped; the limiter has expired exactly when it was told the end, and gives out the end only then |
| Debounces.TheLastItemIsNotLost | app/src/debounce.rs:109-113 | once the inner stream has ended, its last item is the last output |
| Debounces.NothingAfterTheEnd | app/src/debounce.rs:96-98 | after the end, no poll reaches the inner stream or gives anything out |
| Debounces.NothingOverdueIsHeld | app/src/debounce.rs:103-124 | no poll leaves an item that is due, nor a stream that still had something ready |
| Debounces.AnswersAreLogged | app/src/debounce.rs:112-126 | the answer of a poll is what it gave out |
| Debounces.AnswersOfEveryRun | app/src/debounce.rs:92-127 | what every poll of every run is answered: the end, for ever, once the end was polled for; the last item of the open burst, or the end when there is none, in the poll that finds the end; else that item exactly when `period` has gone by since the latest read; how far it reads, and how long it takes |
| Throttles.Throttle.constructor | app/src/throttle.rs:14-20 | a throttler starts without a timer |
| Throttles.Throttle.PollNext | app/src/throttle.rs:25-53 | one poll has the answer, the clock and the new state of `Turn` |
| Throttles.ItemsAreApart | app/src/throttle.rs:26-51 | in every run any two items given out are `period` or more apart, and the timer says when the next may come; polls after an end included |
| Throttles.WindowsAreBounded | app/src/throttle.rs:26-51 | a half-open window of n periods sees n items or fewer |
| Throttles.BurstsOfEveryRun | app/src/throttle.rs:29-51 | the items read are bursts that end in exactly the outputs, and batches dropped at an end, each read in that very poll after its timer expired |
| Throttles.OnlyATailIsDropped | app/src/throttle.rs:31-36 | for a caller that stops at the first end, what is dropped is a tail of what was read, read in the last poll |
| Throttles.WhenItemsAreDropped | app/src/throttle.rs:26-37 | a poll reads something and gives no item out exactly when its timer has expired and it finds items and then the end |
| Throttles.WhenTheStreamIsPolled | app/src/throttle.rs:26-51 | a poll reaches the inner stream exactly when no timer is running |
| Throttles.RunsFollowTheScript | app/src/throttle.rs:29-48 | the items read are those of the replies polled for, none skipped |
| Throttles.AnswersAreLogged | app/src/throttle.rs:40-51 | the answer of a poll is what it gave out |
| Throttles.TimerIsTheSilence | app/src/throttle.rs:40-50 | in every run the timer is `period` after the latest item or end given out, as long as no poll found it expired; an end that followed an expired timer starts none |
| Throttles.AnswersOfEveryRun | app/src/throttle.rs:25-53 | what every poll of every run is answered: pending in a silence; at its end the end, or the last item that is there, or pending; outside any silence the next reply; how far it reads, and how long it takes |
| Throttles.NothingWaitsOverAPeriod | app/src/throttle.rs:25-53 | a poll `period` or more after the latest output reaches the inner stream, and gives out the last item that it finds before any end |
| Throttles.EveryRunIsOrdered | app/src/throttle.rs:25-53 | reads and outputs of a run are in order of time |
| Throttles.ThrottleDropsWhatDebounceKeeps | app/src/throttle.rs:31-36 | a stream of two items on which the throttler reads and drops the last one, and the debouncer gives it out |
| CrashRecovery.CrashRecoveryProcess.Kill | app/src/crash_recovery.rs:72-83 | a child is killed once and the running flag is then off |
| CrashRecovery.CrashRecoveryProcess.HandleDrawFrameError | app/src/crash_recovery.rs:85-117 | a failed frame joins the history, counts up, and exits at three |
| CrashRecovery.CrashRecoveryProcess.HandleFrameDrawn | app/src/crash_recovery.rs:126-158 | a drawn frame joins the history, resets the errors, counts up, and kills at ten |
| CrashRecovery.CrashRecovery.OnDrawFrameError | app/src/crash_recovery.rs:242-246 | a failed frame matters only while a child is held |
| CrashRecovery.CrashRecovery.OnFrameDrawn | app/src/crash_recovery.rs:248-271 | a drawn frame keeps a living child held, and emits the torn-down event when it was killed |
| CrashRecovery.CrashRecovery.TearDown | app/src/crash_recovery.rs:273-277 | tearing down kills and lets go of the child, without the event |
| CrashRecovery.CountsOfEveryRun | app/src/crash_recovery.rs:85-158 | under any interleaving of windows, while nothing has decided, the child is held, each error counter is the trailing run of errors of its window, each success counter its successes, each history its frames |
| CrashRecovery.OutcomeOfEveryRun | app/src/crash_recovery.rs:100-157 | the first event at which some window's last three frames failed, some window has ten successes, or the child is torn down decides exit, kill and the torn-down event, and nothing changes afterwards |
| CrashRecovery.EveryRunIsDecidedOnce | app/src/crash_recovery.rs:242-277 | every run is live or has a first deciding event; the running flag is on exactly while a child is held; the torn-down event comes at most once |
| CrashRecovery.NothingHappensWithoutAChild | app/src/crash_recovery.rs:242-277 | after a kill or a teardown no event exits or emits |
| CrashRecovery.AtMostTwentyNineFrames | app/src/crash_recovery.rs:87-157 | while the child is held no history has more than 29 entries, so 30 frames of one window decide |
| CrashRecovery.TwentyNineFramesMayNotDecide | app/src/crash_recovery.rs:87-157 | 29 frames of one window can leave everything open |
| MenuTrees.FirstSelectable | app/src/menu.rs:1888-1895 | the first selectable row, or none when no row is |
| MenuTrees.NewTreesCountTheirDepth | app/src/menu.rs:1670-1691 | in menus made by `SubMenu::new` all the way down, the depth of a menu is its nesting level |
| MenuTrees.NewTreesKeepTheirRows | app/src/menu.rs:1670-1691 | a new menu has its rows but for their depths, and nothing selected or hovered |
| MenuNavigation.WidthsOfRows | app/src/menu.rs:1387-1424 | how many items of each kind of row can be reached, and which rows can be selected, from their fields |
| MenuNavigation.RowAfterIsNext | app/src/menu.rs:1797-1813 | from any row the cyclic search down finds the next selectable row, or the first of all when none is below, and the row itself when none can be selected |
| MenuNavigation.RowAfterFromOutOfRange | app/src/menu.rs:1797-1813 | from out of range it goes on from where the rows repeated for ever would have the next |
| MenuNavigation.RowBeforeIsPrevious | app/src/menu.rs:1764-1781 | from any row the cyclic search up finds the previous selectable row, or the last of all when none is above, and the row itself when none can be selected |
| MenuNavigation.RowBeforeFromOutOfRange | app/src/menu.rs:1764-1781 | from out of range it finds the last selectable row |
| MenuNavigation.RanksAreDistinct | app/src/menu.rs:1387-1398 | positions of selectable rows, numbered in order, have different numbers below the total |
| MenuNavigation.NextIsPlusOne | app/src/menu.rs:1789-1816 | from any position, down goes to the position with the next number, cyclically |
| MenuNavigation.PreviousIsMinusOne | app/src/menu.rs:1758-1788 | from any position, up goes to the position with the number before, cyclically |
| MenuNavigation.MovesAreInverse | app/src/menu.rs:1754-1823 | up undoes down and down undoes up |
| MenuNavigation.DownVisitsEverything | app/src/menu.rs:1789-1816 | going down again and again reaches every position exactly once and then comes back |
| MenuNavigation.FirstMoveIsBlind | app/src/menu.rs:1817 | with nothing selected a move goes to the first item of the first row, which is a position exactly when that row exists and is selectable |
| MenuNavigation.WhenMovesAreInRange | app/src/menu.rs:1758-1816 | a move indexes out of range exactly from a row out of range, up with no item before the selected one and no selectable row, down with an item selected |
| MenuInvariants.SelectActiveKeepsWell | app/src/menu.rs:1869-1885 | up and down in the active menu keep every selection in the tree at a position |
| MenuInvariants.OpenKeepsWell | app/src/menu.rs:1900-1905 | opening keeps every selection in the tree at a position |
| MenuInvariants.KeysKeepWell | app/src/menu.rs:2520-2545 | from a menu with a selection, any sequence of up, down, right and enter keeps every selection at a position, and indexes nothing out of range |
| MenuInvariants.WhenKeysKeepWell | app/src/menu.rs:1754-1823 | from any menu, one without a selection too, every selection stays at a position exactly when the menu has a selection, or no move is made, or its first row can be selected |
| MenuInvariants.SeparatorIsSelected | app/src/menu.rs:1817 | a new menu that starts with a separator: down selects it |
| MenuInvariants.SecondMoveLands | app/src/menu.rs:1754-1823 | in a menu without a selection but with a row to select, the second move and all after it are at positions exactly when the first row can be selected, or is not a row of several items, or that move is up |
| MenuInvariants.DisabledItemIsSelected | app/src/menu.rs:1789-1796 | a row of two disabled items first: down twice is on a disabled item |
| MenuInvariants.KeysKeepRange | app/src/menu.rs:2520-2545 | in a menu with rows no key indexes out of range, and every selection stays at a row |
| MenuInvariants.WhenKeysStayInRange | app/src/menu.rs:1754-1823 | from any selections at rows, no key indexes out of range exactly when the menu has rows or no two moves are made |
| MenuInvariants.SecondMoveIsOutOfRange | app/src/menu.rs:1789-1793 | a new menu without rows: the second down indexes out of range |
| MenuInvariants.OnlyTheActiveMenuMoves | app/src/menu.rs:1869-1885 | up and down do to the deepest active menu what they do to one menu, and change nothing of any other menu |
| MenuInvariants.OnlyTheOpenedMenuChanges | app/src/menu.rs:1887-1905 | opening succeeds exactly on a submenu with a selectable row, selects its first one, and changes nothing of any other menu |
| MenuInvariants.OpeningExtendsThePath | app/src/menu.rs:1900-1905 | an opening that succeeds makes the path to the active menu longer; one that fails changes nothing |
| MenuInvariants.PathsAreWithinTheHeight | app/src/menu.rs:1869-1885 | no path is longer than the tree is high |
| MenuInvariants.OpeningsAreBounded | app/src/menu.rs:1900-1905 | successive openings are bounded by the height of the tree |
| MenuInvariants.EnterOpensOrActs | app/src/menu.rs:1907-1931 | enter opens the submenu selected in the active menu, and on any other row changes nothing and gives the action of its selected item |
| MenuInvariants.WhichActionEnterGives | app/src/menu.rs:1907-1931 | enter gives an action exactly when the selected item, clickable header or item of a row of the active menu has it, disabled or not |
| MenuInvariants.EnterActsOnSelectable | app/src/menu.rs:1907-1931 | while selections are at positions it acts only on rows that can be selected |
| MenuInvariants.DisabledItemActs | app/src/menu.rs:1907-1912 | after a blind first move it acts on a disabled item |
| Menus.SubMenu.constructor | app/src/menu.rs:1670-1682 | a new menu has nothing selected and its submenus one level deeper |
| Menus.IncrementDepth | app/src/menu.rs:1684-1691 | every submenu below gets one deeper, and nothing else changes |
| Menus.SubMenu.FindCycled | app/src/menu.rs:1771-1781 | the search over the items repeated for ever, forwards or backwards |
| Menus.SubMenu.Move | app/src/menu.rs:1755-1818 | where each action moves the selection |
| Menus.SubMenu.SelectInternal | app/src/menu.rs:1754-1823 | the selection and the hovered row become what `Select` says, and no other menu changes |
| Menus.SubMenu.SelectActive | app/src/menu.rs:1869-1885 | an action selects in the deepest active menu, in place, and the whole tree becomes what the function on trees says |
| Menus.SubMenu.SelectFirstSelectable | app/src/menu.rs:1887-1898 | the first selectable item is selected, if there is one |
| Menus.SubMenu.OpenSelectedSubmenu | app/src/menu.rs:1900-1905 | the submenu selected in the active menu is opened in place |
| Menus.SubMenu.SelectedActionForEnter | app/src/menu.rs:1907-1931 | the action for enter, and the submenu it opens instead |
| Menus.SubMenu.ResetSelection | app/src/menu.rs:1703-1708 | nothing is selected, and what is hovered stays |
| Menus.SubMenu.HandleAction | app/src/menu.rs:2487-2546 | what each action makes of the menu, and the events it emits |
| Menus.Menu.HandleAction | app/src/menu.rs:2560-2572 | a leaf hover that the safe triangle suppresses stops there; any other moves its apex and goes on |
| Menus.KeysAreActions | app/src/menu.rs:1640-1657 | the keys reach the menu past the safe triangle and do to it what pressing keys in a tree does; they are handled exactly when they index nothing out of range |
| Menus.IndexIsSelected | app/src/menu.rs:2520 | an index that is given is selected in the active menu, and no other menu changes |
| Menus.OtherActionsPass | app/src/menu.rs:2560-2572 | only leaf hovers concern the safe triangle |
| Menus.WhoLosesTheSelection | app/src/menu.rs:2501-2529 | a menu loses its selection exactly when a submenu of its depth is closed or the pointer leaves the parent of one, and keeps everything else |
| Menus.WhatThePointerDoes | app/src/menu.rs:2494-2510 | the pointer selects in the menu of its depth, and does nothing at others |
| Menus.WhichEventsAreEmitted | app/src/menu.rs:2487-2546 | which actions dispatch an item, close the menu, and report a hover or a selection |
| Menus.WhichHoversAreSeen | app/src/menu.rs:2511-2572 | after any run of leaf hovers the hovered row is that of the last one of the menu's depth that the safe triangle let through, nothing else of the menu has changed, and there was one event for each such hover |
| Menus.SuppressedHoversChangeNothing | app/src/menu.rs:2560-2572 | through a stretch of suppressed hovers, hovered row, selection and apex stay and nothing is emitted |
| SafeTriangles.SafeTriangle.SetTargetRect | app/src/safe_triangle.rs:37-43 | a target replaces the old one; no target clears everything |
| SafeTriangles.SafeTriangle.ShouldSuppressHover | app/src/safe_triangle.rs:51-92 | it answers the suppression it then remembers, and moves nothing else |
| SafeTriangles.SafeTriangle.UpdatePosition | app/src/safe_triangle.rs:94-96 | the apex becomes the position |
| SafeTriangles.SignTestIsTheHull | app/src/safe_triangle.rs:100-114 | for a triangle with an inside, the test by signs holds exactly for the convex combinations of its vertices |
| SafeTriangles.SafeTriangleIsAWedge | app/src/safe_triangle.rs:86-89 | with t the fraction travelled to the near edge, the triangle is 0 <= t <= 1 and a height of at most 80 t from the apex |
| SafeTriangles.FlatTriangleIsALine | app/src/safe_triangle.rs:86-89 | level with the near edge, the test accepts a whole vertical line |
| SafeTriangles.SignTestIsTheHullUnlessFlat | app/src/safe_triangle.rs:77-89 | the test is the convex hull of its triangle exactly when the apex is not level with the near edge |
| SafeTriangles.NearXIsNearer | app/src/safe_triangle.rs:76-81 | the edge used is the nearer of the two, and the right one from halfway |
| SafeTriangles.WhichMovesAreSuppressed | app/src/safe_triangle.rs:51-91 | exactly which hovers are suppressed: with an apex outside the target, those less than 2 points from it when the answer before was to suppress, and of the others those in the wedge of 80 points each way, or on the vertical line of a flat one |
| SafeTriangles.SuppressedStretch | app/src/safe_triangle.rs:51-96 | through suppressed hovers the apex stays, and every position is within 2 points of it or in the convex hull of its one triangle; from level with the near edge, on the vertical line instead |
| SafeTriangles.SuppressedOutsideTheTriangle | app/src/safe_triangle.rs:76-91 | from there a hover 900 points from the apex and outside the triangle is suppressed |
| SafeTriangles.ApexIsTheLastToPass | app/src/menu.rs:2560-2568 | after any hovers the apex is the last one that was not suppressed, and the answer remembered that of the last |
| Onboarding.RootView.constructor | app/src/root_view.rs:1676-1712 | the state that a window starts in |
| Onboarding.RootView.CompleteAuthAndCreateWorkspace | app/src/root_view.rs:3449-3482 | onboarding opens for users who need it, else the terminal, with a new workspace only where none is held |
| Onboarding.RootView.HandleAuthComplete | app/src/root_view.rs:2939-2992 | what a sign-in does in each state |
| Onboarding.RootView.HandleSkippedLogin | app/src/root_view.rs:3022-3044 | what skipping the sign-in does in each state |
| Onboarding.RootView.HandleLoginSlideEvent | app/src/root_view.rs:2091-2132 | going back discards what waits; going on without signing in applies it |
| Onboarding.RootView.HandleOnboardingCompleted | app/src/root_view.rs:2157-2264 | accepted settings wait for a sign-in that they need, and are applied at once otherwise |
| Onboarding.RootView.StartTutorial | app/src/root_view.rs:3245-3252 | a waiting tutorial is taken and reaches a terminal, if there is one |
| Onboarding.RootView.HandleInitialLoadCompleted | app/src/root_view.rs:3229-3241 | waiting settings are applied once |
| Onboarding.RootView.DoLogOut | app/src/root_view.rs:3571-3620 | what logging out does in each state |
| Onboarding.WhereWindowsStart | app/src/root_view.rs:1676-1712 | in which state a window starts, and that nothing waits in it |
| Onboarding.FromSignIn | app/src/root_view.rs:2935-3060 | from the states before a sign-in: signing in or skipping it leads to onboarding exactly for a user known not to have been onboarded, and else to a terminal with a new workspace, unless an SSO link is missing; where everything else leads |
| Onboarding.FromSsoLink | app/src/root_view.rs:2970-2977 | from a missing SSO link only a sign-in with the link leads on, and only a log-out back |
| Onboarding.FromOnboarding | app/src/root_view.rs:2157-2290 | from onboarding: when completing it leads to the login slide and when to the terminal of its target |
| Onboarding.FromLoginSlide | app/src/root_view.rs:2091-2132 | from the login slide: back to onboarding, or on to the terminal of its target |
| Onboarding.FromTerminal | app/src/root_view.rs:3571-3620 | from the terminal: what locks it, closes it, and opens onboarding over it |
| Onboarding.StepAndTheWorkspace | app/src/root_view.rs:3448-3630 | an event keeps the workspace held, creates one only where none is held, and drops one only by logging out of the terminal |
| Onboarding.OneWorkspaceInEveryRun | app/src/root_view.rs:3448-3630 | in every run all workspaces created have been dropped, in order, but the one held |
| Onboarding.WindowsStartWithOneWorkspace | app/src/root_view.rs:1676-1712 | so it is when a window opens |
| Onboarding.TheWorkspaceComesBack | app/src/root_view.rs:3484-3569 | through SSO and onboarding and back, the terminal is that of the same workspace, until a log-out from the terminal |
| Onboarding.StepAndTheSettings | app/src/root_view.rs:2091-2264 | exactly which events apply, discard or replace the settings that wait, and when new ones wait for a sign-in |
| Onboarding.SettingsAreConserved | app/src/root_view.rs:2091-2264 | in every run every accepted settings is applied at most once and is exactly one of applied, discarded, replaced or waiting |
| Onboarding.TutorialsAreConserved | app/src/root_view.rs:3245-3252 | in every run every tutorial is exactly one of delivered, withdrawn, thrown away or waiting |
| Onboarding.StepAndTheTutorial | app/src/root_view.rs:3245-3252 | exactly which events deliver, withdraw, replace or throw away the tutorial that waits |
| Onboarding.StepAndTheWaitingTutorial | app/src/root_view.rs:2949-2988 | while a tutorial waits only in the login slide and none was thrown away, an event keeps it so exactly unless it is a sign-in in that slide that finds an SSO link missing with the experiment on |
| Onboarding.WhenTutorialsWait | app/src/root_view.rs:2949-2988 | throughout a run tutorials wait only in the login slide and none is thrown away, exactly when no step is such a sign-in while one waits |
| Onboarding.TutorialWaitsWithoutTheExperiment | app/src/root_view.rs:2984-2988 | so it is in every run without the extra completion |
| Onboarding.TutorialLeavesTheSlide | app/src/root_view.rs:2949-2988 | with it, a run that ends in the terminal, without the SSO link that the account needs, while the tutorial still waits |
| Onboarding.OnlyUnlockingUnlocks | app/src/root_view.rs:2970-2977 | a window that needs an SSO link stays so on exactly the events other than a sign-in with SSO status false and a log-out without a workspace |
| Onboarding.LockedUntilUnlocked | app/src/root_view.rs:2935-3060 | no run changes its state before such an event |
| Onboarding.WhichWindowsAreLocked | app/src/root_view.rs:3544-3569 | a sign-in that finds an SSO link missing locks exactly the windows outside onboarding and the login slide |
| WindowRestore.GetAppState | app/src/app_state.rs:341-384 | the snapshots of the windows that are saved, in order, and the index of the active one among all |
| WindowRestore.OpenFromRestored | app/src/root_view.rs:692-833 | the windows that open, in order |
| WindowRestore.EachOpensOnce | app/src/root_view.rs:696-832 | each saved window that may be restored opens exactly once, no other does, and a new one opens exactly when there is no normal one |
| WindowRestore.SomethingVisibleOpens | app/src/root_view.rs:784-801 | a normal window always opens |
| WindowRestore.SavedOrderIsKept | app/src/root_view.rs:696-832 | windows open in saved order but for the active normal one, which is last |
| WindowRestore.WhereItIsSaved | app/src/app_state.rs:349-376 | a saved window is found as many places earlier as windows before it were skipped |
| WindowRestore.WhatIsSaved | app/src/app_state.rs:366-370 | a saved window keeps its identity, and is saved as the quake window exactly when it is that |
| WindowRestore.WhichWindowsAreSaved | app/src/app_state.rs:357-375 | saved are exactly the windows with a workspace that has tabs and is no drag preview |
| WindowRestore.WhetherTheQuakeWindowReopens | app/src/root_view.rs:696-705 | saved and restored, the quake window opens again exactly when not on Windows |
| WindowRestore.QuakeWindowAlone | app/src/root_view.rs:782-801 | a session of it alone opens a new window |
| WindowRestore.TheActiveWindowOpensLast | app/src/app_state.rs:349-355 | saved and restored, the active normal window opens last exactly when none before it was skipped or none saved after it is restored |
| WindowRestore.AnotherWindowOpensLast | app/src/app_state.rs:349-355 | with a drag preview before the active window and another window after it, the other one opens last |
| Prefixes.LongestCommonPrefix | app/src/prefix.rs:5-27 | the answer is the longest common prefix, and none when that is empty or there are no strings; the slice never falls within a character |
| Prefixes.Slice | app/src/prefix.rs:25 | a slice at a boundary is a prefix with that many bytes |
| Prefixes.SharedBytesAreTheShared | app/src/prefix.rs:13-18 | the sum of lengths is the number of bytes of the shared leading characters |
| Prefixes.BoundariesAreTheCuts | app/src/prefix.rs:25 | the character boundaries of a string are the cuts between its characters |
| Prefixes.OrderDoesNotMatter | app/src/prefix.rs:5-27 | the same strings in any order have the same answer |
| Prefixes.DecodesBack | app/src/prefix.rs:17 | the encoding of a character decodes to it |
| Prefixes.EncodingIsWellFormed | app/src/prefix.rs:17 | every character is encoded in the syntax of section 4 of RFC 3629, so in its shortest form |
| Prefixes.EncodingIsAPrefixCode | app/src/prefix.rs:17 | no character's bytes begin another's |
| Prefixes.BytePrefixIsPrefix | app/src/prefix.rs:11-20 | a string whose bytes begin another's is its prefix |
| Prefixes.LongestPrefixIsTheBytesCutBack | app/src/prefix.rs:11-25 | the answer is the longest common byte prefix cut back to a character boundary |
| Keystrokes.ParsesBack | crates/warpui_core/src/keymap.rs:897-993 | parsing a printed keystroke gives it back exactly when parsing can give it at all |
| Keystrokes.KeyComesFromTheSource | crates/warpui_core/src/keymap.rs:906-937 | a parsed key is the space bar, the dash, or made of characters of the source |
| Keystrokes.PrintsBack | crates/warpui_core/src/keymap.rs:897-993 | a source parses and is printed as it is written exactly when its parts are modifiers in print order, none twice and none by another name, and then the name of a key or the dash |
| Keystrokes.WhatParses | crates/warpui_core/src/keymap.rs:897-967 | what any source parses to: modifiers in any order and however often, then the key, the dash or the space bar; and when it does not |
| Keystrokes.CmdOrCtrl | crates/warpui_core/src/keymap.rs:914-920 | `cmdorctrl` is `cmd` on a Mac and `ctrl` elsewhere |
| Keystrokes.ValidKeys | crates/warpui_core/src/keymap.rs:794-863 | the valid keys are single characters and the names listed |
| Keyboard.DecodeTrigger | app/src/keyboard.rs:191-212 | the loop over the tokens gives the keystrokes, or the first token that does not parse |
| Keyboard.ParsesEveryToken | app/src/keyboard.rs:196-204 | decoding accepts exactly when every token parses, and otherwise names the first that does not |
| Keyboard.SplitOfJoin | app/src/keyboard.rs:180-198 | splitting joined tokens gives them back |
| Keyboard.SplitAtWhiteSpace | app/src/keyboard.rs:198 | any white space separates tokens, however often it comes, and does nothing else |
| Keyboard.WhatIsOneToken | app/src/keyboard.rs:198 | what has no white space in it is one token |
| Keyboard.JoinPutsSpacesBetween | app/src/keyboard.rs:180 | joining puts one space between tokens, and nothing else |
| Keyboard.WhatIsWritten | app/src/keyboard.rs:176-188 | what is written for a removed keybinding, one keystroke, and more |
| Keyboard.WhatDecodes | app/src/keyboard.rs:191-212 | what any trigger decodes to: removed exactly from the sentinel, an error that names the first bad token or says that there is none, else one keystroke for each token |
| Keyboard.DecodeOfEncode | app/src/keyboard.rs:176-212 | decoding an encoded keybinding gives it back, except exactly a single keystroke that prints as the sentinel |
| Keyboard.EncodeOfDecode | app/src/keyboard.rs:176-212 | encoding what a trigger decodes to gives its whitespace-normal form exactly when the trigger is the sentinel or each of its tokens is printed as it is written |
| Keyboard.EncodingIsIdempotent | app/src/keyboard.rs:176-212 | encoding what an encoded trigger decodes to changes nothing |
| Keyboard.WritableKeystrokesPrint | crates/warpui_core/src/keymap.rs:970-993 | keystrokes that parsing can give, with no white space but the space bar, print to tokens that parse back, and never to the sentinel |
| Keyboard.KeybindingsSurvive | app/src/keyboard.rs:176-212 | so the keybindings that survive being written and read are exactly those of such keystrokes |
| Keyboard.ReadKeybindingsSurvive | app/src/keyboard.rs:176-212 | a keybinding read from any trigger survives being written and read again, so a second round changes nothing |
| Keyboard.TriggersAreWrittenBack | app/src/keyboard.rs:176-212 | a trigger that decodes is written back in whitespace-normal form exactly when it is the sentinel or every token has its modifiers in print order, none twice and none by another name, before the name of a key |
| Keyboard.ModifiersAreReordered | app/src/keyboard.rs:176-212 | a trigger that is not: `shift-ctrl-A` is written back as `ctrl-shift-A` |

## Left out

- Debounces.Debounce.ReadOut: the loop of `poll_next` is a method of its own, and `PollNext` calls it; wakers, pinning and projections are not modelled.
- Throttles.ItemsAreApart: nothing is claimed about polls after the end beyond this spacing, since the throttler is not fused.
- CrashRecovery.CrashRecoveryProcess.Kill: killing and waiting for the child is a change of state; spawning it, choosing a recovery mechanism and handling a parent's crash are not modelled.
- Menus.SubMenu.SelectActive: `active_menu_mut` followed by `select` is one recursive method, so that every menu on the way takes over the change below it; so it is with opening and enter.
- Menus.SubMenu.SelectInternal: an index that is given is not checked, as in the code; where the other moves would index out of range, the code panics, and the model has no result.
- MenuTrees.NewTreesCountTheirDepth: does not hold of menus filled with `Menu::set_items`, which does not call `increment_depth`.
- SafeTriangles.SignTestIsTheHull: coordinates are reals, so rounding is not modelled; the target is a closed box.
- Onboarding.RootView.StartTutorial: a tutorial is delivered when it is taken in a terminal; which of several ways it starts there is not modelled, nor that it starts nothing when AI is off or for a terminal user (app/src/root_view.rs:3254-3276).
- Onboarding.SettingsAreConserved: what settings say beyond whether they need an account is not modelled.
- Onboarding.StepAndTheWorkspace: the states and events of the web build are not modelled, nor focus, polling for updates and the server's onboarding flag, which these states do not read when the local one is set.
- WindowRestore.OpenFromRestored: window bounds, blur, and the hidden state of the quake window are not modelled.
- Keystrokes.ParsesBack: the debug build panics on letters in the wrong case; this is the release build.
- Keyboard.DecodeTrigger: the keybindings file and its format are not modelled.
- Selection by name, by action and by index of a menu, and the other setters of `Menu`: they only add ways to call what is modelled.
- Rendering, layout, themes, accessibility texts and telemetry.
- Input suggestions, registers, network status and the other small models of the client's state: easier versions of the above.
- Font fallback, which is a table, and start-up wiring and configuration, which are input and output.
