/**
 Frame accounting of the crash recovery process (app/src/crash_recovery.rs).

 While a child process is held, every frame of every window is counted. Three failed frames in a row
 in one window exit the program; ten drawn frames in one window kill the child. `Step` is what one
 event does; the classes do it in place. The reference that the lemmas compare a run with is the bare
 list of events: the frames of each window, in order.
 */
module CrashRecovery {
  import opened Wrappers

  type WindowId = nat

  datatype Frame = Successful | Errored

  datatype Event = DrawError(window: WindowId) | FrameDrawn(window: WindowId) | Teardown

  const NUM_DRAW_ERRORS_BEFORE_EXITING: nat := 3
  const NUM_SUCCESSFUL_DRAW_FRAMES_PER_WINDOW: nat := 10

  /** The counters of a child process that is alive. */
  datatype Child = Child(errors: map<WindowId, nat>, successes: map<WindowId, nat>,
                         renders: map<WindowId, seq<Frame>>)

  /** The child held, the process-wide running flag, whether the program has exited, and how many
      torn-down events it has emitted. */
  datatype World = World(child: Option<Child>, running: bool, exited: bool, tornDown: nat)

  function GetOr<K, V>(m: map<K, V>, key: K, default: V): V {
    if key in m then m[key] else default
  }

  function Rendered(c: Child, window: WindowId, frame: Frame): Child {
    c.(renders := c.renders[window := GetOr(c.renders, window, []) + [frame]])
  }

  function Failed(c: Child, window: WindowId): Child {
    Rendered(c, window, Errored).(errors := c.errors[window := GetOr(c.errors, window, 0) + 1])
  }

  function Drawn(c: Child, window: WindowId): Child {
    Rendered(c, window, Successful).(errors := c.errors[window := 0],
                                     successes := c.successes[window := GetOr(c.successes, window, 0) + 1])
  }

  function Step(w: World, e: Event): World {
    if w.exited || w.child.None? then w
    else match e
    case DrawError(window) =>
      var c := Failed(w.child.value, window);
      w.(child := Some(c), exited := c.errors[window] >= NUM_DRAW_ERRORS_BEFORE_EXITING)
    case FrameDrawn(window) =>
      var c := Drawn(w.child.value, window);
      if c.successes[window] >= NUM_SUCCESSFUL_DRAW_FRAMES_PER_WINDOW then
        w.(child := None, running := false, tornDown := w.tornDown + 1)
      else
        w.(child := Some(c))
    case Teardown =>
      w.(child := None, running := false)
  }

  // The classes.

  /** What belongs to the process and not to one object. */
  class Process {
    var recoveryRunning: bool
    var exited: bool
    var tornDownEvents: nat

    constructor (recoveryRunning: bool)
      ensures this.recoveryRunning == recoveryRunning && !exited && tornDownEvents == 0
    {
      this.recoveryRunning := recoveryRunning;
      exited, tornDownEvents := false, 0;
    }
  }

  class CrashRecoveryProcess {
    const process: Process
    var consecutiveErrors: map<WindowId, nat>
    var successfulFrames: map<WindowId, nat>
    var renders: map<WindowId, seq<Frame>>
    var isAlive: bool

    ghost function View(): Child
      reads this
    {
      Child(consecutiveErrors, successfulFrames, renders)
    }

    constructor (process: Process)
      ensures this.process == process && isAlive && View() == Child(map[], map[], map[])
    {
      this.process := process;
      consecutiveErrors, successfulFrames, renders, isAlive := map[], map[], map[], true;
    }

    method Kill()
      modifies this`isAlive, process`recoveryRunning
      ensures !isAlive
      ensures process.recoveryRunning == (old(process.recoveryRunning) && !old(isAlive))
    {
      if !isAlive {
        return;
      }
      process.recoveryRunning := false;
      isAlive := false;
    }

    method HandleDrawFrameError(window: WindowId)
      requires !process.exited
      modifies this`renders, this`consecutiveErrors, process`exited
      ensures View() == Failed(old(View()), window)
      ensures process.exited <==> View().errors[window] >= NUM_DRAW_ERRORS_BEFORE_EXITING
    {
      renders := renders[window := GetOr(renders, window, []) + [Errored]];
      var numErrors := GetOr(consecutiveErrors, window, 0) + 1;
      consecutiveErrors := consecutiveErrors[window := numErrors];
      if numErrors >= NUM_DRAW_ERRORS_BEFORE_EXITING {
        process.exited := true;
      }
    }

    method HandleFrameDrawn(window: WindowId)
      requires isAlive
      modifies this, process`recoveryRunning
      ensures View() == Drawn(old(View()), window)
      ensures isAlive <==> View().successes[window] < NUM_SUCCESSFUL_DRAW_FRAMES_PER_WINDOW
      ensures process.recoveryRunning == (old(process.recoveryRunning) && isAlive)
    {
      consecutiveErrors := consecutiveErrors[window := 0];
      renders := renders[window := GetOr(renders, window, []) + [Successful]];
      var numSuccessfulDraws := GetOr(successfulFrames, window, 0) + 1;
      successfulFrames := successfulFrames[window := numSuccessfulDraws];
      if numSuccessfulDraws >= NUM_SUCCESSFUL_DRAW_FRAMES_PER_WINDOW {
        Kill();
      }
    }
  }

  class CrashRecovery {
    const process: Process
    var childProcess: CrashRecoveryProcess?

    ghost predicate Valid()
      reads this, childProcess
    {
      childProcess != null ==> childProcess.process == process && childProcess.isAlive
    }

    ghost function View(): World
      reads this, childProcess, process
    {
      World(if childProcess == null then None else Some(childProcess.View()),
            process.recoveryRunning, process.exited, process.tornDownEvents)
    }

    constructor (process: Process, spawned: bool)
      requires process.recoveryRunning == spawned
      ensures this.process == process && Valid() && (childProcess != null ==> fresh(childProcess))
      ensures View() == World(if spawned then Some(Child(map[], map[], map[])) else None,
                              spawned, process.exited, process.tornDownEvents)
    {
      this.process := process;
      if spawned {
        childProcess := new CrashRecoveryProcess(process);
      } else {
        childProcess := null;
      }
    }

    method OnDrawFrameError(window: WindowId)
      requires Valid() && !process.exited
      modifies childProcess, process
      ensures Valid() && View() == Step(old(View()), DrawError(window))
    {
      if childProcess != null {
        childProcess.HandleDrawFrameError(window);
      }
    }

    method OnFrameDrawn(window: WindowId)
      requires Valid() && !process.exited
      modifies this, childProcess, process
      ensures Valid() && View() == Step(old(View()), FrameDrawn(window))
    {
      var child := childProcess;
      childProcess := null;
      if child != null {
        child.HandleFrameDrawn(window);
        if !child.isAlive {
          process.tornDownEvents := process.tornDownEvents + 1;
        } else {
          childProcess := child;
        }
      }
    }

    method TearDown()
      requires Valid() && !process.exited
      modifies this, childProcess, process
      ensures Valid() && View() == Step(old(View()), Event.Teardown)
    {
      var child := childProcess;
      childProcess := null;
      if child != null {
        child.Kill();
      }
    }
  }

  // Runs of a program that holds a child at the start.

  ghost function Run(events: seq<Event>): World {
    if events == [] then World(Some(Child(map[], map[], map[])), true, false, 0)
    else Step(Run(events[..|events| - 1]), events[|events| - 1])
  }

  // The reference: the frames of each window.

  ghost function FramesOf(e: Event, window: WindowId): seq<Frame> {
    match e
    case DrawError(w) => if w == window then [Errored] else []
    case FrameDrawn(w) => if w == window then [Successful] else []
    case Teardown => []
  }

  ghost function Frames(events: seq<Event>, window: WindowId): seq<Frame> {
    if events == [] then [] else
      Frames(events[..|events| - 1], window) + FramesOf(events[|events| - 1], window)
  }

  ghost function TrailingErrors(frames: seq<Frame>): (n: nat)
    ensures n <= |frames|
  {
    if frames == [] || frames[|frames| - 1] == Successful then 0
    else 1 + TrailingErrors(frames[..|frames| - 1])
  }

  ghost function Successes(frames: seq<Frame>): nat {
    if frames == [] then 0
    else Successes(frames[..|frames| - 1]) + if frames[|frames| - 1] == Successful then 1 else 0
  }

  ghost predicate LastThreeFailed(frames: seq<Frame>) {
    |frames| >= 3 && forall k :: |frames| - 3 <= k < |frames| ==> frames[k] == Errored
  }

  ghost predicate Failing(events: seq<Event>) {
    exists window :: LastThreeFailed(Frames(events, window))
  }

  ghost predicate Settled(events: seq<Event>) {
    exists window :: Successes(Frames(events, window)) >= 10
  }

  ghost predicate TornDown(events: seq<Event>) {
    events != [] && events[|events| - 1] == Teardown
  }

  /** The last of these events is one that decides. */
  ghost predicate Decides(events: seq<Event>) {
    Failing(events) || Settled(events) || TornDown(events)
  }

  ghost predicate Undecided(events: seq<Event>) {
    forall n :: 0 <= n <= |events| ==> !Decides(events[..n])
  }

  ghost predicate FirstDecision(events: seq<Event>, n: nat) {
    0 < n <= |events| && Undecided(events[..n - 1]) && Decides(events[..n])
  }

  lemma UndecidedPrefix(events: seq<Event>, n: nat)
    requires Undecided(events) && n <= |events|
    ensures Undecided(events[..n])
  {
    forall m | 0 <= m <= n
      ensures !Decides(events[..n][..m])
    {
      assert events[..n][..m] == events[..m];
    }
  }

  lemma LastThreeAreTheTrailingThree(frames: seq<Frame>)
    ensures LastThreeFailed(frames) <==> TrailingErrors(frames) >= 3
  {
    var n := |frames|;
    if n >= 3 {
      var a, b := frames[..n - 1], frames[..n - 2];
      assert a[..n - 2] == b;
      assert TrailingErrors(b) >= 1 <==> b[n - 3] == Errored;
      assert TrailingErrors(a) >= 2 <==> a[n - 2] == Errored && TrailingErrors(b) >= 1;
      assert TrailingErrors(frames) >= 3 <==> frames[n - 1] == Errored && TrailingErrors(a) >= 2;
    }
  }

  lemma FrameAdded(frames: seq<Frame>, frame: Frame)
    ensures TrailingErrors(frames + [frame]) == if frame == Errored then TrailingErrors(frames) + 1 else 0
    ensures Successes(frames + [frame]) == Successes(frames) + if frame == Successful then 1 else 0
  {
    assert (frames + [frame])[..|frames + [frame]| - 1] == frames;
  }

  lemma EventAdded(events: seq<Event>, e: Event, window: WindowId)
    ensures Frames(events + [e], window) == Frames(events, window) + FramesOf(e, window)
    ensures Run(events + [e]) == Step(Run(events), e)
  {
    assert (events + [e])[..|events + [e]| - 1] == events;
  }

  /** The counters of a child say what the frames of each window were. */
  ghost predicate Counts(c: Child, events: seq<Event>) {
    forall window :: CountsOf(c, events, window)
  }

  ghost predicate CountsOf(c: Child, events: seq<Event>, window: WindowId) {
    && GetOr(c.renders, window, []) == Frames(events, window)
    && GetOr(c.errors, window, 0) == TrailingErrors(Frames(events, window))
    && GetOr(c.successes, window, 0) == Successes(Frames(events, window))
  }

  ghost predicate Live(w: World) {
    w.child.Some? && w.running && !w.exited && w.tornDown == 0
  }

  lemma NoneFailing(events: seq<Event>, window: WindowId)
    requires !Failing(events) && !Settled(events)
    ensures TrailingErrors(Frames(events, window)) <= 2 && Successes(Frames(events, window)) <= 9
  {
    LastThreeAreTheTrailingThree(Frames(events, window));
  }

  lemma OpenSoFar(events: seq<Event>, window: WindowId)
    requires Undecided(events)
    ensures TrailingErrors(Frames(events, window)) <= 2 && Successes(Frames(events, window)) <= 9
  {
    assert events[..|events|] == events && !Decides(events[..|events|]);
    NoneFailing(events, window);
  }

  /** Counting one event more, while a child is held. */
  lemma CountsOn(c: Child, events: seq<Event>, e: Event)
    requires Counts(c, events)
    ensures e.DrawError? ==> Counts(Failed(c, e.window), events + [e])
    ensures e.FrameDrawn? ==> Counts(Drawn(c, e.window), events + [e])
  {
    hide TrailingErrors, Successes, Frames;
    forall window
      ensures e.DrawError? ==> CountsOf(Failed(c, e.window), events + [e], window)
      ensures e.FrameDrawn? ==> CountsOf(Drawn(c, e.window), events + [e], window)
    {
      assert CountsOf(c, events, window);
      EventAdded(events, e, window);
      FrameAdded(Frames(events, window), Errored);
      FrameAdded(Frames(events, window), Successful);
      assert Frames(events, window) + [] == Frames(events, window);
    }
  }

  /** An event decides exactly when its own counter says so. */
  lemma WhatDecides(events: seq<Event>, e: Event)
    requires !Failing(events) && !Settled(events)
    ensures Failing(events + [e]) <==>
              e.DrawError? && TrailingErrors(Frames(events, e.window)) + 1 >= NUM_DRAW_ERRORS_BEFORE_EXITING
    ensures Settled(events + [e]) <==>
              e.FrameDrawn? && Successes(Frames(events, e.window)) + 1 >= NUM_SUCCESSFUL_DRAW_FRAMES_PER_WINDOW
  {
    hide TrailingErrors, Successes, Frames, LastThreeFailed;
    forall window
      ensures LastThreeFailed(Frames(events + [e], window)) <==>
                e.DrawError? && e.window == window && TrailingErrors(Frames(events, window)) >= 2
      ensures Successes(Frames(events + [e], window)) >= 10 <==>
                e.FrameDrawn? && e.window == window && Successes(Frames(events, window)) >= 9
    {
      var before := Frames(events, window);
      EventAdded(events, e, window);
      FrameAdded(before, Errored);
      FrameAdded(before, Successful);
      assert before + [] == before;
      LastThreeAreTheTrailingThree(before);
      LastThreeAreTheTrailingThree(Frames(events + [e], window));
      NoneFailing(events, window);
    }
    if e.DrawError? && TrailingErrors(Frames(events, e.window)) >= 2 {
      assert LastThreeFailed(Frames(events + [e], e.window));
    }
    if e.FrameDrawn? && Successes(Frames(events, e.window)) >= 9 {
      assert Successes(Frames(events + [e], e.window)) >= 10;
    }
  }

  /** While nothing has decided, the child is held and its counters say what each window's frames were. */
  lemma {:induction false} CountsOfEveryRun(events: seq<Event>)
    requires Undecided(events)
    ensures Live(Run(events)) && Counts(Run(events).child.value, events)
  {
    hide Failing, Settled;
    if events != [] {
      var before, e := events[..|events| - 1], events[|events| - 1];
      assert before + [e] == events && events[..|events|] == events;
      UndecidedPrefix(events, |events| - 1);
      CountsOfEveryRun(before);
      assert before[..|before|] == before;
      WhatDecides(before, e);
      var c := Run(before).child.value;
      CountsOn(c, before, e);
      if !e.Teardown? {
        assert CountsOf(c, before, e.window);
      }
      EventAdded(before, e, 0);
    }
  }

  /** The first event that decides does what it decides, and nothing changes after it. */
  lemma {:induction false} OutcomeOfEveryRun(events: seq<Event>, n: nat)
    requires FirstDecision(events, n)
    ensures var w := Run(events);
            && (w.exited <==> Failing(events[..n]))
            && (w.child.None? <==> Settled(events[..n]) || TornDown(events[..n]))
            && w.tornDown == (if Settled(events[..n]) then 1 else 0)
            && (w.running <==> w.child.Some?)
            && Run(events) == Run(events[..n])
  {
    hide Failing, Settled;
    if |events| == n {
      var before, e := events[..n - 1], events[n - 1];
      assert before + [e] == events && events[..n] == events && before[..n - 1] == before;
      CountsOfEveryRun(before);
      WhatDecides(before, e);
      if !e.Teardown? {
        assert CountsOf(Run(before).child.value, before, e.window);
      }
      EventAdded(before, e, 0);
    } else {
      var before := events[..|events| - 1];
      assert before[..n - 1] == events[..n - 1] && before[..n] == events[..n];
      OutcomeOfEveryRun(before, n);
    }
  }

  lemma NothingDecidesAtFirst(events: seq<Event>)
    ensures !Decides(events[..0])
  {
    assert events[..0] == [];
    assert Frames([], 0) == [];
  }

  lemma {:induction false} DecidedFrom(events: seq<Event>)
    requires !Undecided(events)
    ensures exists n: nat :: FirstDecision(events, n)
  {
    var n: nat :| n <= |events| && Decides(events[..n]);
    NothingDecidesAtFirst(events);
    if Undecided(events[..n - 1]) {
      assert FirstDecision(events, n);
    } else {
      DecidedFrom(events[..n - 1]);
      var m: nat :| FirstDecision(events[..n - 1], m);
      assert events[..n - 1][..m] == events[..m] && events[..n - 1][..m - 1] == events[..m - 1];
      assert FirstDecision(events, m);
    }
  }

  /**
   Every run of a program that starts with a child: it is undecided and the child is held, or there
   is a first event that decides, and whether the program has exited, the child is gone and the
   torn-down event was emitted depends on that event alone. The running flag is on exactly while a
   child is held.
   */
  lemma EveryRunIsDecidedOnce(events: seq<Event>)
    ensures Undecided(events) <==> Live(Run(events))
    ensures !Undecided(events) <==> exists n: nat :: FirstDecision(events, n)
    ensures Run(events).running <==> Run(events).child.Some?
    ensures Run(events).tornDown <= 1
  {
    if Undecided(events) {
      CountsOfEveryRun(events);
      assert forall n: nat :: n <= |events| ==> !Decides(events[..n]);
    } else {
      DecidedFrom(events);
      var n: nat :| FirstDecision(events, n);
      OutcomeOfEveryRun(events, n);
    }
  }

  /** Once the child is gone, no further event exits the program or emits anything. */
  lemma {:induction false} NothingHappensWithoutAChild(events: seq<Event>, more: seq<Event>)
    requires Run(events).child.None?
    ensures Run(events + more) == Run(events)
  {
    if more == [] {
      assert events + more == events;
    } else {
      assert (events + more)[..|events + more| - 1] == events + more[..|more| - 1];
      NothingHappensWithoutAChild(events, more[..|more| - 1]);
    }
  }

  // The bound.

  /** A window in which no three frames in a row have failed has few frames for its successes. */
  ghost predicate Bounded(frames: seq<Frame>) {
    |frames| <= 3 * Successes(frames) + TrailingErrors(frames)
  }

  lemma BoundedOn(frames: seq<Frame>, e: Event, window: WindowId)
    requires Bounded(frames) && TrailingErrors(frames) <= 2
    ensures Bounded(frames + FramesOf(e, window))
  {
    hide TrailingErrors, Successes;
    FrameAdded(frames, Errored);
    FrameAdded(frames, Successful);
    assert frames + [] == frames;
  }

  lemma {:induction false} FramesAreBounded(events: seq<Event>, window: WindowId)
    requires Undecided(events)
    ensures Bounded(Frames(events, window))
  {
    if events != [] {
      hide Frames, TrailingErrors, Successes, Decides, Bounded;
      var before, e := events[..|events| - 1], events[|events| - 1];
      assert before + [e] == events;
      UndecidedPrefix(events, |events| - 1);
      FramesAreBounded(before, window);
      OpenSoFar(before, window);
      EventAdded(before, e, window);
      BoundedOn(Frames(before, window), e, window);
    }
  }

  /** While the child is held, no window has more than 29 frames, in any interleaving. */
  lemma AtMostTwentyNineFrames(events: seq<Event>, window: WindowId)
    requires Undecided(events)
    ensures |Frames(events, window)| <= 29
    ensures Run(events).child.Some? && |GetOr(Run(events).child.value.renders, window, [])| <= 29
  {
    FramesAreBounded(events, window);
    OpenSoFar(events, window);
    CountsOfEveryRun(events);
    assert CountsOf(Run(events).child.value, events, window);
  }

  /** Two failures, then a success, over and over, in one window. */
  ghost function Beat(n: nat): Event {
    if n % 3 == 0 then FrameDrawn(0) else DrawError(0)
  }

  ghost function Teeter(n: nat): (events: seq<Event>)
    ensures |events| == n
  {
    if n == 0 then [] else Teeter(n - 1) + [Beat(n)]
  }

  lemma {:induction false} TeeterFrames(n: nat)
    ensures |Frames(Teeter(n), 0)| == n
    ensures TrailingErrors(Frames(Teeter(n), 0)) == n % 3
    ensures Successes(Frames(Teeter(n), 0)) == n / 3
  {
    hide Frames, TrailingErrors, Successes;
    if n == 0 {
      NoFrames();
    } else {
      TeeterFrames(n - 1);
      EventAdded(Teeter(n - 1), Beat(n), 0);
      TeeterAdded(Frames(Teeter(n - 1), 0), n);
    }
  }

  lemma NoFrames()
    ensures Frames([], 0) == [] && TrailingErrors([]) == 0 && Successes([]) == 0
  {
  }

  lemma TeeterAdded(frames: seq<Frame>, n: nat)
    requires 0 < n && TrailingErrors(frames) == (n - 1) % 3 && Successes(frames) == (n - 1) / 3
    ensures |FramesOf(Beat(n), 0)| == 1
    ensures TrailingErrors(frames + FramesOf(Beat(n), 0)) == n % 3
    ensures Successes(frames + FramesOf(Beat(n), 0)) == n / 3
  {
    FrameAdded(frames, FramesOf(Beat(n), 0)[0]);
  }

  lemma {:induction false} TeeterElsewhere(n: nat, window: WindowId)
    requires window != 0
    ensures Frames(Teeter(n), window) == []
  {
    if n > 0 {
      TeeterElsewhere(n - 1, window);
      EventAdded(Teeter(n - 1), Beat(n), window);
    }
  }

  lemma {:induction false} TeeterPrefix(n: nat, m: nat)
    requires m <= n
    ensures Teeter(n)[..m] == Teeter(m)
  {
    if m < n {
      TeeterPrefix(n - 1, m);
    }
  }

  /** The bound is met: 29 frames of one window can leave everything open. */
  lemma TwentyNineFramesMayNotDecide()
    ensures |Frames(Teeter(29), 0)| == 29 && Undecided(Teeter(29))
  {
    TeeterFrames(29);
    forall m | 0 <= m <= 29
      ensures !Decides(Teeter(29)[..m])
    {
      TeeterPrefix(29, m);
      TeeterFrames(m);
      forall window
        ensures !LastThreeFailed(Frames(Teeter(m), window)) && Successes(Frames(Teeter(m), window)) < 10
      {
        if window != 0 {
          TeeterElsewhere(m, window);
        }
        LastThreeAreTheTrailingThree(Frames(Teeter(m), window));
      }
    }
  }
}
