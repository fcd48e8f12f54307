/**
 The throttling stream (app/src/throttle.rs): after each item it is silent for `period`, and then it
 hands on only the last of the items that came in meanwhile.

 It differs from the debouncer when the inner stream ends: items read in the poll that sees the end
 are dropped. It is not fused: nothing here assumes that polls stop after the end.
 */
module Throttles {
  import opened Wrappers
  import opened Streams
  import Debounces

  datatype State<+T> = State(script: seq<Reply<T>>, timer: Option<nat>)

  datatype Outcome<+T> =
    Outcome(state: State<T>, clock: nat, log: seq<Event<T>>, result: Poll<Option<T>>)

  /** What a poll with an expired timer makes of what it found on the inner stream. */
  ghost function Settle<T>(period: nat, d: Drained<T>): Outcome<T>
    requires AllReads(d.read)
  {
    var log := [Began(true)] + d.read;
    if d.closed then
      Outcome(State(d.rest, None), d.clock, log + [Over(d.clock)], Ready(None))
    else if d.read != [] then
      var item := Last(d.read).item;
      Outcome(State(d.rest, Some(d.clock + period)), d.clock,
              log + [Emit(item, d.clock, false)], Ready(Some(item)))
    else
      Outcome(State(d.rest, None), d.clock, log, Pending)
  }

  /** A poll without a timer. */
  ghost function First<T>(period: nat, s: State<T>, now: nat): Outcome<T> {
    var clock := now + Head(s.script).elapsed;
    match Head(s.script).result
    case Pending =>
      Outcome(State(Tail(s.script), None), clock, [Began(false)], Pending)
    case Ready(None) =>
      Outcome(State(Tail(s.script), Some(clock + period)), clock,
              [Began(false)] + [] + [Over(clock)], Ready(None))
    case Ready(Some(item)) =>
      Outcome(State(Tail(s.script), Some(clock + period)), clock,
              [Began(false)] + [Read(item, clock)] + [Emit(item, clock, false)], Ready(Some(item)))
  }

  ghost function Turn<T>(period: nat, s: State<T>, now: nat): Outcome<T> {
    if s.timer.None? then First(period, s, now)
    else if now < s.timer.value then Outcome(s, now, [Began(false)], Pending)
    else Settle(period, Drain(s.script, now))
  }

  class Throttle<T> {
    const period: nat
    const stream: Source<T>
    var timer: Option<nat>

    ghost function View(): State<T>
      reads this, stream
    {
      State(stream.script, timer)
    }

    constructor (period: nat, stream: Source<T>)
      ensures this.period == period && this.stream == stream
      ensures View() == State(stream.script, None)
    {
      this.period, this.stream, timer := period, stream, None;
    }

    method PollNext(now: nat) returns (result: Poll<Option<T>>, clock: nat)
      modifies this, stream
      ensures View() == Turn(period, old(View()), now).state
      ensures clock == Turn(period, old(View()), now).clock
      ensures result == Turn(period, old(View()), now).result
    {
      hide Drain;
      if timer.Some? {
        if now < timer.value {
          return Pending, now;
        }
        clock := now;
        ghost var d := Drain(stream.script, now);
        ghost var taken: seq<Event<T>> := [];
        var lastPoll: Poll<Option<T>> := Pending;
        while true
          invariant timer == old(timer) && AllReads(taken)
          invariant lastPoll == if taken == [] then Pending else Ready(Some(Last(taken).item))
          invariant d == Before(taken, Drain(stream.script, clock))
          decreases |stream.script|
        {
          DrainOneReply(taken, stream.script, clock);
          var reply;
          reply, clock := stream.PollNext(clock);
          match reply
          case Ready(Some(item)) =>
            lastPoll := reply;
            taken := taken + [Read(item, clock)];
          case Ready(None) =>
            timer := None;
            return Ready(None), clock;
          case Pending =>
            break;
        }
        assert d == Drained(stream.script, clock, taken, false);
        timer := if lastPoll.Ready? then Some(clock + period) else None;
        result := lastPoll;
      } else {
        result, clock := stream.PollNext(now);
        if result.Ready? {
          timer := Some(clock + period);
        }
      }
    }
  }

  // Runs: polls of a fresh throttler, each some gap after the one before.

  datatype World<+T> = World(state: State<T>, clock: nat, log: seq<Event<T>>)

  ghost function Poll<T>(period: nat, w: World<T>, gap: nat): World<T> {
    var o := Turn(period, w.state, w.clock + gap);
    World(o.state, o.clock, w.log + o.log)
  }

  ghost function Run<T>(period: nat, script: seq<Reply<T>>, gaps: seq<nat>): World<T> {
    if gaps == [] then World(State(script, None), 0, [])
    else Poll(period, Run(period, script, gaps[..|gaps| - 1]), Last(gaps))
  }

  // Spacing.

  ghost predicate Spaced<T>(period: nat, log: seq<Event<T>>) {
    forall i, k :: 0 <= i < k < |log| && log[i].Emit? && log[k].Emit? ==>
      log[i].at + period <= log[k].at
  }

  /** No output may come before `due`. */
  ghost predicate DueAfter<T>(period: nat, log: seq<Event<T>>, due: nat) {
    forall i :: 0 <= i < |log| && log[i].Emit? ==> log[i].at + period <= due
  }

  ghost function Due<T>(w: World<T>): nat {
    if w.state.timer.Some? then w.state.timer.value else w.clock
  }

  lemma OutputWhenDue<T>(period: nat, log: seq<Event<T>>, due: nat, more: seq<Event<T>>, newDue: nat)
    requires Spaced(period, log) && DueAfter(period, log, due) && due <= newDue
    requires forall k :: 0 <= k < |more| && more[k].Emit? ==>
               k == |more| - 1 && due <= more[k].at && more[k].at + period <= newDue
    ensures Spaced(period, log + more) && DueAfter(period, log + more, newDue)
  {
  }

  lemma PollKeepsTheSpacing<T>(period: nat, w: World<T>, gap: nat)
    requires Spaced(period, w.log) && DueAfter(period, w.log, Due(w))
    ensures Spaced(period, Poll(period, w, gap).log)
    ensures DueAfter(period, Poll(period, w, gap).log, Due(Poll(period, w, gap)))
  {
    hide Spaced, DueAfter, Drain;
    var o := Turn(period, w.state, w.clock + gap);
    OutputWhenDue(period, w.log, Due(w), o.log, Due(Poll(period, w, gap)));
  }

  /** In every run any two items given out are `period` or more apart. */
  lemma {:induction false} ItemsAreApart<T>(period: nat, script: seq<Reply<T>>, gaps: seq<nat>)
    ensures var w := Run(period, script, gaps);
            Spaced(period, w.log) && DueAfter(period, w.log, Due(w))
  {
    if gaps != [] {
      ItemsAreApart(period, script, gaps[..|gaps| - 1]);
      PollKeepsTheSpacing(period, Run(period, script, gaps[..|gaps| - 1]), Last(gaps));
    }
  }

  /** The outputs in a half-open window of time. */
  ghost function EmittedIn<T>(log: seq<Event<T>>, from: nat, to: nat): set<nat> {
    set k: nat | k < |log| && log[k].Emit? && from <= log[k].at < to
  }

  lemma AtMostOne(s: set<nat>)
    requires forall i, k :: i in s && k in s ==> i == k
    ensures |s| <= 1
  {
    if s != {} {
      var i :| i in s;
      assert s == {i};
    }
  }

  lemma OneMorePeriod<T>(period: nat, log: seq<Event<T>>, from: nat, to: nat)
    requires Spaced(period, log) && from <= to
    ensures |EmittedIn(log, from, to + period)| <= |EmittedIn(log, from, to)| + 1
  {
    var late := EmittedIn(log, to, to + period);
    AtMostOne(late);
    assert EmittedIn(log, from, to + period) == EmittedIn(log, from, to) + late;
  }

  lemma {:induction false} SpacedWindow<T>(period: nat, log: seq<Event<T>>, from: nat, n: nat)
    requires Spaced(period, log)
    ensures |EmittedIn(log, from, from + n * period)| <= n
  {
    hide Spaced;
    if n == 0 {
      assert EmittedIn(log, from, from + n * period) == {};
    } else {
      SpacedWindow(period, log, from, n - 1);
      var to := from + (n - 1) * period;
      OneMorePeriod(period, log, from, to);
      assert from + n * period == to + period;
    }
  }

  /** In every run, any window of `n` periods sees `n` items or fewer. */
  lemma WindowsAreBounded<T>(period: nat, script: seq<Reply<T>>, gaps: seq<nat>, from: nat, n: nat)
    ensures |EmittedIn(Run(period, script, gaps).log, from, from + n * period)| <= n
  {
    ItemsAreApart(period, script, gaps);
    SpacedWindow(period, Run(period, script, gaps).log, from, n);
  }

  // Silence.

  /** The latest poll of a log found its timer expired. */
  ghost predicate BeganExpired<T>(log: seq<Event<T>>) {
    if log == [] then false
    else if Last(log).Began? then Last(log).expired
    else BeganExpired(log[..|log| - 1])
  }

  /**
   Until when the throttler is silent, as its log tells: an item given out starts a silence of `period`,
   and so does an end, but for one that followed an expired timer; a poll that finds the timer expired
   ends the silence.
   */
  ghost function Silence<T>(period: nat, log: seq<Event<T>>): Option<nat> {
    if log == [] then None
    else
      match Last(log)
      case Began(expired) => if expired then None else Silence(period, log[..|log| - 1])
      case Read(_, _) => Silence(period, log[..|log| - 1])
      case Emit(_, at, _) => Some(at + period)
      case Over(at) => if BeganExpired(log[..|log| - 1]) then None else Some(at + period)
  }

  lemma SilenceOn<T>(period: nat, log: seq<Event<T>>, e: Event<T>)
    ensures BeganExpired(log + [e]) == if e.Began? then e.expired else BeganExpired(log)
    ensures Silence(period, log + [e]) ==
            match e
            case Began(expired) => if expired then None else Silence(period, log)
            case Read(_, _) => Silence(period, log)
            case Emit(_, at, _) => Some(at + period)
            case Over(at) => if BeganExpired(log) then None else Some(at + period)
  {
    assert (log + [e])[..|log|] == log;
  }

  lemma {:induction false} ReadingKeepsTheSilence<T>(period: nat, log: seq<Event<T>>, taken: seq<Event<T>>)
    requires AllReads(taken)
    ensures BeganExpired(log + taken) == BeganExpired(log)
    ensures Silence(period, log + taken) == Silence(period, log)
  {
    hide BeganExpired, Silence;
    if taken == [] {
      assert log + taken == log;
    } else {
      var shorter := taken[..|taken| - 1];
      ReadingKeepsTheSilence(period, log, shorter);
      SilenceOn(period, log + shorter, Last(taken));
      assert log + taken == log + shorter + [Last(taken)];
    }
  }

  lemma SilenceOfAPoll<T>(period: nat, log: seq<Event<T>>, expired: bool, taken: seq<Event<T>>)
    requires AllReads(taken)
    ensures var read := log + ([Began(expired)] + taken);
            && BeganExpired(read) == expired
            && Silence(period, read) == if expired then None else Silence(period, log)
  {
    hide BeganExpired, Silence;
    SilenceOn(period, log, Began(expired));
    ReadingKeepsTheSilence(period, log + [Began(expired)], taken);
    assert log + [Began(expired)] + taken == log + ([Began(expired)] + taken);
  }

  lemma PollFollowsTheSilence<T>(period: nat, w: World<T>, gap: nat)
    requires w.state.timer == Silence(period, w.log)
    ensures Poll(period, w, gap).state.timer == Silence(period, Poll(period, w, gap).log)
  {
    hide BeganExpired, Silence, Drain;
    var s, now := w.state, w.clock + gap;
    var log := Turn(period, s, now).log;
    var taken := if s.timer.None? then (if |log| == 3 then [log[1]] else [])
                 else if now < s.timer.value then [] else Drain(s.script, now).read;
    var expired := TimerDone(s.timer, now);
    SilenceOfAPoll(period, w.log, expired, taken);
    var read := w.log + ([Began(expired)] + taken);
    if 1 + |taken| < |log| {
      SilenceOn(period, read, Last(log));
      assert w.log + log == read + [Last(log)];
    } else {
      assert w.log + log == read;
    }
  }

  /** In every run the timer is that of the silence: `period` after the latest item given out, while no
      poll has found it expired. */
  lemma {:induction false} TimerIsTheSilence<T>(period: nat, script: seq<Reply<T>>, gaps: seq<nat>)
    ensures var w := Run(period, script, gaps); w.state.timer == Silence(period, w.log)
  {
    hide Poll, Silence;
    if gaps != [] {
      TimerIsTheSilence(period, script, gaps[..|gaps| - 1]);
      PollFollowsTheSilence(period, Run(period, script, gaps[..|gaps| - 1]), Last(gaps));
    } else {
      NoSilenceYet<T>(period);
    }
  }

  lemma NoSilenceYet<T>(period: nat)
    ensures Silence<T>(period, []) == None
  {
  }

  /** What a poll is answered. */
  ghost function AnswerOf<T>(period: nat, w: World<T>, gap: nat): Streams.Poll<Option<T>> {
    Turn(period, w.state, w.clock + gap).result
  }

  /**
   What every poll of every run is answered, told from the replies and the log alone. In a silence that
   has not run out it is pending, and reaches nothing. At the end of a silence it takes all replies up to
   one that is pending or the end; it gives out the end if that is there, else the last item, if there is
   one, and else it is pending. Outside any silence it takes one reply and passes it on.
   */
  lemma AnswersOfEveryRun<T>(period: nat, script: seq<Reply<T>>, gaps: seq<nat>, gap: nat)
    ensures var w := Run(period, script, gaps);
            var v, answer := Poll(period, w, gap), AnswerOf(period, w, gap);
            var rest, now, silence := w.state.script, w.clock + gap, Silence(period, w.log);
            if silence.Some? && now < silence.value then
              answer == Pending && v.state.script == rest && v.clock == now
            else if silence.Some? then
              var n := Drawn(rest);
              && v.state.script == rest[n..] && v.clock == now + Elapsed(rest[..n])
              && answer == if 0 < n && IsEnd(rest[n - 1]) then Ready(None)
                           else if Arrivals(rest[..n]) != [] then Ready(Some(Last(Arrivals(rest[..n]))))
                           else Pending
            else if rest == [] then
              answer == Pending && v.state.script == [] && v.clock == now
            else
              answer == rest[0].result && v.state.script == rest[1..] && v.clock == now + rest[0].elapsed
  {
    hide Run, Silence, Drain, Drawn, Arrivals, Elapsed;
    var w := Run(period, script, gaps);
    var rest, now := w.state.script, w.clock + gap;
    TimerIsTheSilence(period, script, gaps);
    DrainFollowsTheScript(rest, now);
    DrainReadsTheArrivals(rest, now);
    DrainTakesItsTime(rest, now);
  }

  /** Events carry the times at which they happen. */
  lemma TurnIsOrdered<T>(period: nat, s: State<T>, now: nat)
    ensures var o := Turn(period, s, now);
            && now <= o.clock && Ordered(o.log, o.clock)
            && (forall k :: 0 <= k < |o.log| && !o.log[k].Began? ==> now <= o.log[k].at)
            && (o.result.Ready? ==> !Last(o.log).Began? && Last(o.log).at == o.clock)
  {
    hide Drain;
    if s.timer.Some? && s.timer.value <= now {
      var d := Drain(s.script, now);
      DrainIsOrdered(s.script, now);
      var began: seq<Event<T>> := [Began(true)];
      OrderedOn(began, now, d.read, d.clock);
      var o := Settle(period, d);
      if o.result.Ready? {
        OrderedOn(began + d.read, d.clock, [Last(o.log)], d.clock);
        assert o.log == began + d.read + [Last(o.log)];
      }
    }
  }

  lemma {:induction false} EveryRunIsOrdered<T>(period: nat, script: seq<Reply<T>>, gaps: seq<nat>)
    ensures Ordered(Run(period, script, gaps).log, Run(period, script, gaps).clock)
  {
    hide Turn;
    if gaps != [] {
      var w := Run(period, script, gaps[..|gaps| - 1]);
      EveryRunIsOrdered(period, script, gaps[..|gaps| - 1]);
      TurnIsOrdered(period, w.state, w.clock + Last(gaps));
      var o := Turn(period, w.state, w.clock + Last(gaps));
      OrderedOn(w.log, w.clock, o.log, o.clock);
    }
  }

  /** When the latest item or end of a log was given out. */
  ghost function LatestOutputAt<T>(log: seq<Event<T>>): Option<nat> {
    if log == [] then None
    else if Last(log).Emit? || Last(log).Over? then Some(Last(log).at)
    else LatestOutputAt(log[..|log| - 1])
  }

  lemma {:induction false} SilenceFollowsAnOutput<T>(period: nat, log: seq<Event<T>>)
    ensures Silence(period, log).Some? ==>
              LatestOutputAt(log).Some? && Silence(period, log).value == LatestOutputAt(log).value + period
  {
    if log != [] {
      SilenceFollowsAnOutput(period, log[..|log| - 1]);
    }
  }

  lemma FirstArrival<T>(script: seq<Reply<T>>)
    ensures Arrivals(script[..0]) == []
    ensures script != [] ==>
              Arrivals(script[..1]) == if script[0].result.Ready? && script[0].result.value.Some?
                                       then [script[0].result.value.value] else []
  {
    assert script != [] ==> script[..1][1..] == [];
  }

  /** A poll that comes `period` or more after the latest output reaches the inner stream, and if it finds
      items there and no end, gives out the last of them. */
  lemma NothingWaitsOverAPeriod<T>(period: nat, script: seq<Reply<T>>, gaps: seq<nat>, gap: nat)
    requires var w := Run(period, script, gaps);
             LatestOutputAt(w.log).Some? ==> LatestOutputAt(w.log).value + period <= w.clock + gap
    ensures var w := Run(period, script, gaps);
            var v, rest := Poll(period, w, gap), w.state.script;
            && |v.state.script| <= |rest|
            && (rest != [] ==> |v.state.script| < |rest|)
            && var taken := rest[..|rest| - |v.state.script|];
               Arrivals(taken) != [] && (forall k :: 0 <= k < |taken| ==> !IsEnd(taken[k])) ==>
                 AnswerOf(period, w, gap) == Ready(Some(Last(Arrivals(taken))))
  {
    hide Run, Poll, Turn, Silence, LatestOutputAt, Drain, Drawn, Arrivals, Elapsed;
    var w := Run(period, script, gaps);
    var rest := w.state.script;
    AnswersOfEveryRun(period, script, gaps, gap);
    SilenceFollowsAnOutput(period, w.log);
    DrawnIsPositive(rest);
    FirstArrival(rest);
    var taken := rest[..|rest| - |Poll(period, w, gap).state.script|];
    if Silence(period, w.log).Some? {
      var n := Drawn(rest);
      assert taken == rest[..n];
      assert 0 < n ==> taken[n - 1] == rest[n - 1];
    } else if rest != [] {
      assert taken == rest[..1] && taken[0] == rest[0];
    } else {
      assert taken == rest[..0];
    }
  }

  // Bursts.

  /** What is dropped at the end given out at `k` was read in that poll, which found its timer expired. */
  ghost predicate DroppedInOnePoll<T>(log: seq<Event<T>>, j: nat, k: nat) {
    && j < k < |log| && log[j] == Began(true) && AllReads(log[j + 1..k])
    && CutLog(log[..k]).open == Items(log[j + 1..k])
  }

  ghost predicate DropsOnlyWhatTheEndFollows<T>(log: seq<Event<T>>) {
    forall k: nat :: k < |log| && log[k].Over? && CutLog(log[..k]).open != [] ==>
      exists j: nat :: DroppedInOnePoll(log, j, k)
  }

  ghost predicate Bursts<T>(log: seq<Event<T>>) {
    BurstsEndInOutputs(log) && CutLog(log).open == [] && DropsOnlyWhatTheEndFollows(log)
  }

  lemma DropsStay<T>(log: seq<Event<T>>, more: seq<Event<T>>, j: nat)
    requires DropsOnlyWhatTheEndFollows(log)
    requires forall k :: 0 <= k < |more| - 1 ==> !more[k].Over?
    requires more != [] && Last(more).Over? ==>
               CutLog((log + more)[..|log + more| - 1]).open == []
               || DroppedInOnePoll(log + more, j, |log + more| - 1)
    ensures DropsOnlyWhatTheEndFollows(log + more)
  {
    hide CutLog;
    var all := log + more;
    forall k: nat | k < |all| && all[k].Over? && CutLog(all[..k]).open != []
      ensures exists j: nat :: DroppedInOnePoll(all, j, k)
    {
      if k < |log| {
        assert all[..k] == log[..k];
        var i: nat :| DroppedInOnePoll(log, i, k);
        assert log[i + 1..k] == all[i + 1..k];
        assert DroppedInOnePoll(all, i, k);
      }
    }
  }

  lemma EndKeepsTheBursts<T>(log: seq<Event<T>>, expired: bool, taken: seq<Event<T>>, last: Event<T>)
    requires Bursts(log) && AllReads(taken) && last.Over? && (taken != [] ==> expired)
    ensures Bursts(log + ([Began(expired)] + taken + [last]))
  {
    hide CutLog, Emits;
    var more := [Began(expired)] + taken + [last];
    CutEndingPoll(log, Began(expired), taken, last);
    CutQuietPoll(log, Began(expired), taken);
    var all, k := log + more, |log + more| - 1;
    assert all[..k] == log + ([Began(expired)] + taken);
    assert all[|log| + 1..k] == taken;
    DropsStay(log, more, |log|);
  }

  lemma OutputKeepsTheBursts<T>(log: seq<Event<T>>, began: Event<T>, taken: seq<Event<T>>, last: Event<T>)
    requires Bursts(log) && began.Began? && AllReads(taken) && taken != []
    requires last.Emit? && last.item == Last(taken).item
    ensures Bursts(log + ([began] + taken + [last]))
  {
    hide CutLog, Emits;
    assert Last(CutLog(log).open + Items(taken)) == last.item;
    BurstCompleted(log, began, taken, last);
    CutEmittingPoll(log, began, taken, last);
    DropsStay(log, [began] + taken + [last], 0);
  }

  lemma SilenceKeepsTheBursts<T>(log: seq<Event<T>>, began: Event<T>)
    requires Bursts(log) && began.Began?
    ensures Bursts(log + [began])
  {
    hide CutLog, Emits;
    assert [began] == [began] + [];
    CutQuietPoll(log, began, []);
    DropsStay(log, [began], 0);
  }

  lemma PollKeepsTheBursts<T>(period: nat, w: World<T>, gap: nat)
    requires Bursts(w.log)
    ensures Bursts(Poll(period, w, gap).log)
  {
    hide Drain, Bursts;
    var s, now := w.state, w.clock + gap;
    if s.timer.None? {
      var clock := now + Head(s.script).elapsed;
      match Head(s.script).result
      case Pending => SilenceKeepsTheBursts(w.log, Began(false));
      case Ready(None) => EndKeepsTheBursts(w.log, false, [], Over(clock));
      case Ready(Some(item)) =>
        OutputKeepsTheBursts(w.log, Began(false), [Read(item, clock)], Emit(item, clock, false));
    } else if now < s.timer.value {
      SilenceKeepsTheBursts(w.log, Began(false));
    } else {
      var d := Drain(s.script, now);
      if d.closed {
        EndKeepsTheBursts(w.log, true, d.read, Over(d.clock));
      } else if d.read != [] {
        OutputKeepsTheBursts(w.log, Began(true), d.read, Emit(Last(d.read).item, d.clock, false));
      } else {
        assert Settle(period, d).log == [Began(true)];
        SilenceKeepsTheBursts(w.log, Began(true));
      }
    }
  }

  /**
   In every run the items read split into non-empty bursts that end in exactly the outputs and
   batches dropped at an end; a batch that is not empty was read in the very poll that saw the end,
   after its timer had expired; and between polls nothing is left over.
   */
  lemma {:induction false} BurstsOfEveryRun<T>(period: nat, script: seq<Reply<T>>, gaps: seq<nat>)
    ensures Bursts(Run(period, script, gaps).log)
  {
    if gaps != [] {
      BurstsOfEveryRun(period, script, gaps[..|gaps| - 1]);
      PollKeepsTheBursts(period, Run(period, script, gaps[..|gaps| - 1]), Last(gaps));
    }
  }

  /** The caller stops at the first end. */
  ghost predicate StopsAtTheEnd<T>(log: seq<Event<T>>) {
    forall k :: 0 <= k < |log| - 1 ==> !log[k].Over?
  }

  ghost function DroppedTail<T>(log: seq<Event<T>>): seq<T> {
    if log != [] && Last(log).Over? then CutLog(log[..|log| - 1]).open else []
  }

  lemma {:induction false} NoEndNoDrop<T>(log: seq<Event<T>>)
    requires forall k :: 0 <= k < |log| ==> !log[k].Over?
    ensures CutLog(log).dropped == []
  {
    if log != [] {
      NoEndNoDrop(log[..|log| - 1]);
    }
  }

  lemma CutsUpToTheEnd<T>(log: seq<Event<T>>)
    requires StopsAtTheEnd(log) && CutLog(log).open == []
    ensures Reads(log) == Flatten(CutLog(log).bursts) + DroppedTail(log)
  {
    hide CutLog, Reads, Flatten, Emits;
    if log != [] && Last(log).Over? {
      var before := log[..|log| - 1];
      NoEndNoDrop(before);
      NothingElseWasRead(before);
      Snoc(before, Last(log));
      assert before + [Last(log)] == log;
    } else {
      NoEndNoDrop(log);
      NothingElseWasRead(log);
    }
  }

  /** For a caller that stops at the first end, what is dropped is a tail of what was read, all of it
      read in the last poll. */
  lemma OnlyATailIsDropped<T>(period: nat, script: seq<Reply<T>>, gaps: seq<nat>)
    requires StopsAtTheEnd(Run(period, script, gaps).log)
    ensures var log := Run(period, script, gaps).log;
            && Reads(log) == Flatten(CutLog(log).bursts) + DroppedTail(log)
            && (DroppedTail(log) != [] ==>
                  exists j: nat, k: nat :: k == |log| - 1 && DroppedInOnePoll(log, j, k))
  {
    hide CutLog, Reads, Flatten, Emits, DroppedInOnePoll;
    BurstsOfEveryRun(period, script, gaps);
    CutsUpToTheEnd(Run(period, script, gaps).log);
  }

  /** A poll reads something and gives no item out exactly when its timer has expired and it finds
      items and then the end. */
  lemma WhenItemsAreDropped<T>(period: nat, s: State<T>, now: nat)
    ensures var o, d := Turn(period, s, now), Drain(s.script, now);
            (exists k :: 0 <= k < |o.log| && o.log[k].Read?) && (forall k :: 0 <= k < |o.log| ==> !o.log[k].Emit?)
            <==> s.timer.Some? && s.timer.value <= now && d.closed && d.read != []
  {
    hide Drain;
    var o, d := Turn(period, s, now), Drain(s.script, now);
    if s.timer.Some? && s.timer.value <= now && d.read != [] {
      assert o.log[1] == d.read[0];
    }
    if |o.log| > 0 && Last(o.log).Emit? {
      assert o.log[|o.log| - 1].Emit?;
    }
  }

  // The inner stream.

  /** A poll reaches the inner stream exactly when no timer is running, if there is anything to reach. */
  lemma WhenTheStreamIsPolled<T>(period: nat, s: State<T>, now: nat)
    requires s.script != []
    ensures |Turn(period, s, now).state.script| < |s.script| <==> s.timer.None? || s.timer.value <= now
  {
    DrainFollowsTheScript(s.script, now);
    hide Drain;
  }

  lemma TurnIsAccounted<T>(all: seq<Reply<T>>, rest: seq<Reply<T>>, log: seq<Event<T>>,
                           began: Event<T>, n: nat, taken: seq<Event<T>>, end: seq<Event<T>>)
    requires Accounted(all, rest, log) && began.Began? && AllReads(taken)
    requires n <= |rest| && Items(taken) == Arrivals(rest[..n])
    requires |end| <= 1 && forall k :: 0 <= k < |end| ==> !end[k].Read?
    ensures Accounted(all, rest[n..], log + ([began] + taken + end))
  {
    hide CutLog, Emits, Reads, Arrivals;
    Snoc(log, began);
    AccountedStep(all, rest, log + [began], n, taken);
    if end == [] {
      assert log + [began] + taken == log + ([began] + taken + end);
    } else {
      Snoc(log + [began] + taken, end[0]);
      assert log + [began] + taken + [end[0]] == log + ([began] + taken + end);
    }
  }

  lemma PollIsAccounted<T>(period: nat, all: seq<Reply<T>>, w: World<T>, gap: nat)
    requires Accounted(all, w.state.script, w.log)
    ensures Accounted(all, Poll(period, w, gap).state.script, Poll(period, w, gap).log)
  {
    hide Drain, Drawn, Accounted;
    var s, now := w.state, w.clock + gap;
    var o := Turn(period, s, now);
    var n, taken: seq<Event<T>>, end := 0, [], [];
    if s.timer.None? {
      if s.script != [] {
        n := 1;
        assert s.script[..1] == [s.script[0]];
        if s.script[0].result.Ready? && s.script[0].result.value.Some? {
          taken := [Read(s.script[0].result.value.value, now + s.script[0].elapsed)];
        }
      }
    } else if s.timer.value <= now {
      n, taken := Drawn(s.script), Drain(s.script, now).read;
      DrainFollowsTheScript(s.script, now);
      DrainReadsTheArrivals(s.script, now);
    }
    if 1 + |taken| < |o.log| {
      end := [Last(o.log)];
    }
    assert o.log == [Began(TimerDone(s.timer, now))] + taken + end;
    TurnIsAccounted(all, s.script, w.log, Began(TimerDone(s.timer, now)), n, taken, end);
  }

  /** In every run the items read are those of the replies polled for, one by one and in order. */
  lemma {:induction false} RunsFollowTheScript<T>(period: nat, script: seq<Reply<T>>, gaps: seq<nat>)
    ensures Accounted(script, Run(period, script, gaps).state.script, Run(period, script, gaps).log)
  {
    if gaps == [] {
      assert script[..0] == [];
    } else {
      RunsFollowTheScript(period, script, gaps[..|gaps| - 1]);
      PollIsAccounted(period, script, Run(period, script, gaps[..|gaps| - 1]), Last(gaps));
    }
  }

  /** What a poll answers is what its log says it gave out. */
  lemma AnswersAreLogged<T>(period: nat, s: State<T>, now: nat)
    ensures Turn(period, s, now).result == Answer(Turn(period, s, now).log)
  {
    hide Drain;
    var o := Turn(period, s, now);
    assert o.result.Ready? ==> !Last(o.log).Read? && !Last(o.log).Began?;
  }

  /** Two items and then the end. */
  const TWO_ITEMS: seq<Reply<nat>> :=
    [Reply(0, Ready(Some(1))), Reply(0, Ready(Some(2))), Reply(0, Ready(None))]

  lemma DrainUnfolds<T>(script: seq<Reply<T>>, now: nat)
    ensures var clock := now + Head(script).elapsed;
            Drain(script, now) ==
            match Head(script).result
            case Pending => Drained(Tail(script), clock, [], false)
            case Ready(None) => Drained(Tail(script), clock, [], true)
            case Ready(Some(item)) => Before([Read(item, clock)], Drain(Tail(script), clock))
  {
  }

  lemma DrainsOfTwoItems(now: nat)
    ensures Drain(TWO_ITEMS, now) == Drained([], now, [Read(1, now), Read(2, now)], true)
    ensures Drain(TWO_ITEMS[1..], now) == Drained([], now, [Read(2, now)], true)
  {
    hide Drain;
    var one, two: seq<Reply<nat>> := TWO_ITEMS[1..], TWO_ITEMS[2..];
    assert Head(two) == Reply(0, Ready(None)) && Tail(two) == [];
    assert Head(one) == Reply(0, Ready(Some(2))) && Tail(one) == two;
    assert Head(TWO_ITEMS) == Reply(0, Ready(Some(1))) && Tail(TWO_ITEMS) == one;
    DrainUnfolds(two, now);
    DrainUnfolds(one, now);
    DrainUnfolds(TWO_ITEMS, now);
  }

  lemma ThrottleOfTwoItems(period: nat)
    ensures Run(period, TWO_ITEMS, [0, period]).log ==
            [Began(false), Read(1, 0), Emit(1, 0, false), Began(true), Read(2, period), Over(period)]
  {
    DrainsOfTwoItems(period);
    hide Drain, First;
    var none: seq<nat>, one: seq<nat>, two: seq<nat> := [], [0], [0, period];
    assert two[..|two| - 1] == one && Last(two) == period && one[..|one| - 1] == none && Last(one) == 0;
    var start := World(State(TWO_ITEMS, None), 0, []);
    var once := World(State(TWO_ITEMS[1..], Some(period)), 0, [Began(false), Read(1, 0), Emit(1, 0, false)]);
    assert Poll(period, start, 0) == once by { FirstOfTwoItems(period); }
    SettlesTheSecond(period);
    assert Run(period, TWO_ITEMS, none) == start;
    assert Run(period, TWO_ITEMS, one) == once;
    assert Run(period, TWO_ITEMS, two) == Poll(period, once, period);
    assert Turn(period, once.state, period) == Settle(period, Drain(TWO_ITEMS[1..], period));
  }

  lemma FirstOfTwoItems(period: nat)
    ensures First(period, State(TWO_ITEMS, None), 0) ==
            Outcome(State(TWO_ITEMS[1..], Some(period)), 0, [Began(false), Read(1, 0), Emit(1, 0, false)],
                    Ready(Some(1)))
  {
    assert Head(TWO_ITEMS) == Reply(0, Ready(Some(1)));
    var o := First(period, State(TWO_ITEMS, None), 0);
    assert o.log == [Began(false), Read(1, 0), Emit(1, 0, false)];
  }

  lemma SettlesTheSecond(period: nat)
    ensures Settle(period, Drained([], period, [Read(2, period)], true)) ==
            Outcome(State([], None), period, [Began(true), Read(2, period), Over(period)], Ready(None))
  {
    var read: seq<Event<nat>> := [Read(2, period)];
    assert [Began(true)] + read + [Over(period)] == [Began(true), Read(2, period), Over(period)];
  }

  lemma DebounceOfTwoItems(period: nat)
    ensures Debounces.Run(period, TWO_ITEMS, [0]).log == [Began(false), Read(1, 0), Read(2, 0), Emit(2, 0, true)]
  {
    DrainsOfTwoItems(0);
    hide Drain;
    var none: seq<nat>, one: seq<nat> := [], [0];
    assert one[..|one| - 1] == none && Last(one) == 0;
    var start := Debounces.World(Debounces.State(TWO_ITEMS, None, None, false), 0, []);
    assert Debounces.Run(period, TWO_ITEMS, none) == start;
    assert Debounces.Run(period, TWO_ITEMS, one) == Debounces.Poll(period, start, 0);
  }

  /**
   The two limiters differ on an inner stream that ends: the throttler, polled at once and again when
   its timer is done, reads the second item and gives out the end; the debouncer gives the item out.
   */
  lemma ThrottleDropsWhatDebounceKeeps(period: nat)
    ensures Run(period, TWO_ITEMS, [0, period]).log ==
            [Began(false), Read(1, 0), Emit(1, 0, false), Began(true), Read(2, period), Over(period)]
    ensures Debounces.Run(period, TWO_ITEMS, [0]).log ==
            [Began(false), Read(1, 0), Read(2, 0), Emit(2, 0, true)]
  {
    ThrottleOfTwoItems(period);
    DebounceOfTwoItems(period);
  }
}
