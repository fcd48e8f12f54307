/**
 The debouncing stream (app/src/debounce.rs): it hands on only the last item of each burst, once the
 burst has been quiet for `period`.

 `Debounce` is the stream as it is written, one poll at a time. `Turn` is what one poll does, and
 `Run` is any schedule of polls over any script of the inner stream. The lemmas are about every run.
 */
module Debounces {
  import opened Wrappers
  import opened Streams

  datatype State<+T> =
    State(script: seq<Reply<T>>, timer: Option<nat>, lastItem: Option<T>, hasExpired: bool)

  datatype Outcome<+T> =
    Outcome(state: State<T>, clock: nat, log: seq<Event<T>>, result: Poll<Option<T>>)

  function Given<T>(item: Option<T>, at: nat, flushed: bool): Event<T> {
    if item.Some? then Emit(item.value, at, flushed) else Over(at)
  }

  ghost function Held<T>(taken: seq<Event<T>>, before: Option<T>): Option<T>
    requires AllReads(taken)
  {
    if taken == [] then before else Some(Last(taken).item)
  }

  ghost function Armed<T>(period: nat, taken: seq<Event<T>>, before: Option<nat>): Option<nat>
    requires AllReads(taken)
  {
    if taken == [] then before else Some(Last(taken).at + period)
  }

  /** What a poll makes of what it found on the inner stream. */
  ghost function Settle<T>(period: nat, s: State<T>, now: nat, d: Drained<T>): Outcome<T>
    requires AllReads(d.read)
  {
    var held, timer := Held(d.read, s.lastItem), Armed(period, d.read, s.timer);
    var log := [Began(TimerDone(s.timer, now))] + d.read;
    if d.closed then
      Outcome(State(d.rest, None, None, true), d.clock,
              log + [Given(held, d.clock, true)], Ready(held))
    else if TimerDone(timer, d.clock) then
      Outcome(State(d.rest, None, None, false), d.clock,
              log + [Given(held, d.clock, false)], Ready(held))
    else
      Outcome(State(d.rest, timer, held, false), d.clock, log, Pending)
  }

  /** One poll. */
  ghost function Turn<T>(period: nat, s: State<T>, now: nat): Outcome<T> {
    if s.hasExpired then
      Outcome(s, now, [Began(false), Over(now)], Ready(None))
    else
      Settle(period, s, now, Drain(s.script, now))
  }

  class Debounce<T> {
    const period: nat
    const stream: Source<T>
    var timer: Option<nat>
    var lastItem: Option<T>
    var hasExpired: bool

    ghost function View(): State<T>
      reads this, stream
    {
      State(stream.script, timer, lastItem, hasExpired)
    }

    constructor (period: nat, stream: Source<T>)
      ensures this.period == period && this.stream == stream
      ensures View() == State(stream.script, None, None, false)
    {
      this.period, this.stream := period, stream;
      timer, lastItem, hasExpired := None, None, false;
    }

    /** Read out everything that the inner stream has, and say whether it has ended. */
    method ReadOut(now: nat) returns (closed: bool, clock: nat)
      modifies this`timer, this`lastItem, stream
      ensures var d := Drain(old(stream.script), now);
              && stream.script == d.rest && clock == d.clock && closed == d.closed
              && lastItem == Held(d.read, old(lastItem)) && timer == Armed(period, d.read, old(timer))
    {
      hide Drain;
      clock := now;
      ghost var d := Drain(stream.script, now);
      ghost var taken: seq<Event<T>> := [];
      while true
        invariant AllReads(taken)
        invariant lastItem == Held(taken, old(lastItem)) && timer == Armed(period, taken, old(timer))
        invariant d == Before(taken, Drain(stream.script, clock))
        decreases |stream.script|
      {
        DrainOneReply(taken, stream.script, clock);
        var reply;
        reply, clock := stream.PollNext(clock);
        match reply
        case Ready(Some(item)) =>
          lastItem := Some(item);
          timer := Some(clock + period);
          taken := taken + [Read(item, clock)];
        case Ready(None) =>
          return true, clock;
        case Pending =>
          return false, clock;
      }
    }

    method PollNext(now: nat) returns (result: Poll<Option<T>>, clock: nat)
      modifies this, stream
      ensures View() == Turn(period, old(View()), now).state
      ensures clock == Turn(period, old(View()), now).clock
      ensures result == Turn(period, old(View()), now).result
    {
      if hasExpired {
        return Ready(None), now;
      }
      var closed;
      closed, clock := ReadOut(now);
      if closed {
        timer := None;
        hasExpired := true;
        result := Ready(lastItem);
        lastItem := None;
      } else if timer.Some? {
        if clock < timer.value {
          return Pending, clock;
        }
        timer := None;
        result := Ready(lastItem);
        lastItem := None;
      } else {
        return Pending, clock;
      }
    }
  }

  // Runs: polls of a fresh debouncer, each some gap after the one before.

  datatype World<+T> = World(state: State<T>, clock: nat, log: seq<Event<T>>)

  ghost function Poll<T>(period: nat, w: World<T>, gap: nat): World<T> {
    var o := Turn(period, w.state, w.clock + gap);
    World(o.state, o.clock, w.log + o.log)
  }

  ghost function Run<T>(period: nat, script: seq<Reply<T>>, gaps: seq<nat>): World<T> {
    if gaps == [] then World(State(script, None, None, false), 0, [])
    else Poll(period, Run(period, script, gaps[..|gaps| - 1]), Last(gaps))
  }

  /** The held item and the timer come and go together, and the held item ends the open burst. */
  ghost predicate HoldsTheOpenBurst<T>(w: World<T>) {
    && (w.state.timer.Some? <==> w.state.lastItem.Some?)
    && (w.state.hasExpired ==> w.state.lastItem.None?)
    && (CutLog(w.log).open == [] <==> w.state.lastItem.None?)
    && (w.state.lastItem.Some? ==> Last(CutLog(w.log).open) == w.state.lastItem.value)
  }

  ghost predicate NothingDropped<T>(log: seq<Event<T>>) {
    forall k :: 0 <= k < |CutLog(log).dropped| ==> CutLog(log).dropped[k] == []
  }

  /** Reading on moves the held item along with the end of the open burst. */
  lemma HeldEndsTheOpenBurst<T>(open: seq<T>, d: Drained<T>, before: Option<T>)
    requires AllReads(d.read)
    requires open == [] <==> before.None?
    requires before.Some? ==> Last(open) == before.value
    ensures open + Items(d.read) == [] <==> Held(d.read, before).None?
    ensures Held(d.read, before).Some? ==> Last(open + Items(d.read)) == Held(d.read, before).value
  {
  }

  lemma SettleKeepsTheBursts<T>(period: nat, w: World<T>, now: nat, d: Drained<T>)
    requires HoldsTheOpenBurst(w) && BurstsEndInOutputs(w.log) && NothingDropped(w.log)
    requires AllReads(d.read) && !w.state.hasExpired
    ensures var o := Settle(period, w.state, now, d);
            && HoldsTheOpenBurst(World(o.state, o.clock, w.log + o.log))
            && BurstsEndInOutputs(w.log + o.log)
            && NothingDropped(w.log + o.log)
  {
    var began := Began(TimerDone(w.state.timer, now));
    var held, timer := Held(d.read, w.state.lastItem), Armed(period, d.read, w.state.timer);
    HeldEndsTheOpenBurst(CutLog(w.log).open, d, w.state.lastItem);
    if d.closed || TimerDone(timer, d.clock) {
      var last := Given(held, d.clock, d.closed);
      if held.Some? {
        BurstCompleted(w.log, began, d.read, last);
        CutEmittingPoll(w.log, began, d.read, last);
      } else {
        CutEndingPoll(w.log, began, d.read, last);
      }
    } else {
      CutQuietPoll(w.log, began, d.read);
    }
  }

  lemma PollKeepsTheBursts<T>(period: nat, w: World<T>, gap: nat)
    requires HoldsTheOpenBurst(w) && BurstsEndInOutputs(w.log) && NothingDropped(w.log)
    ensures HoldsTheOpenBurst(Poll(period, w, gap))
    ensures BurstsEndInOutputs(Poll(period, w, gap).log)
    ensures NothingDropped(Poll(period, w, gap).log)
  {
    hide Drain, CutLog, Emits;
    var s, now := w.state, w.clock + gap;
    if s.hasExpired {
      assert Turn(period, s, now).log == [Began(false)] + [] + [Over(now)];
      CutEndingPoll(w.log, Began(false), [], Over(now));
    } else {
      SettleKeepsTheBursts(period, w, now, Drain(s.script, now));
    }
  }

  /**
   In every run the items read split into consecutive non-empty bursts that end in exactly the
   outputs, plus one open burst that ends in the held item and is empty when nothing is held.
   */
  lemma {:induction false} BurstsOfEveryRun<T>(period: nat, script: seq<Reply<T>>, gaps: seq<nat>)
    ensures var w := Run(period, script, gaps);
            && BurstsEndInOutputs(w.log)
            && Reads(w.log) == Flatten(CutLog(w.log).bursts) + CutLog(w.log).open
            && HoldsTheOpenBurst(w)
            && NothingDropped(w.log)
  {
    if gaps != [] {
      BurstsOfEveryRun(period, script, gaps[..|gaps| - 1]);
      PollKeepsTheBursts(period, Run(period, script, gaps[..|gaps| - 1]), Last(gaps));
    }
    NothingElseWasRead(Run(period, script, gaps).log);
  }

  // Times.

  /** The latest read of a log is at `j`, with only polls beginning since. */
  ghost predicate LatestRead<T>(log: seq<Event<T>>, j: nat, item: T, at: nat) {
    j < |log| && log[j] == Read(item, at) && Quiet(log, j, |log|)
  }

  /** A running timer was set by the latest read, which is of the held item. */
  ghost predicate TimerFollowsTheRead<T>(period: nat, w: World<T>) {
    w.state.timer.Some? && w.state.lastItem.Some? ==>
      exists j: nat, at: nat :: at + period == w.state.timer.value
                                && LatestRead(w.log, j, w.state.lastItem.value, at)
  }

  /** The output at `k` was read at `j`, `period` or more before, and nothing was read in between. */
  ghost predicate DueSince<T>(period: nat, log: seq<Event<T>>, j: nat, k: nat) {
    && j < k < |log| && log[k].Emit? && log[j].Read? && Quiet(log, j, k)
    && log[j].item == log[k].item && log[j].at + period <= log[k].at
  }

  ghost predicate TimelyOutputs<T>(period: nat, log: seq<Event<T>>) {
    forall k: nat :: k < |log| && log[k].Emit? && !log[k].flushed ==>
      exists j: nat :: DueSince(period, log, j, k)
  }

  lemma TimelyStays<T>(period: nat, log: seq<Event<T>>, more: seq<Event<T>>)
    requires TimelyOutputs(period, log)
    requires forall k :: 0 <= k < |more| ==> !more[k].Emit? || more[k].flushed
    ensures TimelyOutputs(period, log + more)
  {
    var all := log + more;
    forall k: nat | k < |all| && all[k].Emit? && !all[k].flushed
      ensures exists j: nat :: DueSince(period, all, j, k)
    {
      if k < |log| {
        var j: nat :| DueSince(period, log, j, k);
        assert DueSince(period, all, j, k);
      }
    }
  }

  /** Reading on from a running timer, or from none, leaves the timer at the latest read. */
  lemma ReadingSetsTheTimer<T>(period: nat, w: World<T>, began: Event<T>, d: Drained<T>)
    requires began.Began? && AllReads(d.read) && TimerFollowsTheRead(period, w)
    requires w.state.timer.Some? <==> w.state.lastItem.Some?
    ensures TimerFollowsTheRead(period,
              World(State(d.rest, Armed(period, d.read, w.state.timer), Held(d.read, w.state.lastItem), false),
                    d.clock, w.log + ([began] + d.read)))
  {
    var log := w.log + ([began] + d.read);
    if d.read != [] {
      var last := Last(d.read);
      assert LatestRead(log, |log| - 1, last.item, last.at);
    } else if w.state.timer.Some? {
      var j: nat, at: nat :| at + period == w.state.timer.value
                             && LatestRead(w.log, j, w.state.lastItem.value, at);
      assert LatestRead(log, j, w.state.lastItem.value, at);
    }
  }

  lemma SettleKeepsTheTimes<T>(period: nat, w: World<T>, now: nat, d: Drained<T>)
    requires HoldsTheOpenBurst(w) && TimerFollowsTheRead(period, w) && TimelyOutputs(period, w.log)
    requires AllReads(d.read) && !w.state.hasExpired
    ensures var o := Settle(period, w.state, now, d);
            && TimerFollowsTheRead(period, World(o.state, o.clock, w.log + o.log))
            && TimelyOutputs(period, w.log + o.log)
  {
    hide CutLog;
    var o := Settle(period, w.state, now, d);
    var began := Began(TimerDone(w.state.timer, now));
    var held, timer := Held(d.read, w.state.lastItem), Armed(period, d.read, w.state.timer);
    ReadingSetsTheTimer(period, w, began, d);
    var read := w.log + ([began] + d.read);
    if !d.closed && TimerDone(timer, d.clock) {
      TimelyStays(period, w.log, [began] + d.read);
      var j: nat, at: nat :| at + period == timer.value && LatestRead(read, j, held.value, at);
      var all := w.log + o.log;
      assert all == read + [Emit(held.value, d.clock, false)];
      assert DueSince(period, all, j, |read|);
      forall k: nat | k < |read| && read[k].Emit? && !read[k].flushed
        ensures exists j: nat :: DueSince(period, all, j, k)
      {
        var i: nat :| DueSince(period, read, i, k);
        assert DueSince(period, all, i, k);
      }
    } else {
      TimelyStays(period, w.log, o.log);
    }
  }

  lemma {:induction false} TimesOfEveryRun<T>(period: nat, script: seq<Reply<T>>, gaps: seq<nat>)
    ensures var w := Run(period, script, gaps);
            TimerFollowsTheRead(period, w) && TimelyOutputs(period, w.log)
  {
    hide Drain, CutLog, Reads, Emits;
    if gaps != [] {
      var w := Run(period, script, gaps[..|gaps| - 1]);
      TimesOfEveryRun(period, script, gaps[..|gaps| - 1]);
      BurstsOfEveryRun(period, script, gaps[..|gaps| - 1]);
      var now := w.clock + Last(gaps);
      if w.state.hasExpired {
        TimelyStays(period, w.log, Turn(period, w.state, now).log);
      } else {
        SettleKeepsTheTimes(period, w, now, Drain(w.state.script, now));
      }
    }
  }

  lemma SettleIsOrdered<T>(period: nat, s: State<T>, now: nat, d: Drained<T>)
    requires AllReads(d.read) && Ordered(d.read, d.clock) && now <= d.clock
    requires forall k :: 0 <= k < |d.read| ==> now <= d.read[k].at
    ensures var o := Settle(period, s, now, d);
            && o.clock == d.clock && Ordered(o.log, d.clock)
            && forall k :: 0 <= k < |o.log| && !o.log[k].Began? ==> now <= o.log[k].at
  {
    hide Held, Armed;
    var began := [Began(TimerDone(s.timer, now))];
    OrderedOn(began, now, d.read, d.clock);
    var o := Settle(period, s, now, d);
    if o.result != Pending {
      var given := [Last(o.log)];
      assert o.log == began + d.read + given;
      OrderedOn(began + d.read, d.clock, given, d.clock);
    }
  }

  lemma TurnIsOrdered<T>(period: nat, s: State<T>, now: nat)
    ensures var o := Turn(period, s, now);
            && now <= o.clock && Ordered(o.log, o.clock)
            && forall k :: 0 <= k < |o.log| && !o.log[k].Began? ==> now <= o.log[k].at
  {
    hide Drain;
    if !s.hasExpired {
      DrainIsOrdered(s.script, now);
      SettleIsOrdered(period, s, now, Drain(s.script, now));
    }
  }

  lemma {:induction false} EveryRunIsOrdered<T>(period: nat, script: seq<Reply<T>>, gaps: seq<nat>)
    ensures Ordered(Run(period, script, gaps).log, Run(period, script, gaps).clock)
  {
    hide Turn;
    if gaps != [] {
      var w := Run(period, script, gaps[..|gaps| - 1]);
      EveryRunIsOrdered(period, script, gaps[..|gaps| - 1]);
      TurnIsOrdered(period, w.state, w.clock + Last(gaps));
      var o := Turn(period, w.state, w.clock + Last(gaps));
      OrderedOn(w.log, w.clock, o.log, o.clock);
    }
  }

  /** Outputs that a timer drove out are `period` or more apart. */
  lemma TimerOutputsAreApart<T>(period: nat, script: seq<Reply<T>>, gaps: seq<nat>, i: nat, k: nat)
    requires var log := Run(period, script, gaps).log;
             && i < k < |log| && log[i].Emit? && log[k].Emit? && !log[k].flushed
    ensures var log := Run(period, script, gaps).log; log[i].at + period <= log[k].at
  {
    hide Run;
    var log := Run(period, script, gaps).log;
    TimesOfEveryRun(period, script, gaps);
    EveryRunIsOrdered(period, script, gaps);
    var j: nat :| DueSince(period, log, j, k);
    assert i < j;
  }

  // The inner stream.

  ghost predicate FollowsTheScript<T>(all: seq<Reply<T>>, w: World<T>) {
    && Accounted(all, w.state.script, w.log)
    && GoneUpToTheEnd(all, w.state.script, w.state.hasExpired)
    && forall k :: 0 <= k < |w.log| && w.log[k].Over? ==> w.state.hasExpired
  }

  lemma SettleIsAccounted<T>(period: nat, w: World<T>, now: nat, d: Drained<T>, all: seq<Reply<T>>)
    requires AllReads(d.read)
    requires Accounted(all, d.rest, w.log + ([Began(TimerDone(w.state.timer, now))] + d.read))
    ensures Accounted(all, d.rest, w.log + Settle(period, w.state, now, d).log)
  {
    var read := w.log + ([Began(TimerDone(w.state.timer, now))] + d.read);
    var log := w.log + Settle(period, w.state, now, d).log;
    if log != read {
      assert log == read + [Last(log)];
      Snoc(read, Last(log));
    }
  }

  /** The debouncer gives out the end only when it has just expired. */
  lemma SettleEndsOnlyAtTheEnd<T>(period: nat, w: World<T>, now: nat, d: Drained<T>)
    requires AllReads(d.read) && HoldsTheOpenBurst(w)
    requires forall k :: 0 <= k < |w.log| && w.log[k].Over? ==> w.state.hasExpired
    ensures var o := Settle(period, w.state, now, d);
            forall k :: 0 <= k < |w.log + o.log| && (w.log + o.log)[k].Over? ==>
              w.state.hasExpired || o.state.hasExpired
  {
  }

  lemma PollIsAccounted<T>(period: nat, all: seq<Reply<T>>, w: World<T>, gap: nat)
    requires Accounted(all, w.state.script, w.log)
    ensures Accounted(all, Poll(period, w, gap).state.script, Poll(period, w, gap).log)
  {
    hide Drain, CutLog, Reads, Emits, Arrivals, Drawn;
    var s, now := w.state, w.clock + gap;
    if s.hasExpired {
      Snoc(w.log, Began(false));
      Snoc(w.log + [Began(false)], Over(now));
      assert w.log + [Began(false)] + [Over(now)] == w.log + [Began(false), Over(now)];
    } else {
      var d, began := Drain(s.script, now), Began(TimerDone(s.timer, now));
      DrainFollowsTheScript(s.script, now);
      DrainReadsTheArrivals(s.script, now);
      Snoc(w.log, began);
      AccountedStep(all, s.script, w.log + [began], Drawn(s.script), d.read);
      assert w.log + [began] + d.read == w.log + ([began] + d.read);
      SettleIsAccounted(period, w, now, d, all);
    }
  }

  lemma PollFollowsTheScript<T>(period: nat, all: seq<Reply<T>>, w: World<T>, gap: nat)
    requires FollowsTheScript(all, w) && HoldsTheOpenBurst(w)
    ensures FollowsTheScript(all, Poll(period, w, gap))
  {
    hide Drain, Drawn, CutLog, Reads, Emits, Arrivals;
    PollIsAccounted(period, all, w, gap);
    if !w.state.hasExpired {
      var s, now := w.state, w.clock + gap;
      var d := Drain(s.script, now);
      DrainFollowsTheScript(s.script, now);
      GoneOn(all, s.script, Drawn(s.script), d.closed);
      SettleEndsOnlyAtTheEnd(period, w, now, d);
    }
  }

  /**
   In every run the items read are those of the replies polled for, one by one and in order; the
   limiter has expired exactly when it was told the end, and then it polled for nothing more; and it
   gives out the end only once it has expired.
   */
  lemma {:induction false} RunsFollowTheScript<T>(period: nat, script: seq<Reply<T>>, gaps: seq<nat>)
    ensures FollowsTheScript(script, Run(period, script, gaps))
  {
    if gaps == [] {
      assert script[..0] == [];
    } else {
      RunsFollowTheScript(period, script, gaps[..|gaps| - 1]);
      BurstsOfEveryRun(period, script, gaps[..|gaps| - 1]);
      PollFollowsTheScript(period, script, Run(period, script, gaps[..|gaps| - 1]), Last(gaps));
    }
  }

  /** Once the inner stream has ended, the last item that it had is the last output. */
  lemma TheLastItemIsNotLost<T>(period: nat, script: seq<Reply<T>>, gaps: seq<nat>)
    requires Run(period, script, gaps).state.hasExpired
    ensures var w := Run(period, script, gaps);
            && |w.state.script| < |script| && IsEnd(script[|script| - |w.state.script| - 1])
            && var arrived := Arrivals(script[..|script| - |w.state.script|]);
               arrived != [] ==> Emits(w.log) != [] && Last(Emits(w.log)).item == Last(arrived)
  {
    hide Run, Arrivals, Reads, CutLog, Emits;
    RunsFollowTheScript(period, script, gaps);
    BurstsOfEveryRun(period, script, gaps);
    var w := Run(period, script, gaps);
    assert Reads(w.log) == Flatten(CutLog(w.log).bursts);
  }

  /** After the end no poll reaches the inner stream or gives anything out. */
  lemma {:induction false} NothingAfterTheEnd<T>(period: nat, script: seq<Reply<T>>,
                                                 gaps: seq<nat>, more: seq<nat>)
    requires Run(period, script, gaps).state.hasExpired
    ensures Run(period, script, gaps + more).state == Run(period, script, gaps).state
    ensures Emits(Run(period, script, gaps + more).log) == Emits(Run(period, script, gaps).log)
  {
    hide CutLog, Reads, Emits, Drain;
    if more == [] {
      assert gaps + more == gaps;
    } else {
      assert (gaps + more)[..|gaps + more| - 1] == gaps + more[..|more| - 1];
      NothingAfterTheEnd(period, script, gaps, more[..|more| - 1]);
      var w := Run(period, script, gaps + more[..|more| - 1]);
      var now := w.clock + Last(more);
      CutEndingPoll(w.log, Began(false), [], Over(now));
      assert Turn(period, w.state, now).log == [Began(false)] + [] + [Over(now)];
    }
  }

  /** What a poll answers is what its log says it gave out. */
  lemma AnswersAreLogged<T>(period: nat, s: State<T>, now: nat)
    ensures Turn(period, s, now).result == Answer(Turn(period, s, now).log)
  {
    hide Drain;
    var o := Turn(period, s, now);
    assert o.result.Ready? ==> !Last(o.log).Read? && !Last(o.log).Began?;
  }

  /** After any poll, an item that is still held is not yet due, and the inner stream was polled until
      it was pending. */
  lemma NothingOverdueIsHeld<T>(period: nat, s: State<T>, now: nat)
    requires !s.hasExpired
    ensures var o := Turn(period, s, now);
            && (o.state.timer.Some? ==> o.clock < o.state.timer.value)
            && (!o.state.hasExpired && o.state.script != [] ==>
                  |o.state.script| < |s.script| && s.script[|s.script| - |o.state.script| - 1].result.Pending?)
  {
    DrainFollowsTheScript(s.script, now);
    DrawnIsPositive(s.script);
    hide Drain, Drawn;
  }

  // Answers.

  /** What a poll is answered. */
  ghost function AnswerOf<T>(period: nat, w: World<T>, gap: nat): Streams.Poll<Option<T>> {
    Turn(period, w.state, w.clock + gap).result
  }

  /** The end is among the replies that were polled for. */
  ghost predicate SawTheEnd<T>(script: seq<Reply<T>>, rest: seq<Reply<T>>) {
    exists k :: 0 <= k < |script| - |rest| && IsEnd(script[k])
  }

  lemma ExpiredMeansSawTheEnd<T>(script: seq<Reply<T>>, rest: seq<Reply<T>>, expired: bool)
    requires GoneUpToTheEnd(script, rest, expired)
    ensures expired <==> SawTheEnd(script, rest)
  {
    if expired {
      assert IsEnd(script[|script| - |rest| - 1]);
    }
  }

  lemma OpenBurstIsDue<T>(period: nat, w: World<T>, now: nat, d: Drained<T>)
    requires HoldsTheOpenBurst(w) && TimerFollowsTheRead(period, w) && AllReads(d.read)
    ensures var held, timer := Held(d.read, w.state.lastItem), Armed(period, d.read, w.state.timer);
            var read := w.log + ([Began(TimerDone(w.state.timer, now))] + d.read);
            && held == LastOf(CutLog(w.log).open + Items(d.read))
            && (held.Some? <==> timer.Some?)
            && (held.Some? ==> LatestReadAt(read) == Some(timer.value - period) && period <= timer.value)
  {
    hide CutLog;
    var began := Began(TimerDone(w.state.timer, now));
    var read := w.log + ([began] + d.read);
    HeldEndsTheOpenBurst(CutLog(w.log).open, d, w.state.lastItem);
    ReadingSetsTheTimer(period, w, began, d);
    var held, timer := Held(d.read, w.state.lastItem), Armed(period, d.read, w.state.timer);
    if held.Some? {
      var j: nat, at: nat :| at + period == timer.value && LatestRead(read, j, held.value, at);
      LatestReadIs(read, j);
    }
  }

  lemma OutputsAreNotRead<T>(log: seq<Event<T>>, e: Event<T>)
    requires !e.Read?
    ensures LatestReadAt(log + [e]) == LatestReadAt(log)
  {
    assert (log + [e])[..|log|] == log;
  }

  lemma SettledAnswers<T>(period: nat, w: World<T>, now: nat, d: Drained<T>)
    requires HoldsTheOpenBurst(w) && TimerFollowsTheRead(period, w) && AllReads(d.read)
    ensures var o := Settle(period, w.state, now, d);
            var open, readAt := CutLog(w.log).open + Items(d.read), LatestReadAt(w.log + o.log);
            && (open != [] ==> readAt.Some?)
            && o.result == if d.closed then Ready(LastOf(open))
                           else if open != [] && readAt.value + period <= d.clock then Ready(Some(Last(open)))
                           else Pending
  {
    hide CutLog, LatestReadAt, HoldsTheOpenBurst, TimerFollowsTheRead, Held, Armed, Items;
    var o := Settle(period, w.state, now, d);
    var read := w.log + ([Began(TimerDone(w.state.timer, now))] + d.read);
    OpenBurstIsDue(period, w, now, d);
    if w.log + o.log != read {
      assert w.log + o.log == read + [Last(o.log)];
      OutputsAreNotRead(read, Last(o.log));
    }
  }

  lemma AnswersBeforeTheEnd<T>(period: nat, w: World<T>, gap: nat)
    requires HoldsTheOpenBurst(w) && TimerFollowsTheRead(period, w) && !w.state.hasExpired
    ensures var v, answer := Poll(period, w, gap), AnswerOf(period, w, gap);
            var rest, n := w.state.script, Drawn(w.state.script);
            var open := CutLog(w.log).open + Arrivals(rest[..n]);
            && v.state.script == rest[n..] && v.clock == w.clock + gap + Elapsed(rest[..n])
            && (open != [] ==> LatestReadAt(v.log).Some?)
            && answer == if 0 < n && IsEnd(rest[n - 1]) then Ready(LastOf(open))
                         else if open != [] && LatestReadAt(v.log).value + period <= v.clock
                         then Ready(Some(Last(open)))
                         else Pending
  {
    hide CutLog, Arrivals, Drawn, Drain, Elapsed, LatestReadAt, HoldsTheOpenBurst, TimerFollowsTheRead, Settle, Items;
    var rest, now := w.state.script, w.clock + gap;
    var d := Drain(rest, now);
    DrainFollowsTheScript(rest, now);
    DrainReadsTheArrivals(rest, now);
    DrainTakesItsTime(rest, now);
    SettleGoesOn(period, w.state, now, d);
    SettledAnswers(period, w, now, d);
  }

  lemma SettleGoesOn<T>(period: nat, s: State<T>, now: nat, d: Drained<T>)
    requires AllReads(d.read)
    ensures Settle(period, s, now, d).state.script == d.rest && Settle(period, s, now, d).clock == d.clock
  {
  }

  /**
   What every poll of every run is answered, told from the replies and the log alone. Once the end has
   been polled for, every poll is answered with the end, and reaches nothing. Before that, a poll takes
   all replies up to one that is pending or the end; with the end it gives out the last item of the open
   burst, or the end when there is none; otherwise it gives out that item exactly when `period` has gone
   by since the latest read, and else it is pending.
   */
  lemma AnswersOfEveryRun<T>(period: nat, script: seq<Reply<T>>, gaps: seq<nat>, gap: nat)
    ensures var w := Run(period, script, gaps);
            var v, answer := Poll(period, w, gap), AnswerOf(period, w, gap);
            var rest, n := w.state.script, Drawn(w.state.script);
            if SawTheEnd(script, rest) then
              answer == Ready(None) && v.state.script == rest && v.clock == w.clock + gap
            else
              var open := CutLog(w.log).open + Arrivals(rest[..n]);
              && v.state.script == rest[n..] && v.clock == w.clock + gap + Elapsed(rest[..n])
              && (open != [] ==> LatestReadAt(v.log).Some?)
              && answer == if 0 < n && IsEnd(rest[n - 1]) then Ready(LastOf(open))
                           else if open != [] && LatestReadAt(v.log).value + period <= v.clock
                           then Ready(Some(Last(open)))
                           else Pending
  {
    hide Run, CutLog, Arrivals, Drawn, Drain, Elapsed, LatestReadAt, HoldsTheOpenBurst, TimerFollowsTheRead, Settle;
    var w := Run(period, script, gaps);
    RunsFollowTheScript(period, script, gaps);
    BurstsOfEveryRun(period, script, gaps);
    TimesOfEveryRun(period, script, gaps);
    ExpiredMeansSawTheEnd(script, w.state.script, w.state.hasExpired);
    if !w.state.hasExpired {
      AnswersBeforeTheEnd(period, w, gap);
    }
  }
}
