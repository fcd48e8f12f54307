/**
 The world that the two rate limiters live in: an inner stream that is polled, a clock, and the log
 of everything that a run of polls does.

 The inner stream is a script of replies. Every reply says how long the clock ran before the reply
 was there, so the clock never goes back and any interleaving of arrivals, polls and delays is some
 script together with some list of gaps between polls. A script may go on after its end marker,
 since a stream promises nothing about polls after the end. A script that has run out is pending.
 */
module Streams {
  import opened Wrappers

  datatype Poll<+T> = Ready(value: T) | Pending

  /** `Ready(None)` is the end of the stream. */
  datatype Reply<+T> = Reply(elapsed: nat, result: Poll<Option<T>>)

  function Head<T>(script: seq<Reply<T>>): Reply<T> {
    if script == [] then Reply(0, Pending) else script[0]
  }

  function Tail<T>(script: seq<Reply<T>>): seq<Reply<T>> {
    if script == [] then [] else script[1..]
  }

  /** The inner stream. */
  class Source<T> {
    var script: seq<Reply<T>>

    constructor (script: seq<Reply<T>>)
      ensures this.script == script
    {
      this.script := script;
    }

    method PollNext(now: nat) returns (result: Poll<Option<T>>, clock: nat)
      modifies this
      ensures script == Tail(old(script))
      ensures result == Head(old(script)).result
      ensures clock == now + Head(old(script)).elapsed
    {
      var reply := Head(script);
      script := Tail(script);
      result, clock := reply.result, now + reply.elapsed;
    }
  }

  /** Whether polling a timer with this deadline finds it done. */
  predicate TimerDone(timer: Option<nat>, now: nat) {
    timer.Some? && timer.value <= now
  }

  /**
   What a run does, in order: a poll of the limiter begins (`expired` says that it found its timer
   expired), an item of the inner stream is read, an item is given out (`flushed` when the end of
   the inner stream rather than a timer drove it out), and the end is given out.
   */
  datatype Event<+T> =
    | Began(expired: bool)
    | Read(item: T, at: nat)
    | Emit(item: T, at: nat, flushed: bool)
    | Over(at: nat)

  /** What polling the inner stream until it is pending or has ended finds. */
  datatype Drained<+T> = Drained(rest: seq<Reply<T>>, clock: nat, read: seq<Event<T>>, closed: bool)

  ghost function Drain<T>(script: seq<Reply<T>>, now: nat): (d: Drained<T>)
    ensures now <= d.clock
    ensures forall k :: 0 <= k < |d.read| ==> d.read[k].Read? && now <= d.read[k].at <= d.clock
    decreases |script|
  {
    var clock := now + Head(script).elapsed;
    match Head(script).result
    case Pending => Drained(Tail(script), clock, [], false)
    case Ready(None) => Drained(Tail(script), clock, [], true)
    case Ready(Some(item)) =>
      var d := Drain(Tail(script), clock);
      Drained(d.rest, d.clock, [Read(item, clock)] + d.read, d.closed)
  }

  /** How many replies that takes. */
  ghost function Drawn<T>(script: seq<Reply<T>>): (n: nat)
    ensures n <= |script|
  {
    if script == [] then 0
    else if script[0].result.Ready? && script[0].result.value.Some? then 1 + Drawn(script[1..])
    else 1
  }

  /** The items among some replies. */
  ghost function Arrivals<T>(script: seq<Reply<T>>): seq<T> {
    if script == [] then []
    else if script[0].result.Ready? && script[0].result.value.Some? then
      [script[0].result.value.value] + Arrivals(script[1..])
    else Arrivals(script[1..])
  }

  ghost predicate IsEnd<T>(reply: Reply<T>) {
    reply.result == Ready(None)
  }

  lemma {:induction false} DrainFollowsTheScript<T>(script: seq<Reply<T>>, now: nat)
    ensures Drain(script, now).rest == script[Drawn(script)..]
    ensures Drain(script, now).closed <==> 0 < Drawn(script) && IsEnd(script[Drawn(script) - 1])
    ensures forall k :: 0 <= k < Drawn(script) - 1 ==> !IsEnd(script[k])
    ensures forall k :: 0 <= k < Drawn(script) - 1 ==> script[k].result.Ready?
    ensures 0 < Drawn(script) < |script| ==>
              script[Drawn(script) - 1].result.Pending? || IsEnd(script[Drawn(script) - 1])
    decreases |script|
  {
    if script != [] && script[0].result.Ready? && script[0].result.value.Some? {
      DrainFollowsTheScript(script[1..], now + script[0].elapsed);
    }
  }

  lemma DrawnIsPositive<T>(script: seq<Reply<T>>)
    ensures script != [] ==> Drawn(script) > 0
  {
  }

  lemma {:induction false} DrainReadsTheArrivals<T>(script: seq<Reply<T>>, now: nat)
    ensures Items(Drain(script, now).read) == Arrivals(script[..Drawn(script)])
    decreases |script|
  {
    if script != [] && script[0].result.Ready? && script[0].result.value.Some? {
      var clock := now + script[0].elapsed;
      var first := Read(script[0].result.value.value, clock);
      var inner := Drain(script[1..], clock).read;
      DrainReadsTheArrivals(script[1..], clock);
      assert script[..Drawn(script)][1..] == script[1..][..Drawn(script[1..])];
      assert Items([first] + inner) == [first.item] + Items(inner);
    } else if script != [] {
      assert script[..1][1..] == [];
    }
  }

  /** How long the clock runs over some replies. */
  ghost function Elapsed<T>(script: seq<Reply<T>>): nat {
    if script == [] then 0 else script[0].elapsed + Elapsed(script[1..])
  }

  /** Reading out takes as long as the replies that it takes, and reads every item when it arrives. */
  lemma {:induction false} DrainTakesItsTime<T>(script: seq<Reply<T>>, now: nat)
    ensures var d, n := Drain(script, now), Drawn(script);
            && d.clock == now + Elapsed(script[..n])
            && |d.read| <= n
            && forall k :: 0 <= k < |d.read| ==> d.read[k].at == now + Elapsed(script[..k + 1])
    decreases |script|
  {
    var n := Drawn(script);
    if script != [] && script[0].result.Ready? && script[0].result.value.Some? {
      var clock := now + script[0].elapsed;
      var inner := Drain(script[1..], clock);
      DrainTakesItsTime(script[1..], clock);
      assert script[..n][1..] == script[1..][..n - 1];
      forall k | 0 <= k < |inner.read| + 1
        ensures Drain(script, now).read[k].at == now + Elapsed(script[..k + 1])
      {
        assert script[..k + 1][1..] == script[1..][..k];
      }
    } else if script != [] {
      assert script[..1][1..] == [];
    }
  }

  lemma {:induction false} ArrivalsAppend<T>(a: seq<Reply<T>>, b: seq<Reply<T>>)
    ensures Arrivals(a + b) == Arrivals(a) + Arrivals(b)
  {
    if a == [] {
      assert a + b == b;
    } else {
      assert (a + b)[1..] == a[1..] + b;
      ArrivalsAppend(a[1..], b);
    }
  }

  /** The log has read exactly the items of the replies that are gone from the script. */
  ghost predicate Accounted<T>(all: seq<Reply<T>>, rest: seq<Reply<T>>, log: seq<Event<T>>) {
    && |rest| <= |all|
    && rest == all[|all| - |rest|..]
    && Reads(log) == Arrivals(all[..|all| - |rest|])
  }

  lemma AccountedStep<T>(all: seq<Reply<T>>, rest: seq<Reply<T>>, log: seq<Event<T>>,
                         n: nat, taken: seq<Event<T>>)
    requires Accounted(all, rest, log) && n <= |rest| && AllReads(taken)
    requires Items(taken) == Arrivals(rest[..n])
    ensures Accounted(all, rest[n..], log + taken)
  {
    hide CutLog, Emits, Arrivals, Reads;
    var gone := |all| - |rest|;
    assert all[..gone + n] == all[..gone] + rest[..n];
    ArrivalsAppend(all[..gone], rest[..n]);
    CutReads(log, taken);
  }

  /** A drain that some reads come before. */
  ghost function Before<T>(taken: seq<Event<T>>, d: Drained<T>): Drained<T> {
    d.(read := taken + d.read)
  }

  /** A drain after one more reply. */
  lemma DrainOneReply<T>(taken: seq<Event<T>>, script: seq<Reply<T>>, now: nat)
    ensures var clock := now + Head(script).elapsed;
            Before(taken, Drain(script, now)) ==
            match Head(script).result
            case Pending => Drained(Tail(script), clock, taken, false)
            case Ready(None) => Drained(Tail(script), clock, taken, true)
            case Ready(Some(item)) => Before(taken + [Read(item, clock)], Drain(Tail(script), clock))
  {
    var clock := now + Head(script).elapsed;
    match Head(script).result
    case Ready(Some(item)) =>
      var more := Drain(Tail(script), clock).read;
      assert taken + ([Read(item, clock)] + more) == taken + [Read(item, clock)] + more;
    case _ =>
  }

  ghost function Last<T>(s: seq<T>): T
    requires s != []
  {
    s[|s| - 1]
  }

  ghost function Flatten<T>(parts: seq<seq<T>>): seq<T> {
    if parts == [] then [] else Flatten(parts[..|parts| - 1]) + Last(parts)
  }

  /** What the caller of a poll with this log is told. */
  ghost function Answer<T>(log: seq<Event<T>>): Poll<Option<T>> {
    if log == [] then Pending
    else match Last(log)
      case Emit(item, _, _) => Ready(Some(item))
      case Over(_) => Ready(None)
      case _ => Pending
  }

  // Observers of a log. None of them knows how a limiter works.

  ghost function Reads<T>(log: seq<Event<T>>): seq<T> {
    if log == [] then [] else
      Reads(log[..|log| - 1]) + if Last(log).Read? then [Last(log).item] else []
  }

  ghost function Emits<T>(log: seq<Event<T>>): seq<Event<T>>
    ensures forall k :: 0 <= k < |Emits(log)| ==> Emits(log)[k].Emit?
  {
    if log == [] then [] else
      Emits(log[..|log| - 1]) + if Last(log).Emit? then [Last(log)] else []
  }

  /** The reads of a log cut at each item given out, and at each end given out. */
  datatype Cut<+T> = Cut(bursts: seq<seq<T>>, dropped: seq<seq<T>>, open: seq<T>)

  ghost function CutLog<T>(log: seq<Event<T>>): Cut<T> {
    if log == [] then Cut([], [], []) else
      var c := CutLog(log[..|log| - 1]);
      match Last(log)
      case Began(_) => c
      case Read(item, _) => c.(open := c.open + [item])
      case Emit(_, _, _) => c.(bursts := c.bursts + [c.open], open := [])
      case Over(_) => c.(dropped := c.dropped + [c.open], open := [])
  }

  /** Each burst is there for one output and ends in it. */
  ghost predicate BurstsEndInOutputs<T>(log: seq<Event<T>>) {
    && |CutLog(log).bursts| == |Emits(log)|
    && forall k :: 0 <= k < |Emits(log)| ==>
         CutLog(log).bursts[k] != [] && Last(CutLog(log).bursts[k]) == Emits(log)[k].item
  }

  ghost predicate AllReads<T>(events: seq<Event<T>>) {
    forall k :: 0 <= k < |events| ==> events[k].Read?
  }

  ghost function Items<T>(events: seq<Event<T>>): seq<T>
    requires AllReads(events)
  {
    seq(|events|, k requires 0 <= k < |events| => events[k].item)
  }

  lemma Snoc<T>(log: seq<Event<T>>, e: Event<T>)
    ensures Reads(log + [e]) == Reads(log) + if e.Read? then [e.item] else []
    ensures Emits(log + [e]) == Emits(log) + if e.Emit? then [e] else []
    ensures CutLog(log + [e]) ==
            var c := CutLog(log);
            match e
            case Began(_) => c
            case Read(item, _) => c.(open := c.open + [item])
            case Emit(_, _, _) => c.(bursts := c.bursts + [c.open], open := [])
            case Over(_) => c.(dropped := c.dropped + [c.open], open := [])
  {
    assert (log + [e])[..|log + [e]| - 1] == log;
  }

  lemma ItemsSnoc<T>(taken: seq<Event<T>>, e: Event<T>)
    requires AllReads(taken) && e.Read?
    ensures Items(taken + [e]) == Items(taken) + [e.item]
  {
  }

  /** Reading on only lengthens the open burst. */
  lemma {:induction false} CutReads<T>(log: seq<Event<T>>, taken: seq<Event<T>>)
    requires AllReads(taken)
    ensures Reads(log + taken) == Reads(log) + Items(taken)
    ensures Emits(log + taken) == Emits(log)
    ensures CutLog(log + taken) == CutLog(log).(open := CutLog(log).open + Items(taken))
  {
    hide CutLog, Reads, Emits;
    if taken == [] {
      assert log + taken == log && Items(taken) == [];
    } else {
      hide Items;
      var shorter, e := taken[..|taken| - 1], Last(taken);
      CutReads(log, shorter);
      ItemsSnoc(shorter, e);
      Snoc(log + shorter, e);
      assert shorter + [e] == taken;
      assert log + taken == (log + shorter) + [e];
    }
  }

  /** When the latest read of a log was. */
  ghost function LatestReadAt<T>(log: seq<Event<T>>): Option<nat> {
    if log == [] then None
    else if Last(log).Read? then Some(Last(log).at)
    else LatestReadAt(log[..|log| - 1])
  }

  lemma {:induction false} LatestReadIs<T>(log: seq<Event<T>>, j: nat)
    requires j < |log| && log[j].Read? && forall k :: j < k < |log| ==> !log[k].Read?
    ensures LatestReadAt(log) == Some(log[j].at)
  {
    if j < |log| - 1 {
      LatestReadIs(log[..|log| - 1], j);
    }
  }

  ghost function LastOf<T>(items: seq<T>): Option<T> {
    if items == [] then None else Some(Last(items))
  }

  /** Nothing but polls beginning lies strictly between two places of a log. */
  ghost predicate Quiet<T>(log: seq<Event<T>>, j: int, k: int) {
    forall m :: 0 <= m < |log| && j < m < k ==> log[m].Began?
  }

  /** Everything that carries a time happens in the order of the log, and none of it after `clock`. */
  ghost predicate Ordered<T>(log: seq<Event<T>>, clock: nat) {
    && (forall k :: 0 <= k < |log| && !log[k].Began? ==> log[k].at <= clock)
    && forall j, k :: 0 <= j < k < |log| && !log[j].Began? && !log[k].Began? ==> log[j].at <= log[k].at
  }

  lemma OrderedOn<T>(log: seq<Event<T>>, clock: nat, more: seq<Event<T>>, later: nat)
    requires Ordered(log, clock) && Ordered(more, later) && clock <= later
    requires forall k :: 0 <= k < |more| && !more[k].Began? ==> clock <= more[k].at
    ensures Ordered(log + more, later)
  {
    var all := log + more;
    forall j, k | 0 <= j < k < |all| && !all[j].Began? && !all[k].Began?
      ensures all[j].at <= all[k].at
    {
      if k < |log| {
        assert all[j] == log[j] && all[k] == log[k];
      } else if j < |log| {
        assert all[j] == log[j] && all[k] == more[k - |log|];
      } else {
        assert all[j] == more[j - |log|] && all[k] == more[k - |log|];
      }
    }
  }

  lemma {:induction false} DrainIsOrdered<T>(script: seq<Reply<T>>, now: nat)
    ensures Ordered(Drain(script, now).read, Drain(script, now).clock)
    decreases |script|
  {
    match Head(script).result
    case Ready(Some(item)) =>
      var clock := now + Head(script).elapsed;
      DrainIsOrdered(Tail(script), clock);
      OrderedOn([Read(item, clock)], clock, Drain(Tail(script), clock).read, Drain(script, now).clock);
    case _ =>
  }

  /** What the observers see of one poll that read some items and gave nothing out. */
  lemma CutQuietPoll<T>(log: seq<Event<T>>, began: Event<T>, taken: seq<Event<T>>)
    requires began.Began? && AllReads(taken)
    ensures Emits(log + ([began] + taken)) == Emits(log)
    ensures CutLog(log + ([began] + taken)).bursts == CutLog(log).bursts
    ensures CutLog(log + ([began] + taken)).dropped == CutLog(log).dropped
    ensures CutLog(log + ([began] + taken)).open == CutLog(log).open + Items(taken)
  {
    Snoc(log, began);
    CutReads(log + [began], taken);
    assert (log + [began]) + taken == log + ([began] + taken);
  }

  /** What the observers see of one poll that read some items and then gave one out. */
  lemma CutEmittingPoll<T>(log: seq<Event<T>>, began: Event<T>, taken: seq<Event<T>>, last: Event<T>)
    requires began.Began? && AllReads(taken) && last.Emit?
    ensures Emits(log + ([began] + taken + [last])) == Emits(log) + [last]
    ensures CutLog(log + ([began] + taken + [last])) ==
            Cut(CutLog(log).bursts + [CutLog(log).open + Items(taken)], CutLog(log).dropped, [])
  {
    CutQuietPoll(log, began, taken);
    Snoc(log + ([began] + taken), last);
    assert (log + ([began] + taken)) + [last] == log + ([began] + taken + [last]);
  }

  /** A poll that gives out the last item of the open burst keeps the bursts in order. */
  lemma BurstCompleted<T>(log: seq<Event<T>>, began: Event<T>, taken: seq<Event<T>>, last: Event<T>)
    requires began.Began? && AllReads(taken) && last.Emit? && BurstsEndInOutputs(log)
    requires CutLog(log).open + Items(taken) != []
    requires Last(CutLog(log).open + Items(taken)) == last.item
    ensures BurstsEndInOutputs(log + ([began] + taken + [last]))
  {
    CutEmittingPoll(log, began, taken, last);
  }

  /** What the observers see of one poll that read some items and then gave out the end. */
  lemma CutEndingPoll<T>(log: seq<Event<T>>, began: Event<T>, taken: seq<Event<T>>, last: Event<T>)
    requires began.Began? && AllReads(taken) && last.Over?
    ensures Emits(log + ([began] + taken + [last])) == Emits(log)
    ensures CutLog(log + ([began] + taken + [last])) ==
            Cut(CutLog(log).bursts, CutLog(log).dropped + [CutLog(log).open + Items(taken)], [])
  {
    CutQuietPoll(log, began, taken);
    Snoc(log + ([began] + taken), last);
    assert (log + ([began] + taken)) + [last] == log + ([began] + taken + [last]);
  }

  /** When every drop of an ended stream is empty, the bursts and the open one are all that was read. */
  lemma {:induction false} NothingElseWasRead<T>(log: seq<Event<T>>)
    requires forall k :: 0 <= k < |CutLog(log).dropped| ==> CutLog(log).dropped[k] == []
    ensures Reads(log) == Flatten(CutLog(log).bursts) + CutLog(log).open
  {
    if log != [] {
      var before := log[..|log| - 1];
      var c := CutLog(before);
      assert c.dropped <= CutLog(log).dropped;
      NothingElseWasRead(before);
      if Last(log).Emit? {
        assert CutLog(log).bursts[..|c.bursts|] == c.bursts;
      } else if Last(log).Over? {
        assert Last(CutLog(log).dropped) == c.open;
      }
    }
  }

  /** Of the replies that are gone from the script, only the last may be the end, and is if `ended`. */
  ghost predicate GoneUpToTheEnd<T>(all: seq<Reply<T>>, rest: seq<Reply<T>>, ended: bool) {
    && |rest| <= |all|
    && (ended ==> |rest| < |all|)
    && forall k :: 0 <= k < |all| - |rest| ==> (IsEnd(all[k]) <==> ended && k == |all| - |rest| - 1)
  }

  lemma GoneOn<T>(all: seq<Reply<T>>, rest: seq<Reply<T>>, n: nat, ended: bool)
    requires GoneUpToTheEnd(all, rest, false) && rest == all[|all| - |rest|..] && n <= |rest|
    requires forall k :: 0 <= k < n - 1 ==> !IsEnd(rest[k])
    requires ended <==> 0 < n && IsEnd(rest[n - 1])
    ensures GoneUpToTheEnd(all, rest[n..], ended)
  {
    var gone := |all| - |rest|;
    forall k | gone <= k < gone + n
      ensures IsEnd(all[k]) <==> ended && k == gone + n - 1
    {
      assert all[k] == rest[k - gone];
    }
  }
}
