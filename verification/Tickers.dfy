/** Tickers beat exactly at the multiples of their interval. */
module Tickers {
  import opened Options
  import opened Schedules

  function Count<T(==)>(log: seq<Fired<T>>, id: T): nat {
    if log == [] then 0
    else Count(log[..|log| - 1], id) + if log[|log| - 1].id == id then 1 else 0
  }

  lemma CountAppend<T>(log: seq<Fired<T>>, f: Fired<T>, id: T)
    ensures Count(log + [f], id) == Count(log, id) + if f.id == id then 1 else 0
  {
    assert (log + [f])[..|log|] == log;
  }

  /** The time of the k-th beat of a ticker started at `s`. */
  function BeatTime(s: int, interval: nat, k: nat): int {
    if k == 0 then s else BeatTime(s, interval, k - 1) + interval
  }

  lemma {:induction false} BeatTimeIsMultiple(s: int, interval: nat, k: nat)
    ensures BeatTime(s, interval, k) == s + k * interval
  {
    if k > 0 { BeatTimeIsMultiple(s, interval, k - 1); }
  }

  ghost predicate Scheduled<T>(list: seq<Entry<T>>, id: T, interval: nat, when: int) {
    exists e :: e in list && e.id == id && e.interval == interval && !e.fn && e.when == when
  }

  /** Every beat in the log fell on its multiple of the interval. */
  ghost predicate BeatsOnTime<T>(log: seq<Fired<T>>, id: T, s: int, interval: nat) {
    forall j :: 0 <= j < |log| && log[j].id == id ==> log[j].when == BeatTime(s, interval, Count(log[..j], id) + 1)
  }

  lemma BeatsOnTimeAppend<T>(log: seq<Fired<T>>, f: Fired<T>, id: T, s: int, interval: nat)
    requires BeatsOnTime(log, id, s, interval)
    requires f.id == id ==> f.when == BeatTime(s, interval, Count(log, id) + 1)
    ensures BeatsOnTime(log + [f], id, s, interval)
  {
    forall j | 0 <= j < |log| + 1 ensures (log + [f])[..j] == log[..j] {}
  }

  /** The ticker is scheduled once, for the beat after those in the log, which all were on time. */
  ghost predicate Ticking<T>(c: Clock<T>, id: T, s: int, interval: nat) {
    var k := Count(c.log, id);
    && interval > 0 && BeatTime(s, interval, k) <= c.now
    && Occurrences(c.list, id) == 1 && Scheduled(c.list, id, interval, BeatTime(s, interval, k + 1))
    && BeatsOnTime(c.log, id, s, interval)
  }

  /** A new ticker that has not fired yet is ticking. */
  lemma {:induction false} NeverFired<T>(log: seq<Fired<T>>, id: T)
    requires forall j :: 0 <= j < |log| ==> log[j].id != id
    ensures Count(log, id) == 0
  {
    if log != [] { NeverFired(log[..|log| - 1], id); }
  }

  lemma StartTicks<T>(c: Clock<T>, id: T, interval: nat)
    requires interval > 0 && !Pending(c.list, id) && forall j :: 0 <= j < |c.log| ==> c.log[j].id != id
    ensures Ticking(AfterStart(c, id, interval, interval, false), id, c.now, interval)
  {
    NeverFired(c.log, id);
    var e := Entry(id, c.now + interval, interval, false, c.next);
    InsertMembers(c.list, e);
    OccurrencesPositive(c.list, id);
    OccurrencesOfInsert(c.list, e, id);
    assert BeatTime(c.now, interval, 1) == BeatTime(c.now, interval, 0) + interval;
  }

  lemma {:induction false} OnlyEntry<T>(list: seq<Entry<T>>, e: Entry<T>, x: Entry<T>)
    requires Occurrences(list, e.id) == 1 && e in list && x in list && x.id == e.id
    ensures x == e
  {
    if list[0].id == e.id {
      OccurrencesPositive(list[1..], e.id);
      PendingMeans(list[1..], e.id);
    } else {
      OnlyEntry(list[1..], e, x);
    }
  }

  lemma {:induction false} OccurrencesOfOthers<T>(list: seq<Entry<T>>, other: T, id: T, when: int)
    requires other != id
    ensures Occurrences(Unschedule(list, other), id) == Occurrences(list, id)
    ensures Occurrences(Rewrite(list, other, when), id) == Occurrences(list, id)
  {
    if list != [] {
      assert Rewrite(list, other, when)[1..] == Rewrite(list[1..], other, when);
      assert list[0].id != other ==> Unschedule(list, other)[1..] == Unschedule(list[1..], other);
      OccurrencesOfOthers(list[1..], other, id, when);
    }
  }

  lemma {:induction false} UnscheduleOthers<T>(list: seq<Entry<T>>, id: T, e: Entry<T>)
    requires e in list && e.id != id
    ensures e in Unschedule(list, id)
  {
    if list[0].id != id && list[0] != e { UnscheduleOthers(list[1..], id, e); }
  }

  lemma FireKeepsOnce<T>(c: Clock<T>, id: T)
    requires Occurrences(c.list, id) == 1 && Due(c) && (c.list[0].id == id ==> c.list[0].interval > 0)
    ensures Occurrences(AfterFire(c).list, id) == 1
  {
    var head := c.list[0];
    OccurrencesOfInsert(c.list[1..], head.(when := head.when + head.interval, born := c.next), id);
  }

  lemma FireKeepsEntry<T>(c: Clock<T>, e: Entry<T>)
    requires e in c.list && Due(c)
    ensures e != c.list[0] ==> e in AfterFire(c).list
    ensures e == c.list[0] && e.interval > 0 ==> e.(when := e.when + e.interval, born := c.next) in AfterFire(c).list
  {
    var head := c.list[0];
    InsertMembers(c.list[1..], head.(when := head.when + head.interval, born := c.next));
  }

  /** A firing moves a ticker's entry on by its interval if it was the head, and leaves it alone otherwise. */
  lemma FireKeepsScheduled<T>(c: Clock<T>, id: T, interval: nat, when: int)
    requires Occurrences(c.list, id) == 1 && Due(c) && interval > 0 && Scheduled(c.list, id, interval, when)
    ensures c.list[0].id == id ==> c.list[0].when == when
    ensures Scheduled(AfterFire(c).list, id, interval, if c.list[0].id == id then when + interval else when)
    ensures Occurrences(AfterFire(c).list, id) == 1
  {
    var e :| e in c.list && e.id == id && e.interval == interval && !e.fn && e.when == when;
    if c.list[0].id == id { OnlyEntry(c.list, e, c.list[0]); }
    FireKeepsOnce(c, id);
    FireKeepsEntry(c, e);
  }

  lemma FireKeepsTicking<T>(c: Clock<T>, id: T, s: int, interval: nat)
    requires Due(c) && Ticking(c, id, s, interval)
    ensures Ticking(AfterFire(c), id, s, interval)
  {
    var k, head, c' := Count(c.log, id), c.list[0], AfterFire(c);
    var f := Fired(head.id, head.when, head.born);
    FireKeepsScheduled(c, id, interval, BeatTime(s, interval, k + 1));
    assert c'.log == c.log + [f] && c'.now == c.now;
    CountAppend(c.log, f, id);
    BeatsOnTimeAppend(c.log, f, id, s, interval);
    assert BeatTime(s, interval, k + 2) == BeatTime(s, interval, k + 1) + interval;
  }

  lemma StartKeepsOthers<T>(c: Clock<T>, other: T, d: int, interval: nat, fn: bool, e: Entry<T>)
    requires e in c.list && e.id != other
    ensures e in AfterStart(c, other, d, interval, fn).list
    ensures Occurrences(AfterStart(c, other, d, interval, fn).list, e.id) == Occurrences(c.list, e.id)
  {
    var added := Entry(other, c.now + d, interval, fn, c.next);
    InsertMembers(c.list, added);
    OccurrencesOfInsert(c.list, added, e.id);
  }

  lemma StopKeepsOthers<T>(c: Clock<T>, other: T, e: Entry<T>)
    requires e in c.list && e.id != other
    ensures e in AfterStop(c, other).list && Occurrences(AfterStop(c, other).list, e.id) == Occurrences(c.list, e.id)
  {
    UnscheduleOthers(c.list, other, e);
    OccurrencesOfOthers(c.list, other, e.id, 0);
  }

  lemma MoveKeepsOthers<T>(list: seq<Entry<T>>, other: T, when: int, again: Entry<T>, e: Entry<T>)
    requires e in list && e.id != other && again.id == other
    ensures e in Insert(Rewrite(list, other, when), again)
    ensures Occurrences(Insert(Rewrite(list, other, when), again), e.id) == Occurrences(list, e.id)
  {
    RewriteHas(list, other, when, e);
    OccurrencesOfOthers(list, other, e.id, when);
    InsertMembers(Rewrite(list, other, when), again);
    OccurrencesOfInsert(Rewrite(list, other, when), again, e.id);
  }

  lemma ResetKeepsOthers<T>(c: Clock<T>, other: T, d: int, fn: bool, e: Entry<T>)
    requires e in c.list && e.id != other
    ensures e in AfterReset(c, other, d, fn).list
    ensures Occurrences(AfterReset(c, other, d, fn).list, e.id) == Occurrences(c.list, e.id)
  {
    var c1 := AfterStop(c, other);
    StopKeepsOthers(c, other, e);
    ResetMoves(c, other, d, fn);
    MoveKeepsOthers(c1.list, other, c.now + d, Entry(other, c.now + d, 0, fn, c1.next), e);
  }

  /** The step is not about the timer's own starting, stopping or resetting, and does not turn the clock back. */
  ghost predicate LeavesAlone<T>(step: Step<T>, id: T) {
    match step
    case Elapse(d) => d >= 0
    case Start(other, _, _, _) => other != id
    case Stop(other) => other != id
    case Reset(other, _, _) => other != id
    case _ => true
  }

  ghost predicate AllLeaveAlone<T>(steps: seq<Step<T>>, id: T) {
    forall i :: 0 <= i < |steps| ==> LeavesAlone(steps[i], id)
  }

  /** Every step that leaves a ticker alone keeps it ticking, whatever it does to the order of the schedule. */
  lemma NextKeepsTicking<T>(c: Clock<T>, step: Step<T>, id: T, s: int, interval: nat)
    requires Ticking(c, id, s, interval) && LeavesAlone(step, id)
    ensures Ticking(Next(c, step), id, s, interval)
  {
    if step.Fire? {
      if Due(c) { FireKeepsTicking(c, id, s, interval); }
    } else {
      var when := BeatTime(s, interval, Count(c.log, id) + 1);
      var e :| e in c.list && e.id == id && e.interval == interval && !e.fn && e.when == when;
      StepKeepsEntry(c, step, e);
      StepKeepsLog(c, step);
    }
  }

  lemma StepKeepsLog<T>(c: Clock<T>, step: Step<T>)
    requires !step.Fire? && (step.Elapse? ==> step.d >= 0)
    ensures Next(c, step).log == c.log && Next(c, step).now >= c.now
  {}

  lemma StepKeepsEntry<T>(c: Clock<T>, step: Step<T>, e: Entry<T>)
    requires e in c.list && !step.Fire? && LeavesAlone(step, e.id)
    ensures e in Next(c, step).list && Occurrences(Next(c, step).list, e.id) == Occurrences(c.list, e.id)
  {
    match step
    case Start(other, d, i, fn) => StartKeepsOthers(c, other, d, i, fn, e);
    case Stop(other) => StopKeepsOthers(c, other, e);
    case Reset(other, d, fn) => ResetKeepsOthers(c, other, d, fn, e);
    case _ =>
  }

  lemma {:induction false} RunKeepsTicking<T>(c: Clock<T>, steps: seq<Step<T>>, id: T, s: int, interval: nat)
    requires Ticking(c, id, s, interval) && AllLeaveAlone(steps, id)
    ensures Ticking(Steps(c, steps), id, s, interval)
    decreases |steps|
  {
    if steps != [] {
      NextKeepsTicking(c, steps[0], id, s, interval);
      RunKeepsTicking(Next(c, steps[0]), steps[1..], id, s, interval);
    }
  }

  /** No beat of the timer is due. */
  ghost predicate CaughtUp<T>(c: Clock<T>, id: T) {
    forall e :: e in c.list && e.id == id ==> e.when > c.now
  }

  /**
  A ticker started at `s` has beaten at the multiples of its interval, never more often than the interval fits into the
  time since, and exactly as often if and only if no beat of it is due.
  */
  ghost predicate OnTime<T>(c: Clock<T>, id: T, s: int, interval: nat)
    requires interval > 0
  {
    && BeatsOnTime(c.log, id, s, interval)
    && Count(c.log, id) <= (c.now - s) / interval
    && (Count(c.log, id) == (c.now - s) / interval <==> CaughtUp(c, id))
  }

  lemma TicksExactly<T>(c: Clock<T>, id: T, s: int, interval: nat)
    requires Ticking(c, id, s, interval)
    ensures OnTime(c, id, s, interval)
  {
    var k := Count(c.log, id);
    var e :| e in c.list && e.id == id && e.interval == interval && !e.fn && e.when == BeatTime(s, interval, k + 1);
    forall x | x in c.list && x.id == id ensures x.when == e.when { OnlyEntry(c.list, e, x); }
    assert CaughtUp(c, id) <==> e.when > c.now;
    BeatTimeIsMultiple(s, interval, k);
    BeatTimeIsMultiple(s, interval, k + 1);
    if e.when > c.now { QuotientIs(c.now - s, interval, k); } else { QuotientAtLeast(c.now - s, interval, k + 1); }
  }

  /** So with the schedule sorted, once an advance has finished. */
  lemma CaughtUpAfterAdvance<T>(c: Clock<T>, id: T)
    requires Sorted(c.list) && !Due(c)
    ensures CaughtUp(c, id)
  {
    NothingDue(c.list, c.now);
  }

  lemma TickingFromStart<T>(c: Clock<T>, id: T, interval: nat, steps: seq<Step<T>>, end: Clock<T>)
    requires interval > 0 && !Pending(c.list, id) && forall j :: 0 <= j < |c.log| ==> c.log[j].id != id
    requires AllLeaveAlone(steps, id)
    requires end == Steps(Next(c, Start(id, interval, interval, false)), steps)
    ensures Ticking(end, id, c.now, interval)
  {
    StartTicks(c, id, interval);
    RunKeepsTicking(Next(c, Start(id, interval, interval, false)), steps, id, c.now, interval);
  }

  lemma QuotientAtLeast(x: int, i: nat, q: nat)
    requires i > 0 && q * i <= x
    ensures x / i >= q
  {
    var q' := x / i;
    assert x < (q' + 1) * i;
    if q' < q { Scaled(q' + 1, q, i); }
  }

  lemma QuotientIs(x: int, i: nat, q: nat)
    requires i > 0 && q * i <= x < (q + 1) * i
    ensures x / i == q
  {
    var q' := x / i;
    assert q' * i <= x < (q' + 1) * i;
    if q' < q { Scaled(q' + 1, q, i); }
    if q < q' { Scaled(q + 1, q', i); }
  }

  lemma Scaled(a: int, b: int, i: nat)
    requires a <= b
    ensures a * i <= b * i
  {
    assert (b - a) * i >= 0;
  }

  // ---------- the one-slot channel ----------

  /** The earliest firing of a timer at or after a position of the log. */
  function FirstFrom<T(==)>(log: seq<Fired<T>>, from: nat, id: T): Option<int> {
    if |log| <= from then None
    else
      var earlier, last := FirstFrom(log[..|log| - 1], from, id), log[|log| - 1];
      if earlier.None? && last.id == id then Some(last.when) else earlier
  }

  function Slot<T(==)>(c: Clock<T>, id: T): Option<int> {
    if id in c.unread then Some(c.unread[id]) else None
  }

  ghost predicate HasChannel<T>(list: seq<Entry<T>>, id: T) {
    forall e :: e in list && e.id == id ==> !e.fn
  }

  /** How long the log was when the timer's channel was last read, if it was. */
  ghost function ReadAt<T>(c: Clock<T>, steps: seq<Step<T>>, id: T): Option<nat> {
    if steps == [] then None
    else
      var n := |steps| - 1;
      if steps[n] == Read(id) then Some(|Steps(c, steps[..n]).log|) else ReadAt(c, steps[..n], id)
  }

  /** What is in the channel after a run: the first beat since the last read, or what was in it before if it was not read. */
  ghost function Expected<T>(c: Clock<T>, steps: seq<Step<T>>, id: T): Option<int> {
    var log := Steps(c, steps).log;
    match ReadAt(c, steps, id)
    case Some(from) => FirstFrom(log, from, id)
    case None => if Slot(c, id).Some? then Slot(c, id) else FirstFrom(log, |c.log|, id)
  }

  /** A timer of this channel is started or reset without a function. */
  ghost predicate KeepsChannel<T>(step: Step<T>, id: T) {
    (step.Start? || step.Reset?) && step.id == id ==> !step.fn
  }

  lemma FirstFromAppend<T>(log: seq<Fired<T>>, f: Fired<T>, from: nat, id: T)
    requires from <= |log|
    ensures FirstFrom(log + [f], from, id) ==
            if FirstFrom(log, from, id).None? && f.id == id then Some(f.when) else FirstFrom(log, from, id)
  {
    assert (log + [f])[..|log|] == log;
  }

  lemma {:induction false} ReadBefore<T>(c: Clock<T>, steps: seq<Step<T>>, id: T)
    ensures |c.log| <= |Steps(c, steps).log|
    ensures ReadAt(c, steps, id).Some? ==> ReadAt(c, steps, id).value <= |Steps(c, steps).log|
  {
    if steps != [] {
      var n := |steps| - 1;
      ReadBefore(c, steps[..n], id);
      StepsAppend(c, steps[..n], steps[n]);
      assert steps[..n] + [steps[n]] == steps;
    }
  }

  lemma ReadAtAppend<T>(c: Clock<T>, steps: seq<Step<T>>, last: Step<T>, id: T)
    ensures ReadAt(c, steps + [last], id) == if last == Read(id) then Some(|Steps(c, steps).log|) else ReadAt(c, steps, id)
  {
    assert (steps + [last])[..|steps|] == steps;
  }

  lemma FirstFromEnd<T>(log: seq<Fired<T>>, id: T)
    ensures FirstFrom(log, |log|, id) == None
  {}

  lemma ReadEmpties<T>(c: Clock<T>, steps: seq<Step<T>>, id: T)
    ensures Slot(Next(Steps(c, steps), Read(id)), id) == Expected(c, steps + [Read(id)], id)
  {
    ReadAtAppend(c, steps, Read(id), id);
    StepsAppend(c, steps, Read(id));
    FirstFromEnd(Steps(c, steps).log, id);
  }

  lemma FireFills<T>(c: Clock<T>, steps: seq<Step<T>>, id: T)
    requires HasChannel(Steps(c, steps).list, id) && Due(Steps(c, steps)) && Slot(Steps(c, steps), id) == Expected(c, steps, id)
    ensures Slot(AfterFire(Steps(c, steps)), id) == Expected(c, steps + [Fire], id)
  {
    var before := Steps(c, steps);
    ReadAtAppend(c, steps, Fire, id);
    StepsAppend(c, steps, Fire);
    ReadBefore(c, steps, id);
    SlotStep(before, Fire, id);
    var from := if ReadAt(c, steps, id).Some? then ReadAt(c, steps, id).value else |c.log|;
    FirstFromAppend(before.log, Fired(before.list[0].id, before.list[0].when, before.list[0].born), from, id);
  }

  lemma ExpectedStep<T>(c: Clock<T>, steps: seq<Step<T>>, last: Step<T>, id: T)
    requires HasChannel(Steps(c, steps).list, id) && Slot(Steps(c, steps), id) == Expected(c, steps, id)
    ensures Slot(Next(Steps(c, steps), last), id) == Expected(c, steps + [last], id)
  {
    if last == Read(id) {
      ReadEmpties(c, steps, id);
    } else if last.Fire? && Due(Steps(c, steps)) {
      FireFills(c, steps, id);
    } else {
      ReadAtAppend(c, steps, last, id);
      StepsAppend(c, steps, last);
      SlotStep(Steps(c, steps), last, id);
    }
  }

  /** Beats are dropped while the slot is full: it holds the first beat since it was last read, however many follow. */
  lemma {:induction false} SlotHoldsEarliest<T>(c: Clock<T>, steps: seq<Step<T>>, id: T)
    requires HasChannel(c.list, id) && forall i :: 0 <= i < |steps| ==> KeepsChannel(steps[i], id)
    ensures HasChannel(Steps(c, steps).list, id) && Slot(Steps(c, steps), id) == Expected(c, steps, id)
    decreases |steps|
  {
    if steps != [] {
      var n := |steps| - 1;
      SlotHoldsEarliest(c, steps[..n], id);
      StepsAppend(c, steps[..n], steps[n]);
      assert steps[..n] + [steps[n]] == steps;
      ExpectedStep(c, steps[..n], steps[n], id);
      NextKeepsChannel(Steps(c, steps[..n]), steps[n], id);
    }
  }

  /** A timer with a function sends nothing. */
  lemma FunctionsSendNothing<T>(c: Clock<T>)
    requires Due(c) && c.list[0].fn
    ensures AfterFire(c).unread == c.unread
  {}

  lemma {:induction false} StepsAppend<T>(c: Clock<T>, steps: seq<Step<T>>, last: Step<T>)
    ensures Steps(c, steps + [last]) == Next(Steps(c, steps), last)
    decreases |steps|
  {
    if steps == [] {
      assert steps + [last] == [last];
      assert Steps(Next(c, last), [last][1..]) == Next(c, last);
    } else {
      assert (steps + [last])[1..] == steps[1..] + [last];
      StepsAppend(Next(c, steps[0]), steps[1..], last);
    }
  }

  lemma {:induction false} UnscheduleMembers<T>(list: seq<Entry<T>>, id: T, e: Entry<T>)
    requires e in Unschedule(list, id)
    ensures e in list
  {
    if list[0].id != id && e != list[0] { UnscheduleMembers(list[1..], id, e); }
  }

  lemma NextKeepsChannel<T>(c: Clock<T>, s: Step<T>, id: T)
    requires HasChannel(c.list, id) && KeepsChannel(s, id)
    ensures HasChannel(Next(c, s).list, id)
  {
    match s
    case Fire =>
      if Due(c) {
        var e := c.list[0];
        InsertMembers(c.list[1..], e.(when := e.when + e.interval, born := c.next));
      }
    case Start(other, d, i, fn) => InsertMembers(c.list, Entry(other, c.now + d, i, fn, c.next));
    case Stop(other) => StopKeepsChannel(c, other, id);
    case Reset(other, d, fn) => ResetKeepsChannel(c, other, d, fn, id);
    case _ =>
  }

  lemma SlotStep<T>(c: Clock<T>, s: Step<T>, id: T)
    requires HasChannel(c.list, id) && s != Read(id)
    ensures if s.Fire? && Due(c)
            then Next(c, s).log == c.log + [Fired(c.list[0].id, c.list[0].when, c.list[0].born)]
              && Slot(Next(c, s), id) == if Slot(c, id).None? && c.list[0].id == id then Some(c.list[0].when) else Slot(c, id)
            else Next(c, s).log == c.log && Slot(Next(c, s), id) == Slot(c, id)
  {
    if s.Fire? && Due(c) { assert c.list[0] in c.list; }
  }

  lemma StopKeepsChannel<T>(c: Clock<T>, other: T, id: T)
    requires HasChannel(c.list, id)
    ensures HasChannel(AfterStop(c, other).list, id)
  {
    forall e | e in Unschedule(c.list, other) ensures e in c.list { UnscheduleMembers(c.list, other, e); }
  }

  lemma ResetKeepsChannel<T>(c: Clock<T>, other: T, d: int, fn: bool, id: T)
    requires HasChannel(c.list, id) && (other == id ==> !fn)
    ensures HasChannel(AfterReset(c, other, d, fn).list, id)
  {
    StopKeepsChannel(c, other, id);
    var l := AfterStop(c, other).list;
    var l' := Rewrite(l, other, c.now + d);
    forall e | e in l' && e.id == id ensures !e.fn {
      var i :| 0 <= i < |l'| && l'[i] == e;
      assert l[i] in l;
    }
    InsertMembers(l', Entry(other, c.now + d, 0, fn, AfterStop(c, other).next));
  }
}
