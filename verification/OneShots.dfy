/** One-shot timers fire once, at their time. */
module OneShots {
  import opened Options
  import opened Schedules
  import opened Tickers

  /** The timer has fired `k` times and is scheduled once more, for `when`. */
  ghost predicate Armed<T>(c: Clock<T>, id: T, when: int, k: nat) {
    && Count(c.log, id) == k && Occurrences(c.list, id) == 1
    && exists e :: e in c.list && e.id == id && e.interval == 0 && e.when == when
  }

  /** The firing after the first `k` of the timer was at `when`. */
  ghost predicate FiredAt<T>(log: seq<Fired<T>>, id: T, k: nat, when: int) {
    log != [] &&
    var before, last := log[..|log| - 1], log[|log| - 1];
    (last.id == id && last.when == when && Count(before, id) == k) || FiredAt(before, id, k, when)
  }

  /** The timer has fired once more, at `when`, which has passed, and is not scheduled. */
  ghost predicate Spent<T>(c: Clock<T>, id: T, when: int, k: nat) {
    Count(c.log, id) == k + 1 && Occurrences(c.list, id) == 0 && FiredAt(c.log, id, k, when) && when <= c.now
  }

  lemma FiredAtAppend<T>(log: seq<Fired<T>>, f: Fired<T>, id: T, k: nat, when: int)
    requires FiredAt(log, id, k, when) || (f.id == id && f.when == when && Count(log, id) == k)
    ensures FiredAt(log + [f], id, k, when)
  {
    assert (log + [f])[..|log|] == log;
  }

  lemma FireLog<T>(c: Clock<T>)
    requires Due(c)
    ensures AfterFire(c).log == c.log + [Fired(c.list[0].id, c.list[0].when, c.list[0].born)] && AfterFire(c).now == c.now
  {}

  lemma FireOthers<T>(c: Clock<T>, id: T)
    requires Due(c) && c.list[0].id != id
    ensures Occurrences(AfterFire(c).list, id) == Occurrences(c.list, id)
  {
    var head := c.list[0];
    OccurrencesOfInsert(c.list[1..], head.(when := head.when + head.interval, born := c.next), id);
  }

  /** The firing of an armed timer spends it. */
  lemma FireSpends<T>(c: Clock<T>, e: Entry<T>)
    requires Due(c) && Occurrences(c.list, e.id) == 1 && e in c.list && e.interval == 0 && c.list[0].id == e.id
    ensures Spent(AfterFire(c), e.id, e.when, Count(c.log, e.id))
  {
    var f := Fired(e.id, e.when, e.born);
    OnlyEntry(c.list, e, c.list[0]);
    FireLog(c);
    CountAppend(c.log, f, e.id);
    FiredAtAppend(c.log, f, e.id, Count(c.log, e.id), e.when);
  }

  /** Other firings leave it armed. */
  lemma FireKeepsArmed<T>(c: Clock<T>, e: Entry<T>)
    requires Due(c) && Occurrences(c.list, e.id) == 1 && e in c.list && e.interval == 0 && c.list[0].id != e.id
    ensures Armed(AfterFire(c), e.id, e.when, Count(c.log, e.id))
  {
    FireLog(c);
    CountAppend(c.log, Fired(c.list[0].id, c.list[0].when, c.list[0].born), e.id);
    FireOthers(c, e.id);
    FireKeepsEntry(c, e);
  }

  lemma FireSpent<T>(c: Clock<T>, id: T, when: int, k: nat)
    requires Due(c) && Spent(c, id, when, k)
    ensures Spent(AfterFire(c), id, when, k)
  {
    var head := c.list[0];
    FireLog(c);
    CountAppend(c.log, Fired(head.id, head.when, head.born), id);
    FiredAtAppend(c.log, Fired(head.id, head.when, head.born), id, k, when);
    FireOthers(c, id);
  }

  /** Other steps leave a spent timer off the schedule. */
  lemma StepKeepsAbsent<T>(c: Clock<T>, step: Step<T>, id: T)
    requires Occurrences(c.list, id) == 0 && !step.Fire? && LeavesAlone(step, id)
    ensures Occurrences(Next(c, step).list, id) == 0
  {
    match step
    case Start(other, d, i, fn) => OccurrencesOfInsert(c.list, Entry(other, c.now + d, i, fn, c.next), id);
    case Stop(other) => OccurrencesOfOthers(c.list, other, id, 0);
    case Reset(other, d, fn) => ResetKeepsAbsent(c, other, d, fn, id);
    case _ =>
  }

  lemma ResetKeepsAbsent<T>(c: Clock<T>, other: T, d: int, fn: bool, id: T)
    requires Occurrences(c.list, id) == 0 && other != id
    ensures Occurrences(AfterReset(c, other, d, fn).list, id) == 0
  {
    var c1, when := AfterStop(c, other), c.now + d;
    OccurrencesOfOthers(c.list, other, id, when);
    OccurrencesOfOthers(c1.list, other, id, when);
    ResetMoves(c, other, d, fn);
    OccurrencesOfInsert(Rewrite(c1.list, other, when), Entry(other, when, 0, fn, c1.next), id);
  }

  ghost predicate Once<T>(c: Clock<T>, id: T, when: int, k: nat) {
    Armed(c, id, when, k) || Spent(c, id, when, k)
  }

  lemma NextKeepsOnce<T>(c: Clock<T>, step: Step<T>, id: T, when: int, k: nat)
    requires Once(c, id, when, k) && LeavesAlone(step, id)
    ensures Once(Next(c, step), id, when, k)
  {
    if step.Fire? {
      if Due(c) {
        if Armed(c, id, when, k) {
          var e :| e in c.list && e.id == id && e.interval == 0 && e.when == when;
          if c.list[0].id == id { FireSpends(c, e); } else { FireKeepsArmed(c, e); }
        } else {
          FireSpent(c, id, when, k);
        }
      }
    } else {
      StepKeepsLog(c, step);
      if Armed(c, id, when, k) {
        var e :| e in c.list && e.id == id && e.interval == 0 && e.when == when;
        StepKeepsEntry(c, step, e);
      } else {
        StepKeepsAbsent(c, step, id);
      }
    }
  }

  lemma {:induction false} RunKeepsOnce<T>(c: Clock<T>, steps: seq<Step<T>>, id: T, when: int, k: nat)
    requires Once(c, id, when, k) && AllLeaveAlone(steps, id)
    ensures Once(Steps(c, steps), id, when, k)
    decreases |steps|
  {
    if steps != [] {
      NextKeepsOnce(c, steps[0], id, when, k);
      RunKeepsOnce(Next(c, steps[0]), steps[1..], id, when, k);
    }
  }

  lemma StartArms<T>(c: Clock<T>, id: T, d: int, fn: bool)
    requires !Pending(c.list, id)
    ensures Once(AfterStart(c, id, d, 0, fn), id, c.now + d, Count(c.log, id))
  {
    var e := Entry(id, c.now + d, 0, fn, c.next);
    InsertMembers(c.list, e);
    OccurrencesPositive(c.list, id);
    OccurrencesOfInsert(c.list, e, id);
  }

  /** Armed exactly until then: if none of its beats is due, a timer has fired if and only if its time has come. */
  lemma FiredExactly<T>(c: Clock<T>, id: T, when: int, k: nat)
    requires Once(c, id, when, k) && CaughtUp(c, id)
    ensures Spent(c, id, when, k) <==> when <= c.now
    ensures Count(c.log, id) == if when <= c.now then k + 1 else k
  {}

  lemma ResetArms<T>(c: Clock<T>, id: T, d: int, fn: bool)
    requires Inv(c) && !(Pending(c.list, id) && id in c.stopped)
    ensures Once(AfterReset(c, id, d, fn), id, c.now + d, Count(c.log, id))
  {
    ResetIsStopStart(c, id, d, fn);
    StartArms(AfterStop(c, id), id, d, fn);
  }

  ghost predicate Silent<T>(c: Clock<T>, id: T, k: nat) {
    Occurrences(c.list, id) == 0 && Count(c.log, id) == k
  }

  lemma NextKeepsSilent<T>(c: Clock<T>, step: Step<T>, id: T, k: nat)
    requires Silent(c, id, k) && LeavesAlone(step, id)
    ensures Silent(Next(c, step), id, k)
  {
    if step.Fire? {
      if Due(c) {
        FireLog(c);
        FireOthers(c, id);
        CountAppend(c.log, Fired(c.list[0].id, c.list[0].when, c.list[0].born), id);
      }
    } else {
      StepKeepsLog(c, step);
      StepKeepsAbsent(c, step, id);
    }
  }

  lemma {:induction false} RunKeepsSilent<T>(c: Clock<T>, steps: seq<Step<T>>, id: T, k: nat)
    requires Silent(c, id, k) && AllLeaveAlone(steps, id)
    ensures Silent(Steps(c, steps), id, k)
    decreases |steps|
  {
    if steps != [] {
      NextKeepsSilent(c, steps[0], id, k);
      RunKeepsSilent(Next(c, steps[0]), steps[1..], id, k);
    }
  }

  lemma StopSilences<T>(c: Clock<T>, id: T)
    requires Inv(c) && !(Pending(c.list, id) && id in c.stopped)
    ensures Silent(Next(c, Stop(id)), id, Count(c.log, id))
  {
    StopLeaves(c, id);
    OccurrencesPositive(AfterStop(c, id).list, id);
  }

  // ---------- the clock ----------

  function Elapsed<T>(steps: seq<Step<T>>): int {
    if steps == [] then 0 else (if steps[0].Elapse? then steps[0].d else 0) + Elapsed(steps[1..])
  }

  /** Nothing but time passing moves the clock. */
  lemma {:induction false} ClockFollows<T>(c: Clock<T>, steps: seq<Step<T>>)
    ensures Steps(c, steps).now == c.now + Elapsed(steps)
    decreases |steps|
  {
    if steps != [] { ClockFollows(Next(c, steps[0]), steps[1..]); }
  }

  /** An advance moves the clock by its length, fires every beat due by then, and leaves the rest for later. */
  lemma AdvanceExact<T>(c: Clock<T>, d: nat)
    requires Inv(c)
    ensures var r := Advance(c, d);
            && r.now == c.now + d && |r.log| == |c.log| + Beats(c.list, c.now + d)
            && forall e :: e in r.list ==> e.when > c.now + d
  {
    var later := c.(now := c.now + d);
    assert Inv(later);
    FireAllExact(later);
  }

  /** Every timer that was started is on the schedule, or carries the mark of having been stopped or fired. */
  ghost predicate Known<T>(c: Clock<T>, id: T) {
    Pending(c.list, id) || id in c.stopped
  }

  lemma FireKeepsKnown<T>(c: Clock<T>, id: T)
    requires Due(c) && Known(c, id)
    ensures Known(AfterFire(c), id)
  {
    var e := c.list[0];
    InsertPending(c.list[1..], e.(when := e.when + e.interval, born := c.next), id);
  }

  lemma StopKeepsKnown<T>(c: Clock<T>, other: T, id: T)
    requires Sorted(c.list) && Known(c, id)
    ensures Known(AfterStop(c, other), id)
  {
    UnscheduleKeeps(c.list, other);
  }

  lemma ResetKeepsKnown<T>(c: Clock<T>, other: T, d: int, fn: bool, id: T)
    requires Sorted(c.list) && Known(c, id)
    ensures Known(AfterReset(c, other, d, fn), id)
  {
    StopKeepsKnown(c, other, id);
    ResetMoves(c, other, d, fn);
    var c1, when := AfterStop(c, other), c.now + d;
    RewritePending(c1.list, other, when, id);
    InsertPending(Rewrite(c1.list, other, when), Entry(other, when, 0, fn, c1.next), id);
  }

  lemma StepKeepsKnown<T>(c: Clock<T>, step: Step<T>, id: T)
    requires Sorted(c.list) && (Known(c, id) || (step.Start? && step.id == id))
    ensures Known(Next(c, step), id)
  {
    match step
    case Fire => if Due(c) { FireKeepsKnown(c, id); }
    case Start(other, d, interval, fn) => InsertPending(c.list, Entry(other, c.now + d, interval, fn, c.next), id);
    case Stop(other) => StopKeepsKnown(c, other, id);
    case Reset(other, d, fn) => ResetKeepsKnown(c, other, d, fn, id);
    case _ =>
  }

  lemma {:induction false} StartedIsKnown<T>(c: Clock<T>, steps: seq<Step<T>>, id: T)
    requires Inv(c) && AllAllowed(c, steps)
    requires Known(c, id) || exists i :: 0 <= i < |steps| && steps[i].Start? && steps[i].id == id
    ensures Known(Steps(c, steps), id)
    decreases |steps|
  {
    if steps != [] {
      var c1 := Next(c, steps[0]);
      NextKeepsInv(c, steps[0]);
      if Known(c, id) || (steps[0].Start? && steps[0].id == id) { StepKeepsKnown(c, steps[0], id); }
      if !Known(c1, id) {
        var i :| 0 <= i < |steps| && steps[i].Start? && steps[i].id == id;
        assert steps[1..][i - 1] == steps[i];
      }
      StartedIsKnown(c1, steps[1..], id);
    }
  }
}
