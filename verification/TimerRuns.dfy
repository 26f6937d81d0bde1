/** Tickers over whole runs. */
module TickerRuns {
  import opened Schedules
  import opened Tickers

  /** From its creation on, over any run that leaves it alone. */
  lemma TickerOverRun<T>(c: Clock<T>, id: T, interval: nat, steps: seq<Step<T>>, end: Clock<T>)
    requires interval > 0 && !Pending(c.list, id) && forall j :: 0 <= j < |c.log| ==> c.log[j].id != id
    requires AllLeaveAlone(steps, id)
    requires end == Steps(Next(c, Start(id, interval, interval, false)), steps)
    ensures OnTime(end, id, c.now, interval)
  {
    TickingFromStart(c, id, interval, steps, end);
    TicksExactly(end, id, c.now, interval);
  }
}

/** One-shot timers over whole runs. */
module TimerRuns {
  import opened Schedules
  import opened Tickers
  import opened OneShots

  /** A timer for `d` from now, over any run that leaves it alone: it is armed for that time, or has fired once, at it. */
  lemma TimerOverRun<T>(c: Clock<T>, id: T, d: int, fn: bool, steps: seq<Step<T>>)
    requires !Pending(c.list, id) && AllLeaveAlone(steps, id)
    ensures Once(Steps(AfterStart(c, id, d, 0, fn), steps), id, c.now + d, Count(c.log, id))
  {
    var c1 := AfterStart(c, id, d, 0, fn);
    StartArms(c, id, d, fn);
    RunKeepsOnce(c1, steps, id, c.now + d, Count(c.log, id));
  }

  /** The same after a Reset, unless the timer was pending with its stopped mark set. */
  lemma ResetOverRun<T>(c: Clock<T>, id: T, d: int, fn: bool, steps: seq<Step<T>>)
    requires Inv(c) && !(Pending(c.list, id) && id in c.stopped)
    requires AllLeaveAlone(steps, id)
    ensures Once(Steps(AfterReset(c, id, d, fn), steps), id, c.now + d, Count(c.log, id))
  {
    var c1 := AfterReset(c, id, d, fn);
    ResetArms(c, id, d, fn);
    RunKeepsOnce(c1, steps, id, c.now + d, Count(c.log, id));
  }

  /** A timer that was stopped never fires again, unless it was pending with its stopped mark set. */
  lemma StoppedOverRun<T>(c: Clock<T>, id: T, steps: seq<Step<T>>)
    requires Inv(c) && !(Pending(c.list, id) && id in c.stopped)
    requires AllLeaveAlone(steps, id)
    ensures Silent(Steps(Next(c, Stop(id)), steps), id, Count(c.log, id))
  {
    StopSilences(c, id);
    RunKeepsSilent(Next(c, Stop(id)), steps, id, Count(c.log, id));
  }
}
