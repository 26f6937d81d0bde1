/** How the clock's timer objects mirror the schedule. */
module TimerLists {
  import opened Options
  import opened Schedules
  import opened Tickers

  class FrozenTimer {
    var when: int
    const interval: nat
    var stopped: bool
    /** The one-slot channel; unused when the timer carries a function. */
    var c: Option<int>
    const fn: bool

    constructor (when: int, interval: nat, fn: bool)
      ensures this.when == when && this.interval == interval && this.fn == fn && !stopped && c == None
    {
      this.when, this.interval, this.fn := when, interval, fn;
      stopped, c := false, None;
    }
  }

  ghost predicate Mirrors(t: FrozenTimer, e: Entry<FrozenTimer>)
    reads t
  {
    e.id == t && e.when == t.when && e.interval == t.interval && e.fn == t.fn
  }

  ghost predicate ListMirrors(timers: seq<FrozenTimer>, list: seq<Entry<FrozenTimer>>)
    reads timers
  {
    |timers| == |list| && forall i :: 0 <= i < |timers| ==> Mirrors(timers[i], list[i])
  }

  /** A timer's mark and channel are as the model has them. */
  ghost predicate Marked(t: FrozenTimer, c: Clock<FrozenTimer>)
    reads t
  {
    (t.stopped <==> t in c.stopped) && t.c == Slot(c, t)
  }

  ghost predicate AllMarked(all: set<FrozenTimer>, c: Clock<FrozenTimer>)
    reads all
  {
    forall t :: t in all ==> Marked(t, c)
  }

  /** Only one-shot timers can be reset, so only they can be in the list twice. */
  ghost predicate TickersOnce(timers: seq<FrozenTimer>) {
    forall i, j :: 0 <= i < j < |timers| && timers[i] == timers[j] ==> timers[i].interval == 0
  }

  lemma TickersOnceInserted(timers: seq<FrozenTimer>, t: FrozenTimer, pos: nat)
    requires TickersOnce(timers) && pos <= |timers| && (t.interval > 0 ==> t !in timers)
    ensures TickersOnce(timers[..pos] + [t] + timers[pos..])
  {
    var ts := timers[..pos] + [t] + timers[pos..];
    forall i, j | 0 <= i < j < |ts| && ts[i] == ts[j] ensures ts[i].interval == 0 {
      if i != pos && j != pos {
        assert timers[if i < pos then i else i - 1] == timers[if j < pos then j else j - 1];
      } else {
        assert t == timers[if i == pos then j - 1 else i];
      }
    }
  }

  lemma {:induction false} InsertAt<T>(list: seq<Entry<T>>, e: Entry<T>, pos: nat)
    requires pos <= |list| && (forall i :: 0 <= i < pos ==> list[i].when <= e.when) && (pos < |list| ==> e.when < list[pos].when)
    ensures Insert(list, e) == list[..pos] + [e] + list[pos..]
  {
    if pos > 0 {
      InsertAt(list[1..], e, pos - 1);
      assert list[..pos] + [e] + list[pos..] == [list[0]] + (list[1..][..pos - 1] + [e] + list[1..][pos - 1..]);
    }
  }

  lemma {:induction false} UnscheduleAt<T>(list: seq<Entry<T>>, id: T, i: nat)
    requires i < |list| && list[i].id == id && forall j :: 0 <= j < i ==> list[j].id != id
    ensures Pending(list, id) && Unschedule(list, id) == list[..i] + list[i + 1..]
  {
    if i > 0 {
      UnscheduleAt(list[1..], id, i - 1);
      assert list[..i] + list[i + 1..] == [list[0]] + (list[1..][..i - 1] + list[1..][i..]);
    }
  }

  lemma {:induction false} NotPending<T>(list: seq<Entry<T>>, id: T)
    requires forall j :: 0 <= j < |list| ==> list[j].id != id
    ensures !Pending(list, id)
  {
    if list != [] { NotPending(list[1..], id); }
  }

  /** Runs that keep to the future can be put one after the other. */
  lemma {:induction false} ForwardConcat<T>(c: Clock<T>, steps: seq<Step<T>>, more: seq<Step<T>>)
    requires Forward(c, steps) && Forward(Steps(c, steps), more)
    ensures Forward(c, steps + more) && Steps(c, steps + more) == Steps(Steps(c, steps), more)
    decreases |steps|
  {
    if steps == [] {
      assert steps + more == more;
    } else {
      assert (steps + more)[1..] == steps[1..] + more;
      ForwardConcat(Next(c, steps[0]), steps[1..], more);
    }
  }

  lemma {:induction false} LogGrows<T>(c: Clock<T>, steps: seq<Step<T>>)
    ensures |c.log| <= |Steps(c, steps).log|
    decreases |steps|
  {
    if steps != [] { LogGrows(Next(c, steps[0]), steps[1..]); }
  }

  lemma OneStep<T>(c: Clock<T>, s: Step<T>)
    ensures Steps(c, [s]) == Next(c, s)
  {
    assert [s][1..] == [];
    assert Steps(Next(c, s), []) == Next(c, s);
  }

  /** Inserting into the list of timers and into the schedule at the same place. */
  lemma MirrorsInserted(timers: seq<FrozenTimer>, list: seq<Entry<FrozenTimer>>, t: FrozenTimer, e: Entry<FrozenTimer>, pos: nat)
    requires ListMirrors(timers, list) && Mirrors(t, e) && pos <= |timers|
    ensures ListMirrors(timers[..pos] + [t] + timers[pos..], list[..pos] + [e] + list[pos..])
  {
    var ts, es := timers[..pos] + [t] + timers[pos..], list[..pos] + [e] + list[pos..];
    forall i | 0 <= i < |ts| ensures Mirrors(ts[i], es[i]) {
      assert i < pos ==> Mirrors(timers[i], list[i]);
      assert i > pos ==> Mirrors(timers[i - 1], list[i - 1]);
    }
  }

  lemma MirrorsRemoved(timers: seq<FrozenTimer>, list: seq<Entry<FrozenTimer>>, k: nat)
    requires ListMirrors(timers, list) && k < |timers|
    ensures ListMirrors(timers[..k] + timers[k + 1..], list[..k] + list[k + 1..])
  {
    var ts, es := timers[..k] + timers[k + 1..], list[..k] + list[k + 1..];
    forall i | 0 <= i < |ts| ensures Mirrors(ts[i], es[i]) {
      assert Mirrors(timers[if i < k then i else i + 1], list[if i < k then i else i + 1]);
    }
  }
}

/** The frozen clock: a slice of timers kept in firing order and shifted in place. */
module FrozenClocks {
  import opened Options
  import opened Schedules
  import opened Tickers
  import opened TimerLists

  class FrozenTime {
    var now: int
    var timers: seq<FrozenTimer>

    /** The abstract value, and every timer made on this clock. */
    ghost var Model: Clock<FrozenTimer>
    ghost var All: set<FrozenTimer>

    constructor (now: int)
      ensures Valid() && Inv(Model) && Model == NewClock(now) && All == {}
    {
      this.now, timers := now, [];
      Model, All := NewClock(now), {};
    }

    ghost predicate Valid()
      reads this, All
    {
      && Model.now == now && (forall t :: t in timers ==> t in All) && TickersOnce(timers)
      && ListMirrors(timers, Model.list) && AllMarked(All, Model)
    }

    /** unlockedStartTimer: scan for the place, shift, and put the timer in. */
    method UnlockedStartTimer(t: FrozenTimer)
      requires Valid() && t in All && (t.interval > 0 ==> t !in timers)
      modifies this`timers, this`Model
      ensures Valid()
      ensures Model == old(Model).(list := Insert(old(Model).list, Entry(t, t.when, t.interval, t.fn, old(Model).next)),
                                   next := old(Model).next + 1)
    {
      var pos := 0;
      while pos < |timers| && !(t.when < timers[pos].when)
        invariant 0 <= pos <= |timers|
        invariant forall i :: 0 <= i < pos ==> Model.list[i].when <= t.when
      {
        assert Mirrors(timers[pos], Model.list[pos]);
        pos := pos + 1;
      }
      assert pos < |timers| ==> Mirrors(timers[pos], Model.list[pos]);
      ghost var e := Entry(t, t.when, t.interval, t.fn, Model.next);
      InsertAt(Model.list, e, pos);
      MirrorsInserted(timers, Model.list, t, e, pos);
      TickersOnceInserted(timers, t, pos);
      timers := timers[..pos] + [t] + timers[pos..];
      Model := Model.(list := Insert(Model.list, e), next := Model.next + 1);
    }

    /** Start a timer made by AfterFunc, NewTimer or NewTicker. */
    method StartNew(d: int, interval: nat, fn: bool) returns (t: FrozenTimer)
      requires Valid()
      modifies this
      ensures Valid() && fresh(t) && All == old(All) + {t} && now == old(now)
      ensures t.interval == interval && t.fn == fn
      ensures Model == Next(old(Model), Start(t, d, interval, fn))
    {
      t := new FrozenTimer(now + d, interval, fn);
      NewIsUnknown(t);
      All := All + {t};
      UnlockedStartTimer(t);
    }

    twostate lemma NewIsUnknown(new t: FrozenTimer)
      requires old(Valid()) && fresh(t) && unchanged(this) && !t.stopped && t.c == None
      ensures Marked(t, Model)
    {}

    /** NewTimer and AfterFunc. */
    method AfterFunc(d: int, fn: bool) returns (t: FrozenTimer)
      requires Valid()
      modifies this
      ensures Valid() && fresh(t) && All == old(All) + {t} && now == old(now)
      ensures Model == Next(old(Model), Start(t, d, 0, fn))
    {
      t := StartNew(d, 0, fn);
    }

    /** NewTicker panics on a non-positive interval; Tick returns no channel then. */
    method Tick(d: int) returns (t: FrozenTimer?)
      requires Valid()
      modifies this
      ensures Valid() && now == old(now) && (t == null <==> d <= 0)
      ensures if t == null then Model == old(Model) && All == old(All)
              else fresh(t) && All == old(All) + {t} && Model == Next(old(Model), Start(t, d, d, false))
    {
      if d <= 0 { return null; }
      t := StartNew(d, d, false);
    }

    method StopTimer(t: FrozenTimer) returns (active: bool)
      requires Valid() && t in All
      modifies this`timers, this`Model, t`stopped
      ensures Valid() && Model == AfterStop(old(Model), t)
      ensures active == (old(!t.stopped) && Pending(old(Model).list, t))
    {
      assert Marked(t, Model);
      if t.stopped { return false; }
      var i := 0;
      while i < |timers|
        invariant 0 <= i <= |timers|
        invariant forall j :: 0 <= j < i ==> Model.list[j].id != t
      {
        assert Mirrors(timers[i], Model.list[i]);
        if timers[i] == t {
          UnscheduleAt(Model.list, t, i);
          MirrorsRemoved(timers, Model.list, i);
          t.stopped := true;
          timers := timers[..i] + timers[i + 1..];
          Model := AfterStop(Model, t);
          return true;
        }
        i := i + 1;
      }
      NotPending(Model.list, t);
      active := false;
    }

    /** Reset, which tickers do not offer: the stopped mark is not cleared. */
    method Reset(t: FrozenTimer, d: int) returns (active: bool)
      requires Valid() && t in All && t.interval == 0
      modifies this`timers, this`Model, t
      ensures Valid() && Model == AfterReset(old(Model), t, d, t.fn)
      ensures active == (old(!t.stopped) && Pending(old(Model).list, t))
    {
      active := StopTimer(t);
      Restart(t, d);
    }

    method Restart(t: FrozenTimer, d: int)
      requires Valid() && t in All && t.interval == 0
      modifies this`timers, this`Model, t`when
      ensures Valid()
      ensures Model == AfterStart(old(Model).(list := Rewrite(old(Model).list, t, old(Model).now + d)), t, d, 0, t.fn)
    {
      SetWhen(t, now + d);
      UnlockedStartTimer(t);
    }

    method SetWhen(t: FrozenTimer, when: int)
      requires Valid() && t in All
      modifies this`Model, t`when
      ensures Valid() && t.when == when && Model == old(Model).(list := Rewrite(old(Model).list, t, when))
    {
      t.when := when;
      Model := Model.(list := Rewrite(Model.list, t, when));
      forall i | 0 <= i < |timers| ensures Mirrors(timers[i], Model.list[i]) {
        assert old(Mirrors(timers[i], Model.list[i]));
      }
    }

    /** A reader takes the value out of a timer's channel. */
    method Receive(t: FrozenTimer) returns (value: Option<int>)
      requires Valid() && t in All
      modifies this`Model, t`c
      ensures Valid() && value == Slot(old(Model), t) && Model == Next(old(Model), Read(t))
    {
      assert Marked(t, Model);
      value := t.c;
      t.c := None;
      Model := Next(Model, Read(t));
    }

    /** nextExpired, and the send that does not block. */
    method TakeHead() returns (t: FrozenTimer)
      requires Valid() && |timers| > 0 && timers[0].when <= now
      modifies this`timers, this`Model, timers[0]
      ensures Valid() && t == old(timers[0]) && timers == old(timers[1..])
      ensures Due(old(Model)) && Mirrors(t, old(Model).list[0]) && Model == Taken(old(Model))
    {
      t := timers[0];
      assert Mirrors(t, Model.list[0]) && Marked(t, Model);
      MirrorsRemoved(timers, Model.list, 0);
      assert timers[..0] + timers[1..] == timers[1..] && Model.list[..0] + Model.list[1..] == Model.list[1..];
      timers := timers[1..];
      t.stopped := true;
      if !t.fn && t.c.None? {
        t.c := Some(t.when);
      }
      Model := Taken(Model);
    }

    /** One turn of the loop in advance. */
    method FireNext()
      requires Valid() && |timers| > 0 && timers[0].when <= now
      modifies this`timers, this`Model, timers[0]
      ensures Valid() && Due(old(Model)) && Model == AfterFire(old(Model))
    {
      var t := TakeHead();
      if t.interval != 0 {
        Rearm(t);
      }
    }

    method Rearm(t: FrozenTimer)
      requires Valid() && t in All && t.interval != 0 && t !in timers
      modifies this`timers, this`Model, t
      ensures Valid()
      ensures Model == old(Model).(list := Insert(old(Model).list, Entry(t, old(t.when) + t.interval, t.interval, t.fn, old(Model).next)),
                                   next := old(Model).next + 1, stopped := old(Model).stopped - {t})
    {
      t.when := t.when + t.interval;
      t.stopped := false;
      Model := Model.(stopped := Model.stopped - {t});
      UnlockedStartTimer(t);
    }

    /** advance, in any state, with functions that leave the clock alone. */
    method Advance(d: int)
      requires Valid()
      modifies this, All
      ensures Valid() && Model == Schedules.Advance(old(Model), d)
    {
      now := now + d;
      Model := Model.(now := now);
      ghost var target := FireAll(Model);
      while |timers| > 0 && timers[0].when <= now
        invariant Valid() && All == old(All) && FireAll(Model) == target
        decreases Beats(Model.list, now)
      {
        FireUsesOneBeat(Model);
        FireNext();
      }
    }

    /** One thing a timer's function may do to the clock: start a timer in the future, or stop, reset or read a known one. */
    method FunctionStep(known: set<FrozenTimer>) returns (known': set<FrozenTimer>, ghost s: Step<FrozenTimer>)
      requires Valid() && Inv(Model) && known <= All
      modifies this, All
      ensures Valid() && now == old(now) && old(All) <= All && fresh(All - old(All)) && known <= known' <= All
      ensures !s.Fire? && Forward(old(Model), [s]) && Model == Next(old(Model), s)
    {
      var start: bool, d: nat, interval: nat, fn: bool := *, *, *, *;
      if start || known == {} {
        var t := StartNew(d + 1, interval, fn);
        StillUnknown(t);
        known', s := known + {t}, Start(t, d + 1, interval, fn);
      } else {
        var t :| t in known;
        s := TouchKnown(t, d);
        known' := known;
      }
    }

    method TouchKnown(t: FrozenTimer, d: nat) returns (ghost s: Step<FrozenTimer>)
      requires Valid() && Inv(Model) && t in All
      modifies this`timers, this`Model, t
      ensures Valid() && !s.Fire? && Forward(old(Model), [s]) && Model == Next(old(Model), s)
    {
      var choice: nat := *;
      if choice == 0 {
        var _ := StopTimer(t);
        s := Stop(t);
      } else if choice == 1 && t.interval == 0 && !(t.stopped && t in timers) {
        assert Marked(t, Model);
        PendingIsListed(t);
        UnmarkedKeepsPlace(Model, t, d + 1);
        var _ := Reset(t, d + 1);
        s := Schedules.Reset(t, d + 1, t.fn);
      } else {
        var _ := Receive(t);
        s := Read(t);
      }
    }

    twostate lemma StillUnknown(new t: FrozenTimer)
      requires old(Valid()) && fresh(t)
      ensures !Pending(old(Model).list, t) && t !in old(Model).stopped
    {
      forall j | 0 <= j < |old(Model).list| ensures old(Model).list[j].id != t {
        assert old(Mirrors(timers[j], Model.list[j]));
      }
      NotPending(old(Model).list, t);
    }

    lemma PendingIsListed(t: FrozenTimer)
      requires Valid()
      ensures Pending(Model.list, t) ==> t in timers
    {
      if t !in timers {
        forall j | 0 <= j < |Model.list| ensures Model.list[j].id != t {
          assert Mirrors(timers[j], Model.list[j]);
        }
        NotPending(Model.list, t);
      }
    }

    /** A timer's function: any number of such things. */
    method RunFunction(known: set<FrozenTimer>) returns (known': set<FrozenTimer>, ghost steps: seq<Step<FrozenTimer>>)
      requires Valid() && Inv(Model) && known <= All
      modifies this, All
      ensures Valid() && Inv(Model) && now == old(now) && old(All) <= All && fresh(All - old(All)) && known <= known' <= All
      ensures Forward(old(Model), steps) && Model == Steps(old(Model), steps)
    {
      known', steps := known, [];
      var n: nat := *;
      while n > 0
        invariant Valid() && Inv(Model) && now == old(now) && old(All) <= All && fresh(All - old(All)) && known <= known' <= All
        invariant Forward(old(Model), steps) && Model == Steps(old(Model), steps)
      {
        ghost var before := Model;
        ghost var s;
        known', s := FunctionStep(known');
        NextKeepsInv(before, s);
        OneStep(before, s);
        ForwardConcat(old(Model), steps, [s]);
        steps := steps + [s];
        n := n - 1;
      }
    }

    /**
    advance, with functions that use the clock and the timers they know of, their own included: the lock is free while
    they run, and the loop still comes to an end.
    */
    method AdvanceReentrant(d: nat, known: set<FrozenTimer>) returns (ghost steps: seq<Step<FrozenTimer>>)
      requires Valid() && Inv(Model) && known <= All
      modifies this, All
      ensures Valid() && Inv(Model) && now == old(now) + d && forall e :: e in Model.list ==> e.when > now
      ensures var start := old(Model).(now := now);
              && Forward(start, steps) && Model == Steps(start, steps)
              && |Model.log| - |start.log| <= Beats(start.list, now)
    {
      now := now + d;
      Model := Model.(now := now);
      ghost var start := Model;
      steps := [];
      var seen := known;
      while |timers| > 0 && timers[0].when <= now
        invariant Valid() && Inv(Model) && now == start.now && old(All) <= All && fresh(All - old(All)) && seen <= All
        invariant Forward(start, steps) && Model == Steps(start, steps)
        decreases Beats(Model.list, now)
      {
        seen, steps := Turn(start, steps, seen);
      }
      FiringsBounded(start, steps);
      NoneDue();
    }

    lemma NoneDue()
      requires Valid() && Inv(Model) && !(|timers| > 0 && timers[0].when <= now)
      ensures forall e :: e in Model.list ==> e.when > now
    {
      if |timers| > 0 { assert Mirrors(timers[0], Model.list[0]); }
      NothingDue(Model.list, now);
    }

    /** One turn of its loop: a firing, and the function if there is one. */
    method Turn(ghost start: Clock<FrozenTimer>, ghost steps: seq<Step<FrozenTimer>>, known: set<FrozenTimer>)
      returns (known': set<FrozenTimer>, ghost steps': seq<Step<FrozenTimer>>)
      requires Valid() && Inv(Model) && |timers| > 0 && timers[0].when <= now && known <= All
      requires Forward(start, steps) && Model == Steps(start, steps)
      modifies this, All
      ensures Valid() && Inv(Model) && now == old(now) && old(All) <= All && fresh(All - old(All)) && known <= known' <= All
      ensures Beats(Model.list, now) < Beats(old(Model).list, now)
      ensures Forward(start, steps') && Model == Steps(start, steps')
    {
      var hasFunction := timers[0].fn;
      ghost var fired := FireInRun(start, steps);
      known', steps' := known, steps + [Fire];
      if hasFunction {
        ghost var more;
        known', more := RunFunction(known);
        FiringsBounded(fired, more);
        LogGrows(fired, more);
        ForwardConcat(start, steps', more);
        steps' := steps' + more;
      }
    }

    /** One firing as a step of a run. */
    method FireInRun(ghost start: Clock<FrozenTimer>, ghost steps: seq<Step<FrozenTimer>>) returns (ghost fired: Clock<FrozenTimer>)
      requires Valid() && Inv(Model) && |timers| > 0 && timers[0].when <= now
      requires Forward(start, steps) && Model == Steps(start, steps)
      modifies this`timers, this`Model, timers[0]
      ensures Valid() && Inv(Model) && fired == Model && Beats(Model.list, now) < Beats(old(Model).list, now)
      ensures Forward(start, steps + [Fire]) && Model == Steps(start, steps + [Fire])
    {
      ghost var before := Model;
      FireNext();
      FireUsesOneBeat(before);
      FireKeepsInv(before);
      OneStep(before, Fire);
      ForwardConcat(start, steps, [Fire]);
      fired := Model;
    }
  }
}
