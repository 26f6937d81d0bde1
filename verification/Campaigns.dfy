/** The election's side of a session: one campaign per lease, run by the goroutines of a wait group. */
module Campaigns {
  import opened Options

  /** What the session tells the election. */
  datatype Call = HasLease(lease: nat) | NoLease

  /**
  Where a goroutine of the group is. The outer one registers the candidacy, backs off after an error, announces the
  leader it found, takes the group's mutex, and starts the inner one, which watches. `Leaving` has returned false.
  */
  datatype Phase = Campaigning | BackedOff(registered: bool) | Announced | Spawning | Watching | Leaving

  datatype Routine = Routine(lease: nat, phase: Phase)

  datatype Channel = NoChannel | Open | Closed

  /** How far onSessionChange has come: idle, about to start a campaign, or stopping one. */
  datatype Doing = Idle | Starting(lease: nat) | Stopping | Waiting | Clearing

  /**
  `calls` are the session's calls so far, `running` is isRunning, and `counter`, `locked` and `done` make up the wait
  group; `group` are its goroutines, and `started` the leases of all campaigns so far.
  */
  datatype Election = Election(calls: seq<Call>, doing: Doing, running: bool, isLeader: bool,
                               counter: nat, locked: bool, done: Channel, group: map<nat, Routine>, started: seq<nat>)

  const NEW := Election([], Idle, false, false, 0, false, NoChannel, map[], [])

  datatype Step =
    | Until(g: nat)
    | StopLock
    | StopWaited
    | StopClear
    | Fail(g: nat, registered: bool)
    | Retry(g: nat)
    | GiveUp(g: nat)
    | Withdraw(g: nat)
    | NoLeader(g: nat)
    | Announce(g: nat, leads: bool)
    | WatchLock(g: nat)
    | WatchGo(g: nat, h: nat)
    | Change(g: nat, leads: bool)
    | Fatal(g: nat)
    | Quit(g: nat)
    | Exit(g: nat)

  /** onSessionChange, up to its first wait: without a lease it stops what is running, with one it starts if nothing is. */
  function Observe(s: Election, call: Call): Election {
    var s1 := s.(calls := s.calls + [call]);
    match call
    case NoLease => if s.running then s1.(doing := Stopping) else s1
    case HasLease(lease) => if s.running then s1 else s1.(running := true, doing := Starting(lease))
  }

  predicate At(s: Election, g: nat, phase: Phase) {
    g in s.group && s.group[g].phase == phase
  }

  predicate Enabled(s: Election, step: Step) {
    match step
    case Until(g) => s.doing.Starting? && !s.locked && g !in s.group
    case StopLock => s.doing.Stopping? && !s.locked
    case StopWaited => s.doing.Waiting? && s.counter == 0
    case StopClear => s.doing.Clearing?
    case Fail(g, _) => At(s, g, Campaigning)
    case Retry(g) => At(s, g, BackedOff(true)) || At(s, g, BackedOff(false))
    case GiveUp(g) => At(s, g, BackedOff(false)) && s.done.Closed?
    case Withdraw(g) => At(s, g, BackedOff(true)) && s.done.Closed?
    case NoLeader(g) => At(s, g, Campaigning)
    case Announce(g, _) => At(s, g, Campaigning)
    case WatchLock(g) => At(s, g, Announced) && !s.locked
    case WatchGo(g, h) => At(s, g, Spawning) && h !in s.group
    case Change(g, _) => At(s, g, Watching)
    case Fatal(g) => At(s, g, Watching)
    case Quit(g) => At(s, g, Watching) && s.done.Closed?
    case Exit(g) => At(s, g, Leaving) && s.counter > 0
  }

  function Moved(s: Election, g: nat, phase: Phase): Election
    requires g in s.group
  {
    s.(group := s.group[g := s.group[g].(phase := phase)])
  }

  function Next(s: Election, step: Step): Election
    requires Enabled(s, step)
  {
    match step
    case Until(g) =>
      s.(done := if s.done.NoChannel? then Open else s.done, counter := s.counter + 1, doing := Idle,
         group := s.group[g := Routine(s.doing.lease, Campaigning)], started := s.started + [s.doing.lease])
    case StopLock => s.(locked := true, done := if s.done.NoChannel? then s.done else Closed, doing := Waiting)
    case StopWaited => s.(locked := false, done := NoChannel, doing := Clearing)
    case StopClear => s.(running := false, isLeader := false, doing := Idle)
    case Fail(g, registered) => Moved(s, g, BackedOff(registered)).(isLeader := false)
    case Retry(g) => Moved(s, g, Campaigning)
    case GiveUp(g) => Moved(s, g, Leaving).(running := false)
    case Withdraw(g) => Moved(s, g, Campaigning).(isLeader := false)
    case NoLeader(g) => Moved(s, g, Leaving)
    case Announce(g, leads) => Moved(s, g, Announced).(isLeader := leads)
    case WatchLock(g) => Moved(s, g, Spawning)
    case WatchGo(g, h) =>
      var s1 := Moved(s, g, Leaving);
      s1.(counter := s.counter + 1, group := s1.group[h := Routine(s.group[g].lease, Watching)])
    case Change(_, leads) => s.(isLeader := leads)
    case Fatal(g) => Moved(s, g, Leaving).(isLeader := false)
    case Quit(g) => Moved(s, g, Leaving).(isLeader := false)
    case Exit(g) => s.(counter := s.counter - 1, group := s.group - {g})
  }

  // ---------- what the calls say ----------

  /** The last call handed over a lease. */
  predicate Holding(calls: seq<Call>) {
    calls != [] && calls[|calls| - 1].HasLease?
  }

  /** The leases handed over, in order. */
  function Leases(calls: seq<Call>): seq<nat> {
    if calls == [] then []
    else
      var last := calls[|calls| - 1];
      Leases(calls[..|calls| - 1]) + if last.HasLease? then [last.lease] else []
  }

  /** The lease handed over last. */
  function Latest(calls: seq<Call>): Option<nat> {
    if Leases(calls) == [] then None else Some(Leases(calls)[|Leases(calls)| - 1])
  }

  /** A lease is never handed over right after another. */
  ghost predicate Alternates(calls: seq<Call>) {
    calls == [] || (Alternates(calls[..|calls| - 1]) && (Holding(calls) ==> !Holding(calls[..|calls| - 1])))
  }

  lemma OneMoreCall(calls: seq<Call>, call: Call)
    requires Alternates(calls) && (call.HasLease? ==> !Holding(calls))
    ensures Alternates(calls + [call]) && Holding(calls + [call]) == call.HasLease?
    ensures Leases(calls + [call]) == Leases(calls) + if call.HasLease? then [call.lease] else []
    ensures Latest(calls + [call]) == if call.HasLease? then Some(call.lease) else Latest(calls)
  {
    assert (calls + [call])[..|calls|] == calls;
  }

  // ---------- the invariant ----------

  /** onSessionChange and the calls: one campaign per lease, and `running` while one is held. */
  ghost predicate Mirrors(s: Election) {
    && Alternates(s.calls)
    && Leases(s.calls) == s.started + (if s.doing.Starting? then [s.doing.lease] else [])
    && match s.doing
       case Idle => s.running == Holding(s.calls)
       case Starting(_) => s.running && Holding(s.calls)
       case Stopping => s.running && !Holding(s.calls)
       case _ => !Holding(s.calls)
  }

  /** The wait group: the mutex is held and `done` is closed exactly while Stop waits, and there is a channel to close. */
  ghost predicate Guarded(s: Election) {
    && s.locked == s.doing.Waiting?
    && match s.doing
       case Idle => s.done == if s.running then Open else NoChannel
       case Stopping => s.done == Open
       case Waiting => s.done == Closed
       case _ => s.done == NoChannel
  }

  /** No goroutine is alive before a campaign starts, and after Stop has waited for all of them. */
  ghost predicate Quiet(s: Election) {
    s.doing.Starting? || s.doing.Clearing? || (s.doing.Idle? && !s.running)
  }

  /** The goroutines are counted, and all of them work for the lease handed over last. */
  ghost predicate Crewed(s: Election) {
    && s.counter == |s.group| && (Quiet(s) ==> s.group == map[])
    && forall g :: g in s.group ==> Latest(s.calls) == Some(s.group[g].lease)
  }

  /** A goroutine that may have put the flag up: it has announced a leader, or watches. */
  ghost predicate Elected(s: Election, g: nat) {
    g in s.group && (s.group[g].phase.Announced? || s.group[g].phase.Spawning? || s.group[g].phase.Watching?)
  }

  ghost predicate FlagBacked(s: Election) {
    s.isLeader ==> exists g :: Elected(s, g)
  }

  ghost predicate Inv(s: Election) {
    Mirrors(s) && Guarded(s) && Crewed(s) && FlagBacked(s)
  }

  lemma ObserveKeepsInv(s: Election, call: Call)
    requires Inv(s) && s.doing.Idle? && (call.HasLease? ==> !Holding(s.calls))
    ensures Inv(Observe(s, call))
  {
    OneMoreCall(s.calls, call);
    if exists g :: Elected(s, g) {
      var g :| Elected(s, g);
      assert Elected(Observe(s, call), g);
    }
  }

  lemma NextKeepsMirrors(s: Election, step: Step)
    requires Inv(s) && Enabled(s, step)
    ensures Mirrors(Next(s, step)) && Guarded(Next(s, step))
  {}

  lemma MovedCounts(s: Election, g: nat, phase: Phase)
    requires g in s.group
    ensures |Moved(s, g, phase).group| == |s.group|
  {
    assert Moved(s, g, phase).group.Keys == s.group.Keys;
  }

  lemma OneMoreCounts(m: map<nat, Routine>, g: nat, r: Routine)
    requires g !in m
    ensures |m[g := r]| == |m| + 1
  {
    assert m[g := r].Keys == m.Keys + {g};
  }

  lemma OneLessCounts(m: map<nat, Routine>, g: nat)
    requires g in m
    ensures |m - {g}| == |m| - 1
  {
    assert (m - {g}).Keys == m.Keys - {g};
  }

  lemma NextCounts(s: Election, step: Step)
    requires s.counter == |s.group| && Enabled(s, step)
    ensures Next(s, step).counter == |Next(s, step).group|
  {
    match step
    case Until(g) => OneMoreCounts(s.group, g, Routine(s.doing.lease, Campaigning));
    case WatchGo(g, h) =>
      MovedCounts(s, g, Leaving);
      OneMoreCounts(Moved(s, g, Leaving).group, h, Routine(s.group[g].lease, Watching));
    case Exit(g) => OneLessCounts(s.group, g);
    case Fail(g, registered) => MovedCounts(s, g, BackedOff(registered));
    case Retry(g) => MovedCounts(s, g, Campaigning);
    case GiveUp(g) => MovedCounts(s, g, Leaving);
    case Withdraw(g) => MovedCounts(s, g, Campaigning);
    case NoLeader(g) => MovedCounts(s, g, Leaving);
    case Announce(g, _) => MovedCounts(s, g, Announced);
    case WatchLock(g) => MovedCounts(s, g, Spawning);
    case Fatal(g) => MovedCounts(s, g, Leaving);
    case Quit(g) => MovedCounts(s, g, Leaving);
    case _ =>
  }

  lemma NextKeepsLeases(s: Election, step: Step)
    requires Inv(s) && Enabled(s, step)
    ensures var t := Next(s, step);
            (Quiet(t) ==> t.group == map[]) && forall g :: g in t.group ==> Latest(t.calls) == Some(t.group[g].lease)
  {}

  lemma NextKeepsFlagBacked(s: Election, step: Step)
    requires Inv(s) && Enabled(s, step)
    ensures FlagBacked(Next(s, step))
  {
    var t := Next(s, step);
    if t.isLeader {
      if step.Announce? || step.Change? {
        assert Elected(t, step.g);
      } else {
        var g :| Elected(s, g);
        if step.WatchGo? && step.g == g { assert Elected(t, step.h); } else { assert Elected(t, g); }
      }
    }
  }

  lemma NextKeepsCalls(s: Election, step: Step)
    requires Enabled(s, step)
    ensures Next(s, step).calls == s.calls
  {}

  /** The flag after a step, given what it was: as announced, down after an error or a stop, and otherwise as it was. */
  function FlagAfter(step: Step, before: bool): bool {
    match step
    case Announce(_, leads) => leads
    case Change(_, leads) => leads
    case Fail(_, _) => false
    case Withdraw(_) => false
    case Fatal(_) => false
    case Quit(_) => false
    case StopClear => false
    case _ => before
  }

  lemma FlagMoves(s: Election, step: Step)
    requires Enabled(s, step)
    ensures Next(s, step).isLeader == FlagAfter(step, s.isLeader)
  {}

  /** A goroutine leaves only when it gives up before registering, finds no leader, hands over to its watch, or stops watching. */
  lemma LeavesOnlyWhen(s: Election, step: Step, g: nat)
    requires Enabled(s, step) && g in s.group && !At(s, g, Leaving) && At(Next(s, step), g, Leaving)
    ensures match step
            case GiveUp(_) => At(s, g, BackedOff(false))
            case NoLeader(_) => At(s, g, Campaigning)
            case WatchGo(_, h) => At(s, g, Spawning) && At(Next(s, step), h, Watching)
            case Fatal(_) => At(s, g, Watching)
            case Quit(_) => At(s, g, Watching)
            case _ => false
  {}

  /** After an error the campaign goes on: at once, and when a stop is under way after withdrawing. */
  lemma ErrorIsRetried(s: Election, g: nat, registered: bool)
    requires At(s, g, BackedOff(registered))
    ensures Enabled(s, Retry(g)) && At(Next(s, Retry(g)), g, Campaigning)
    ensures registered && s.done.Closed? ==> Enabled(s, Withdraw(g)) && At(Next(s, Withdraw(g)), g, Campaigning)
    ensures !registered && s.done.Closed? ==> Enabled(s, GiveUp(g)) && !Next(s, GiveUp(g)).running
  {}

  /** A goroutine that finds no leader, or cannot go on watching, leaves at once. */
  lemma LeavesAtOnce(s: Election, g: nat)
    ensures Enabled(s, NoLeader(g)) ==> At(Next(s, NoLeader(g)), g, Leaving)
    ensures Enabled(s, Fatal(g)) ==> At(Next(s, Fatal(g)), g, Leaving)
    ensures Enabled(s, Quit(g)) ==> At(Next(s, Quit(g)), g, Leaving)
  {}

  lemma NextKeepsInv(s: Election, step: Step)
    requires Inv(s) && Enabled(s, step)
    ensures Inv(Next(s, step))
  {
    NextKeepsMirrors(s, step);
    NextCounts(s, step);
    NextKeepsLeases(s, step);
    NextKeepsFlagBacked(s, step);
  }
}
