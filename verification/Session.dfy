/** A session keeps a lease alive and tells the election about it. */
module Sessions {
  import opened Options
  import C = Campaigns

  /** Where the session's loop is. */
  datatype Phase = Top | Selecting | BackingOff | Stopped

  /** Close or Reset in progress; they do not overlap. */
  datatype Control = Free | Closing(restart: bool)

  /** `keepAlive` says whether the keep-alive channel is set; the observer is the onSessionChange of `election`. */
  datatype Session = Session(phase: Phase, keepAlive: bool, running: bool, control: Control, lease: Option<nat>, election: C.Election)

  const NEW := Session(Top, false, true, Free, None, C.NEW)

  datatype Step =
    | Gain(lease: nat)
    | GainError(granted: Option<nat>, channel: bool)
    | Skip
    | Retry
    | Leave
    | Heartbeat
    | HeartbeatLost
    | Done(revoked: bool)
    | Close(restart: bool)
    | Closed
    | Campaign(step: C.Step)

  /** Calls the observer; the caller goes on when onSessionChange has returned and the election is idle again. */
  function Observe(s: Session, call: C.Call): Session {
    s.(election := C.Observe(s.election, call))
  }

  predicate Enabled(s: Session, step: Step) {
    match step
    case Campaign(c) => C.Enabled(s.election, c)
    case Close(_) => s.control.Free? && s.running
    case _ =>
      && s.election.doing.Idle?
      && match step
         case Gain(_) => s.phase.Top? && !s.keepAlive
         case GainError(granted, channel) => s.phase.Top? && !s.keepAlive && (granted.None? ==> !channel)
         case Skip => s.phase.Top? && s.keepAlive
         case Retry => s.phase.BackingOff?
         case Leave => s.phase.BackingOff? && s.control.Closing?
         case Heartbeat => s.phase.Selecting?
         case HeartbeatLost => s.phase.Selecting?
         case Done(_) => s.phase.Selecting? && s.control.Closing?
         case _ => s.control.Closing? && s.phase.Stopped?
  }

  function Next(s: Session, step: Step): Session
    requires Enabled(s, step)
  {
    match step
    case Gain(lease) => Observe(s.(lease := Some(lease), keepAlive := true, phase := Selecting), C.HasLease(lease))
    case GainError(granted, channel) => Observe(s.(lease := granted, keepAlive := channel, phase := BackingOff), C.NoLease)
    case Skip => s.(phase := Selecting)
    case Retry => s.(phase := Top)
    case Leave => s.(running := false, phase := Stopped)
    case Heartbeat => s.(phase := Top)
    case HeartbeatLost => Observe(s.(keepAlive := false, phase := Top), C.NoLease)
    case Done(revoked) =>
      var s1 := s.(keepAlive := false, running := false, phase := Stopped);
      if s.lease.None? || revoked then s1 else Observe(s1, C.NoLease)
    case Close(restart) => s.(control := Closing(restart))
    case Closed =>
      var s1 := Observe(s, C.NoLease).(control := Free);
      if s.control.restart then s1.(running := true, phase := Top) else s1
    case Campaign(c) => s.(election := C.Next(s.election, c))
  }

  predicate Holding(s: Session) {
    C.Holding(s.election.calls)
  }

  /** A lease is held only while its keep-alive channel is, up to the last moments of Close. */
  ghost predicate Kept(s: Session) {
    && (Holding(s) && !s.keepAlive ==> s.phase.Stopped? && s.control.Closing?)
    && (s.phase.BackingOff? ==> !Holding(s)) && (s.running <==> !s.phase.Stopped?)
  }

  ghost predicate Inv(s: Session) {
    C.Inv(s.election) && Kept(s)
  }

  lemma ObserveKeeps(s: Session, call: C.Call)
    requires C.Inv(s.election) && s.election.doing.Idle? && (call.HasLease? ==> !Holding(s))
    ensures C.Inv(Observe(s, call).election) && Holding(Observe(s, call)) == call.HasLease?
  {
    C.ObserveKeepsInv(s.election, call);
  }

  lemma CampaignKeeps(s: Session, step: C.Step)
    requires C.Inv(s.election) && C.Enabled(s.election, step)
    ensures C.Inv(C.Next(s.election, step)) && C.Next(s.election, step).calls == s.election.calls
  {
    C.NextKeepsInv(s.election, step);
  }

  lemma NextKeepsInv(s: Session, step: Step)
    requires Inv(s) && Enabled(s, step)
    ensures Inv(Next(s, step))
    ensures step.Gain? ==> !Holding(s)
  {
    match step
    case Gain(lease) => ObserveKeeps(s.(lease := Some(lease), keepAlive := true, phase := Selecting), C.HasLease(lease));
    case GainError(granted, channel) => ObserveKeeps(s.(lease := granted, keepAlive := channel, phase := BackingOff), C.NoLease);
    case HeartbeatLost => ObserveKeeps(s.(keepAlive := false, phase := Top), C.NoLease);
    case Done(_) => ObserveKeeps(s.(keepAlive := false, running := false, phase := Stopped), C.NoLease);
    case Closed => ObserveKeeps(s, C.NoLease);
    case Campaign(c) => CampaignKeeps(s, c);
    case _ =>
  }

  ghost predicate IsRun(states: seq<Session>, steps: seq<Step>) {
    && |states| == |steps| + 1 && states[0] == NEW
    && forall i :: 0 <= i < |steps| ==> Enabled(states[i], steps[i]) && states[i + 1] == Next(states[i], steps[i])
  }

  lemma {:induction false} RunKeepsInv(states: seq<Session>, steps: seq<Step>, i: nat)
    requires IsRun(states, steps) && i < |states|
    ensures Inv(states[i])
  {
    if i > 0 {
      RunKeepsInv(states, steps, i - 1);
      NextKeepsInv(states[i - 1], steps[i - 1]);
    }
  }

  /** Between two calls with a lease there is always one without. */
  lemma LeasesAreSeparated(states: seq<Session>, steps: seq<Step>, n: nat, i: nat, j: nat)
    requires IsRun(states, steps) && n < |states| && i < j < |states[n].election.calls|
    requires states[n].election.calls[i].HasLease? && states[n].election.calls[j].HasLease?
    ensures exists k :: i < k < j && states[n].election.calls[k].NoLease?
  {
    RunKeepsInv(states, steps, n);
    NoLeaseBefore(states[n].election.calls, j);
  }

  lemma {:induction false} NoLeaseBefore(calls: seq<C.Call>, j: nat)
    requires C.Alternates(calls) && 0 < j < |calls| && calls[j].HasLease?
    ensures calls[j - 1].NoLease?
  {
    if j < |calls| - 1 { NoLeaseBefore(calls[..|calls| - 1], j); }
  }

  /**
  In every run, all goroutines alive work for the lease handed over last, so those of two leases never meet; the
  leader flag is up only while one of them lives; and each lease handed over starts one campaign.
  */
  lemma CampaignsFollowLeases(states: seq<Session>, steps: seq<Step>, n: nat)
    requires IsRun(states, steps) && n < |states|
    ensures var e := states[n].election;
            && (forall g :: g in e.group ==> C.Latest(e.calls) == Some(e.group[g].lease))
            && (forall g, h :: g in e.group && h in e.group ==> e.group[g].lease == e.group[h].lease)
            && (e.isLeader ==> exists g :: g in e.group && C.Latest(e.calls) == Some(e.group[g].lease))
            && (e.doing.Idle? ==> e.started == C.Leases(e.calls))
  {
    RunKeepsInv(states, steps, n);
    var e := states[n].election;
    if e.isLeader {
      var g :| C.Elected(e, g);
      assert g in e.group;
    }
  }

  /** Once onSessionChange has returned from a call without a lease, no goroutine is left and the flag is down. */
  lemma LossEndsCampaign(states: seq<Session>, steps: seq<Step>, n: nat)
    requires IsRun(states, steps) && n < |states| && states[n].election.doing.Idle? && !Holding(states[n])
    ensures states[n].election.group == map[] && states[n].election.counter == 0 && !states[n].election.isLeader
  {
    RunKeepsInv(states, steps, n);
  }

  // ---------- what the observer is told ----------

  /** The calls a step makes: with the lease gained, and without one whenever a lease is lost, not gained or given up. */
  function Told(s: Session, step: Step): seq<C.Call> {
    match step
    case Gain(lease) => [C.HasLease(lease)]
    case GainError(_, _) => [C.NoLease]
    case HeartbeatLost => [C.NoLease]
    case Done(revoked) => if s.lease.Some? && !revoked then [C.NoLease] else []
    case Closed => [C.NoLease]
    case _ => []
  }

  /** The observer hears exactly that, and a step that tells it nothing leaves the election to itself. */
  lemma ObserverHears(s: Session, step: Step)
    requires Enabled(s, step)
    ensures Next(s, step).election.calls == s.election.calls + Told(s, step)
    ensures Told(s, step) == [] && !step.Campaign? ==> Next(s, step).election == s.election
  {
    if step.Campaign? { C.NextKeepsCalls(s.election, step.step); }
  }

  /** The session can come to hold a lease within `n` steps. */
  ghost predicate CanHold(s: Session, n: nat)
    decreases n
  {
    Holding(s) || (n > 0 && exists step :: Enabled(s, step) && CanHold(Next(s, step), n - 1))
  }

  lemma OneMoreStep(s: Session, step: Step, n: nat)
    requires Enabled(s, step) && CanHold(Next(s, step), n)
    ensures CanHold(s, n + 1)
  {}

  lemma GainHolds(s: Session)
    requires Inv(s) && s.election.doing.Idle? && s.phase.Top? && !s.keepAlive
    ensures CanHold(s, 1)
  {
    NextKeepsInv(s, Gain(1));
    assert Holding(Next(s, Gain(1)));
    OneMoreStep(s, Gain(1), 0);
  }

  lemma SelectingHolds(s: Session)
    requires Inv(s) && s.election.doing.Idle? && s.phase.Selecting? && !Holding(s)
    ensures CanHold(s, 2)
  {
    NextKeepsInv(s, HeartbeatLost);
    GainHolds(Next(s, HeartbeatLost));
    OneMoreStep(s, HeartbeatLost, 1);
  }

  lemma TopHolds(s: Session) returns (n: nat)
    requires Inv(s) && s.election.doing.Idle? && s.phase.Top? && !Holding(s)
    ensures CanHold(s, n)
  {
    if s.keepAlive {
      NextKeepsInv(s, Skip);
      SelectingHolds(Next(s, Skip));
      OneMoreStep(s, Skip, 2);
      n := 3;
    } else {
      GainHolds(s);
      n := 1;
    }
  }

  /** A running session goes on trying: whatever happened to its lease, it can gain another. */
  lemma CanRegain(s: Session) returns (n: nat)
    requires Inv(s) && s.running && s.election.doing.Idle?
    ensures CanHold(s, n)
  {
    if Holding(s) {
      n := 0;
    } else if s.phase.Selecting? {
      SelectingHolds(s);
      n := 2;
    } else if s.phase.Top? {
      n := TopHolds(s);
    } else {
      NextKeepsInv(s, Retry);
      n := TopHolds(Next(s, Retry));
      OneMoreStep(s, Retry, n);
      n := n + 1;
    }
  }

  /** What Close and Reset leave behind: no lease, and a loop that has stopped, or started again. */
  lemma ClosedMeans(s: Session)
    requires Inv(s) && Enabled(s, Closed)
    ensures var t := Next(s, Closed);
            && t.control.Free? && !Holding(t) && t.running == s.control.restart
            && t.phase == if s.control.restart then Top else Stopped
  {
    NextKeepsInv(s, Closed);
    assert Next(s, Closed).election.calls[|s.election.calls|] == C.NoLease;
  }

  /** The loop stops only when it is asked to, with its keep-alive channel given up unless it was backing off. */
  lemma StopsOnlyWhenAsked(s: Session, step: Step)
    requires Enabled(s, step) && s.running && !Next(s, step).running
    ensures s.control.Closing? && (step.Leave? || step.Done?) && (step.Done? ==> !Next(s, step).keepAlive)
  {}

  /** The close or reset that is under way after these steps. */
  function UnderWay(steps: seq<Step>): Control {
    if steps == [] then Free
    else
      match steps[|steps| - 1]
      case Close(restart) => Closing(restart)
      case Closed => Free
      case _ => UnderWay(steps[..|steps| - 1])
  }

  lemma ControlStep(s: Session, step: Step)
    requires Enabled(s, step)
    ensures Next(s, step).control == if step.Close? then Closing(step.restart) else if step.Closed? then Free else s.control
  {}

  /** A close ends as a close and a reset as a reset. */
  lemma {:induction false} CloseIsRemembered(states: seq<Session>, steps: seq<Step>, n: nat)
    requires IsRun(states, steps) && n < |states|
    ensures states[n].control == UnderWay(steps[..n])
  {
    if n > 0 {
      CloseIsRemembered(states, steps, n - 1);
      assert steps[..n][..n - 1] == steps[..n - 1];
      ControlStep(states[n - 1], steps[n - 1]);
    }
  }

  ghost predicate IsClosed(s: Session, calls: seq<C.Call>) {
    s.control.Free? && !s.running && s.phase.Stopped? && s.election.calls == calls
  }

  lemma StepKeepsClosed(s: Session, step: Step, calls: seq<C.Call>)
    requires IsClosed(s, calls) && Enabled(s, step)
    ensures IsClosed(Next(s, step), calls)
  {
    assert step.Campaign?;
    C.NextKeepsCalls(s.election, step.step);
  }

  /** A closed session stays closed, and the observer hears no more from it. */
  lemma {:induction false} ClosedForGood(states: seq<Session>, steps: seq<Step>, i: nat, j: nat)
    requires IsRun(states, steps) && i < j < |states| && steps[i] == Closed && states[i].control == Closing(false)
    ensures IsClosed(states[j], states[i].election.calls + [C.NoLease])
  {
    if j == i + 1 {
      RunKeepsInv(states, steps, i);
      ClosedMeans(states[i]);
      ObserverHears(states[i], Closed);
    } else {
      ClosedForGood(states, steps, i, j - 1);
      StepKeepsClosed(states[j - 1], steps[j - 1], states[i].election.calls + [C.NoLease]);
    }
  }

  /** The flag as the last step that spoke of it left it. */
  function Flag(steps: seq<Step>): bool {
    if steps == [] then false
    else
      var before, last := Flag(steps[..|steps| - 1]), steps[|steps| - 1];
      if last.Campaign? then C.FlagAfter(last.step, before) else before
  }

  lemma FlagStep(s: Session, step: Step)
    requires Enabled(s, step)
    ensures Next(s, step).election.isLeader == if step.Campaign? then C.FlagAfter(step.step, s.election.isLeader) else s.election.isLeader
  {
    if step.Campaign? { C.FlagMoves(s.election, step.step); }
  }

  /** The leader flag says what was last found out, and an error or a stop takes it down. */
  lemma {:induction false} FlagIsLastWord(states: seq<Session>, steps: seq<Step>, n: nat)
    requires IsRun(states, steps) && n < |states|
    ensures states[n].election.isLeader == Flag(steps[..n])
  {
    if n > 0 {
      FlagIsLastWord(states, steps, n - 1);
      assert steps[..n][..n - 1] == steps[..n - 1];
      FlagStep(states[n - 1], steps[n - 1]);
    }
  }

  /** A session with lease 1 and one campaigning goroutine, in a phase. */
  function Lone(calls: seq<C.Call>, doing: C.Doing, done: C.Channel, leads: bool, phase: C.Phase): Session {
    Session(if doing.Idle? then Selecting else Top, doing.Idle?, true, Free, Some(1),
            C.Election(calls, doing, true, leads, 1, doing.Waiting?, done, map[0 := C.Routine(1, phase)], [1]))
  }

  lemma LoneCampaigns()
    ensures Enabled(NEW, Gain(1)) && Enabled(Next(NEW, Gain(1)), Campaign(C.Until(0)))
    ensures Next(Next(NEW, Gain(1)), Campaign(C.Until(0))) == Lone([C.HasLease(1)], C.Idle, C.Open, false, C.Campaigning)
  {}

  lemma LoneAnnounces(calls: seq<C.Call>)
    ensures var s := Lone(calls, C.Idle, C.Open, false, C.Campaigning);
            && Enabled(s, Campaign(C.Announce(0, true)))
            && Next(s, Campaign(C.Announce(0, true))) == Lone(calls, C.Idle, C.Open, true, C.Announced)
  {}

  lemma LoneStops(calls: seq<C.Call>)
    ensures var s := Lone(calls, C.Idle, C.Open, true, C.Announced);
            && Enabled(s, HeartbeatLost) && Enabled(Next(s, HeartbeatLost), Campaign(C.StopLock))
            && Next(Next(s, HeartbeatLost), Campaign(C.StopLock)) == Lone(calls + [C.NoLease], C.Waiting, C.Closed, true, C.Announced)
  {}

  lemma LoneHangs(calls: seq<C.Call>, step: C.Step)
    ensures !C.Enabled(Lone(calls, C.Waiting, C.Closed, true, C.Announced).election, step)
  {}

  /**
  Stop can wait for ever: the lease is lost between the announcement of the leader and the start of the watch. Then
  nothing of the election moves any more, and its flag stays up without a lease.
  */
  lemma StopCanHang() returns (states: seq<Session>, steps: seq<Step>)
    ensures IsRun(states, steps)
    ensures steps == [Gain(1), Campaign(C.Until(0)), Campaign(C.Announce(0, true)), HeartbeatLost, Campaign(C.StopLock)]
    ensures states[5].election.doing.Waiting? && states[5].election.isLeader && !Holding(states[5])
    ensures forall step :: !C.Enabled(states[5].election, step)
  {
    steps := [Gain(1), Campaign(C.Until(0)), Campaign(C.Announce(0, true)), HeartbeatLost, Campaign(C.StopLock)];
    var calls := [C.HasLease(1)];
    LoneCampaigns();
    LoneAnnounces(calls);
    LoneStops(calls);
    var s2, s3 := Lone(calls, C.Idle, C.Open, false, C.Campaigning), Lone(calls, C.Idle, C.Open, true, C.Announced);
    var s5 := Lone(calls + [C.NoLease], C.Waiting, C.Closed, true, C.Announced);
    states := [NEW, Next(NEW, Gain(1)), s2, s3, Next(s3, HeartbeatLost), s5];
    forall step ensures !C.Enabled(s5.election, step) { LoneHangs(calls + [C.NoLease], step); }
  }
}
