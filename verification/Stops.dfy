/** When WaitGroup.Stop returns. */
module Stops {
  import opened Campaigns

  /** Stop can return within `n` steps, by some interleaving. */
  ghost predicate CanReturn(s: Election, n: nat)
    decreases n
  {
    s.doing.Clearing? || (n > 0 && exists step :: Enabled(s, step) && CanReturn(Next(s, step), n - 1))
  }

  lemma OneStep(s: Election, step: Step, n: nat)
    requires Enabled(s, step) && CanReturn(Next(s, step), n)
    ensures CanReturn(s, n + 1)
  {}

  /** Stop is waiting, and a goroutine waits for the mutex that Stop holds. */
  ghost predicate Blocked(s: Election) {
    s.doing.Waiting? && exists g :: At(s, g, Announced)
  }

  lemma BlockedStays(s: Election, step: Step)
    requires Inv(s) && Blocked(s) && Enabled(s, step)
    ensures Blocked(Next(s, step))
  {
    var g :| At(s, g, Announced);
    assert At(Next(s, step), g, Announced);
  }

  lemma {:induction false} BlockedNeverReturns(s: Election, n: nat)
    requires Inv(s) && Blocked(s)
    ensures !CanReturn(s, n)
    decreases n
  {
    if n > 0 {
      forall step | Enabled(s, step) ensures !CanReturn(Next(s, step), n - 1) {
        NextKeepsInv(s, step);
        BlockedStays(s, step);
        BlockedNeverReturns(Next(s, step), n - 1);
      }
    }
  }

  /** Stop is waiting, and no goroutine waits for the mutex. */
  ghost predicate Draining(s: Election) {
    s.doing.Waiting? && forall g :: !At(s, g, Announced)
  }

  /** The next step of a goroutine on its way out, and how many are left after it. */
  function WayOut(g: nat, phase: Phase): (Step, nat) {
    match phase
    case Campaigning => (Fail(g, false), 2)
    case BackedOff(registered) => if registered then (Withdraw(g), 3) else (GiveUp(g), 1)
    case Watching => (Quit(g), 1)
    case _ => (Exit(g), 0)
  }

  lemma StepOut(s: Election, g: nat, step: Step)
    requires Inv(s) && Draining(s) && g in s.group && !s.group[g].phase.Spawning? && step == WayOut(g, s.group[g].phase).0
    ensures Enabled(s, step) && Inv(Next(s, step)) && Next(s, step).doing.Waiting?
    ensures if step.Exit? then Next(s, step).group == s.group - {g}
            else exists phase :: Next(s, step).group == s.group[g := Routine(s.group[g].lease, phase)]
                                 && !phase.Spawning? && !phase.Announced? && WayOut(g, phase).1 < WayOut(g, s.group[g].phase).1
  {
    assert !At(s, g, Announced);
    NextKeepsInv(s, step);
  }

  lemma {:induction false} RoutineLeaves(s: Election, g: nat) returns (t: Election, k: nat)
    requires Inv(s) && Draining(s) && g in s.group && !s.group[g].phase.Spawning?
    ensures Inv(t) && t.doing.Waiting? && t.group == s.group - {g}
    ensures forall n: nat :: CanReturn(t, n) ==> CanReturn(s, n + k)
    decreases WayOut(g, s.group[g].phase).1
  {
    var step := WayOut(g, s.group[g].phase).0;
    StepOut(s, g, step);
    var s1 := Next(s, step);
    if step.Exit? {
      t, k := s1, 1;
      forall n: nat | CanReturn(t, n) ensures CanReturn(s, n + 1) { OneStep(s, step, n); }
    } else {
      forall h ensures !At(s1, h, Announced) { assert !At(s, h, Announced); }
      t, k := RoutineLeaves(s1, g);
      forall n: nat | CanReturn(t, n) ensures CanReturn(s, n + k + 1) { OneStep(s, step, n + k); }
      k := k + 1;
    }
  }

  ghost function Spawners(s: Election): set<nat> {
    set g | g in s.group && s.group[g].phase.Spawning?
  }

  lemma SpawnerLeaves(s: Election, g: nat, h: nat)
    requires Inv(s) && Draining(s) && At(s, g, Spawning) && h !in s.group
    ensures Inv(Next(s, WatchGo(g, h))) && Draining(Next(s, WatchGo(g, h)))
    ensures Spawners(Next(s, WatchGo(g, h))) == Spawners(s) - {g}
  {
    NextKeepsInv(s, WatchGo(g, h));
    var t := Next(s, WatchGo(g, h));
    forall i ensures !At(t, i, Announced) { assert !At(s, i, Announced); }
  }

  lemma OneLessDraining(s: Election, t: Election, g: nat)
    requires Draining(s) && t.doing.Waiting? && g in s.group && t.group == s.group - {g} && Spawners(s) == {}
    ensures Draining(t) && Spawners(t) == {}
  {
    forall h ensures !At(t, h, Announced) { assert !At(s, h, Announced); }
    forall h | h in t.group ensures !t.group[h].phase.Spawning? { assert h !in Spawners(s); }
  }

  lemma {:induction false} FreshId(ids: set<nat>) returns (h: nat)
    ensures forall i :: i in ids ==> i < h
  {
    h := 0;
    if i :| i in ids {
      var h' := FreshId(ids - {i});
      h := if i < h' then h' else i + 1;
      assert forall j :: j in ids ==> j == i || j in ids - {i};
    }
  }

  lemma {:induction false} DrainingReturns(s: Election) returns (n: nat)
    requires Inv(s) && Draining(s)
    ensures CanReturn(s, n)
    decreases |Spawners(s)|, |s.group|
  {
    if s.group == map[] {
      OneStep(s, StopWaited, 0);
      n := 1;
    } else if g :| g in Spawners(s) {
      var h := FreshId(s.group.Keys);
      SpawnerLeaves(s, g, h);
      var n' := DrainingReturns(Next(s, WatchGo(g, h)));
      OneStep(s, WatchGo(g, h), n');
      n := n' + 1;
    } else {
      var g :| g in s.group;
      assert g !in Spawners(s);
      var t, k := RoutineLeaves(s, g);
      OneLessDraining(s, t, g);
      OneLessCounts(s.group, g);
      var n' := DrainingReturns(t);
      n := n' + k;
    }
  }

  /**
  Exactly when Stop can return: while it waits for the goroutines, some interleaving lets it return if and only if none
  of them has announced a leader and not yet taken the mutex to start its watch.
  */
  lemma StopReturnsExactly(s: Election)
    requires Inv(s) && s.doing.Waiting?
    ensures (exists n :: CanReturn(s, n)) <==> forall g :: !At(s, g, Announced)
  {
    if g :| At(s, g, Announced) {
      forall n ensures !CanReturn(s, n) { BlockedNeverReturns(s, n); }
    } else {
      var n := DrainingReturns(s);
      assert CanReturn(s, n);
    }
  }
}
