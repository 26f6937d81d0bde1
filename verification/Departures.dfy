/** How campaign keys come and go, and how campaigns end. */
module Departures {
  import opened Options
  import opened CampaignStores
  import opened Elections

  /** A withdrawal that reaches the store takes the candidate's key out, and leaves a deletion if the key was there. */
  lemma WithdrawDeletes(s: System, c: nat)
    requires Enabled(s, Withdraw(c, true))
    ensures var k, t := s.cands[c].key.value, Next(s, Withdraw(c, true)).store;
            && t.live == s.store.live - {k} && t.leases == s.store.leases
            && t.log == s.store.log + if k in s.store.live then [Event(s.store.rev + 1, k, false)] else []
  {}

  /** A lease that runs out takes its key with it, and is gone itself. */
  lemma ExpireDeletes(s: System, k: Lease)
    ensures var t := Next(s, Expire(k)).store;
            && t.live == s.store.live - {k} && t.leases == s.store.leases - {k}
            && t.log == s.store.log + if k in s.store.live then [Event(s.store.rev + 1, k, false)] else []
  {}

  /** A registration files the candidate's key under a new revision, or leaves it with the revision it has. */
  lemma RegisterFiles(s: System, c: nat, heard: bool)
    requires Inv(s) && Enabled(s, Register(c, heard))
    ensures var k, t := s.cands[c].key.value, Next(s, Register(c, heard)).store;
            && k in t.live && t.live - {k} == s.store.live - {k}
            && (if k in s.store.live then t.live[k] == s.store.live[k] else forall other :: other in s.store.live ==> t.live[k] > s.store.live[other])
    ensures heard ==> Next(s, Register(c, heard)).cands[c].phase == Registered(Next(s, Register(c, heard)).store.live[s.cands[c].key.value])
    ensures !heard ==> Next(s, Register(c, heard)).cands[c].phase == Failed(false) && !Next(s, Register(c, heard)).cands[c].isLeader
  {}

  /** No other step brings a key into the store. */
  lemma OnlyRegisterCreates(s: System, step: Step, k: Lease)
    requires Inv(s) && Enabled(s, step) && k !in s.store.live && k in Next(s, step).store.live
    ensures step.Register? && s.cands[step.c].key == Some(k) && k in s.owner && s.owner[k] == step.c && k in s.store.leases
  {
    if step.Register? { assert Sound(s.store, s.owner, step.c, s.cands[step.c]); }
  }

  lemma StepStaysOut(s: System, step: Step, c: nat, k: Lease)
    requires Inv(s) && Enabled(s, step) && k !in s.store.live && k in s.owner && s.owner[k] == c
    requires step.Register? ==> step.c != c
    ensures k !in Next(s, step).store.live && k in Next(s, step).owner && Next(s, step).owner[k] == c
  {
    if k in Next(s, step).store.live { OnlyRegisterCreates(s, step, k); }
  }

  /** Once out, a key stays out for as long as its owner does not register again. */
  lemma {:induction false} StaysOut(states: seq<System>, steps: seq<Step>, i: nat, j: nat, c: nat, k: Lease)
    requires IsRun(states, steps) && i <= j < |states| && k !in states[i].store.live && k in states[i].owner && states[i].owner[k] == c
    requires forall n :: i <= n < j && steps[n].Register? ==> steps[n].c != c
    ensures k !in states[j].store.live && k in states[j].owner && states[j].owner[k] == c
  {
    if i < j {
      StaysOut(states, steps, i, j - 1, c, k);
      RunKeepsInv(states, steps, j - 1);
      StepStaysOut(states[j - 1], steps[j - 1], c, k);
    }
  }

  /**
  Conceding works: after a withdrawal that reached the store, and until the candidate registers again, nobody who has
  handled every event follows it.
  */
  lemma WithdrawnIsNotFollowed(states: seq<System>, steps: seq<Step>, i: nat, j: nat, c: nat, w: nat)
    requires IsRun(states, steps) && i < j < |states| && steps[i] == Withdraw(c, true)
    requires forall n :: i < n < j && steps[n].Register? ==> steps[n].c != c
    requires w in states[j].cands && states[j].cands[w].phase == Watching(|states[j].store.log|)
    ensures states[j].cands[w].leader.key != states[i].cands[c].key.value
  {
    var k := states[i].cands[c].key.value;
    RunKeepsInv(states, steps, i);
    assert Sound(states[i].store, states[i].owner, c, states[i].cands[c]);
    WithdrawDeletes(states[i], c);
    StaysOut(states, steps, i + 1, j, c, k);
    CaughtUpAgrees(states, steps, j, w);
  }

  lemma StepKeepsExpired(s: System, step: Step, k: Lease)
    requires Inv(s) && Enabled(s, step) && k !in s.store.live && k !in s.store.leases && k in s.owner
    ensures var t := Next(s, step); k !in t.store.live && k !in t.store.leases && k in t.owner
  {}

  /** The key of a lease that ran out never comes back. */
  lemma {:induction false} ExpiredStaysOut(states: seq<System>, steps: seq<Step>, i: nat, j: nat, k: Lease)
    requires IsRun(states, steps) && i < j < |states| && steps[i] == Expire(k) && k in states[i].owner
    ensures k !in states[j].store.live && k !in states[j].store.leases && k in states[j].owner
  {
    if i + 1 < j {
      ExpiredStaysOut(states, steps, i, j - 1, k);
      RunKeepsInv(states, steps, j - 1);
      StepKeepsExpired(states[j - 1], steps[j - 1], k);
    } else {
      ExpireDeletes(states[i], k);
    }
  }

  /** The watch that follows an announcement is given every event after the candidate's registration, and no other. */
  lemma WatchesFromRegistration(s: System, c: nat, i: nat)
    requires Inv(s) && Enabled(s, Announce(c)) && i < |s.store.log|
    ensures Next(s, Announce(c)).cands[c].phase.Watching?
    ensures i < Next(s, Announce(c)).cands[c].phase.next <==> s.store.log[i].rev <= s.cands[c].phase.rev
  {
    AfterSplits(s.store.log, s.cands[c].phase.rev, i);
  }

  /** A campaign ends only without a registration, without a leader, on a fatal error, or after withdrawing on request. */
  lemma EndsOnlyWhen(s: System, step: Step, c: nat)
    requires Enabled(s, step) && c in s.cands && !s.cands[c].phase.Ended? && Next(s, step).cands[c].phase.Ended?
    ensures step.GiveUp? || step.QueryNone? || step.AskNone? || step.Fatal? || step.Clear?
    ensures step.GiveUp? ==> s.cands[c].phase == Failed(false)
    ensures step.Clear? ==> s.cands[c].phase == Withdrawn(false)
  {}

  /** A candidate that finds no key at all gives up without a word: wrapping a missing error yields none. */
  lemma NoLeaderEndsQuietly(s: System, c: nat)
    requires Enabled(s, QueryNone(c))
    ensures Next(s, QueryNone(c)).cands[c] == s.cands[c].(phase := Ended) && Next(s, QueryNone(c)).store == s.store
  {}

  /** Every write takes one revision: those to campaign keys leave an event, others do not. */
  lemma RevisionCounts(s: System, step: Step)
    requires Enabled(s, step)
    ensures Next(s, step).store.rev - s.store.rev == |Next(s, step).store.log| - |s.store.log| + if step.OtherWrite? then 1 else 0
    ensures step.OtherWrite? ==> Next(s, step) == s.(store := s.store.(rev := s.store.rev + 1))
  {}

  /** After an error the candidate can register again, at once or having withdrawn. */
  lemma ErrorIsNotTheEnd(s: System, c: nat)
    requires c in s.cands && s.cands[c].phase.Failed?
    ensures Enabled(s, Retry(c)) && Next(s, Retry(c)).cands[c].phase.Registering?
    ensures s.cands[c].phase.watching && s.cands[c].key.Some? ==>
      var s1 := Next(s, GiveUp(c));
      && Enabled(s, GiveUp(c)) && Enabled(s1, Withdraw(c, true)) && Enabled(Next(s1, Withdraw(c, true)), Clear(c))
      && Next(Next(s1, Withdraw(c, true)), Clear(c)).cands[c].phase.Registering?
  {}

  /** Giving up after an error: a candidate that has registered withdraws, one that has not just ends. */
  lemma GivingUp(s: System, c: nat)
    ensures Enabled(s, QueryError(c)) ==>
      var s1 := Next(s, QueryError(c)); Enabled(s1, GiveUp(c)) && Next(s1, GiveUp(c)).cands[c].phase == Withdrawing(true)
    ensures Enabled(s, RegisterError(c)) ==>
      var s1 := Next(s, RegisterError(c)); Enabled(s1, GiveUp(c)) && Next(s1, GiveUp(c)).cands[c].phase == Ended
  {}

  /** A fatal error or an empty store ends the watch with the flag down, and the next lease starts a new campaign. */
  lemma FatalThenNewLease(s: System, c: nat, lease: Lease)
    ensures Enabled(s, Fatal(c)) ==> Next(s, Fatal(c)).cands[c].phase.Ended? && !Next(s, Fatal(c)).cands[c].isLeader
    ensures Enabled(s, AskNone(c)) ==> Next(s, AskNone(c)).cands[c].phase.Ended? && !Next(s, AskNone(c)).cands[c].isLeader
    ensures Enabled(s, LoseLease(c)) && lease !in s.owner && lease !in s.store.leases ==>
      var s1 := Next(s, LoseLease(c));
      && !s1.cands[c].isLeader && Enabled(s1, Grant(c, lease))
      && Next(s1, Grant(c, lease)).cands[c].phase.Registering? && Next(s1, Grant(c, lease)).cands[c].key == Some(lease)
  {}

  /** Shutting down goes by way of a withdrawal and leaves the flag down. */
  lemma ShutdownWithdraws(s: System, c: nat, reached: bool)
    requires Enabled(s, Shutdown(c)) && s.cands[c].key.Some?
    ensures var s1 := Next(s, Shutdown(c));
            && Enabled(s1, Withdraw(c, reached)) && Enabled(Next(s1, Withdraw(c, reached)), Clear(c))
            && Next(Next(s1, Withdraw(c, reached)), Clear(c)).cands[c].phase.Ended?
            && !Next(Next(s1, Withdraw(c, reached)), Clear(c)).cands[c].isLeader
            && (reached ==> s.cands[c].key.value !in Next(Next(s1, Withdraw(c, true)), Clear(c)).store.live)
  {}

  /** Only an event for the key that is followed makes a watcher ask who leads. */
  lemma AsksOnlyAboutLeader(s: System, c: nat)
    requires Enabled(s, Deliver(c))
    ensures var n, t := s.cands[c].phase.next, Next(s, Deliver(c)).cands[c];
            if s.store.log[n].key == s.cands[c].leader.key then t.phase == Asking(n) else t == s.cands[c].(phase := Watching(n + 1))
  {}
}
