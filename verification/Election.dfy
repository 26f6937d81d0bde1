/** Candidates campaigning against one store; every query, answer and assignment is a step of its own. */
module Elections {
  import opened Options
  import opened CampaignStores

  /** Where a candidate's campaign goroutine is. */
  datatype Phase =
    | Idle
    | Registering
    | Registered(rev: nat)
    | Found(rev: nat, answer: KV)
    | Watching(next: nat)
    | Asking(next: nat)
    | Answered(next: nat, answer: KV)
    | Failed(watching: bool)
    | Withdrawing(again: bool)
    | Withdrawn(again: bool)
    | Ended

  /** `leader` is the captured leaderKV, with the create revision in the latest answer that named its key. */
  datatype Candidate = Candidate(running: bool, phase: Phase, key: Option<Lease>, isLeader: bool, leader: KV)

  datatype System = System(store: Store, owner: map<Lease, nat>, cands: map<nat, Candidate>)

  datatype Step =
    | Grant(c: nat, lease: Lease)
    | Register(c: nat, heard: bool)
    | RegisterError(c: nat)
    | Retry(c: nat)
    | GiveUp(c: nat)
    | Query(c: nat, answer: KV)
    | QueryNone(c: nat)
    | QueryError(c: nat)
    | Announce(c: nat)
    | Deliver(c: nat)
    | Ask(c: nat, answer: KV)
    | AskNone(c: nat)
    | Settle(c: nat)
    | Fatal(c: nat)
    | Shutdown(c: nat)
    | Withdraw(c: nat, reached: bool)
    | Clear(c: nat)
    | LoseLease(c: nat)
    | Expire(lease: Lease)
    | OtherWrite

  /** onErr. */
  function Erred(cand: Candidate, phase: Phase): Candidate {
    cand.(phase := phase, isLeader := false)
  }

  /** onLeaderChange. */
  function Led(cand: Candidate, x: KV, phase: Phase): Candidate {
    cand.(phase := phase, leader := x, isLeader := cand.key == Some(x.key))
  }

  /** When a step can be taken: where the candidate is, and what the store answers. */
  ghost predicate Enabled(s: System, step: Step) {
    if step.OtherWrite? then true
    else if step.Expire? then true
    else
      step.c in s.cands &&
      var cand := s.cands[step.c];
      match step
      case Grant(_, lease) => lease !in s.owner && lease !in s.store.leases && (cand.running || cand.phase.Idle?)
      case Register(_, _) => cand.phase.Registering? && cand.key.Some? && cand.key.value in s.store.leases
      case RegisterError(_) => cand.phase.Registering?
      case Retry(_) => cand.phase.Failed?
      case GiveUp(_) => cand.phase.Failed?
      case Query(_, x) => cand.phase.Registered? && First(s.store, x)
      case QueryNone(_) => cand.phase.Registered? && s.store.live == map[]
      case QueryError(_) => cand.phase.Registered?
      case Announce(_) => cand.phase.Found?
      case Deliver(_) => cand.phase.Watching? && cand.phase.next < |s.store.log|
      case Ask(_, x) => cand.phase.Asking? && First(s.store, x)
      case AskNone(_) => cand.phase.Asking? && s.store.live == map[]
      case Settle(_) => cand.phase.Answered?
      case Fatal(_) => cand.phase.Watching? || cand.phase.Asking?
      case Shutdown(_) => cand.phase.Watching?
      case Withdraw(_, _) => cand.phase.Withdrawing? && cand.key.Some?
      case Clear(_) => cand.phase.Withdrawn?
      case LoseLease(_) => cand.phase.Ended?
  }

  /** The store after a step. */
  function NextStore(s: System, step: Step): Store
    requires Enabled(s, step)
  {
    match step
    case Grant(_, lease) => s.store.(leases := s.store.leases + {lease})
    case Register(c, _) => Created(s.store, s.cands[c].key.value)
    case Withdraw(c, reached) => if reached then Deleted(s.store, s.cands[c].key.value) else s.store
    case Expire(lease) => Expired(s.store, lease)
    case OtherWrite => s.store.(rev := s.store.rev + 1)
    case _ => s.store
  }

  /** The candidate after one of its own steps. */
  function NextCandidate(s: System, step: Step): Candidate
    requires Enabled(s, step) && !step.OtherWrite? && !step.Expire?
  {
    var cand := s.cands[step.c];
    match step
    case Grant(_, lease) => if cand.running then cand else cand.(running := true, phase := Registering, key := Some(lease))
    case Register(_, heard) =>
      if !heard then Erred(cand, Failed(false))
      else cand.(phase := Registered(Created(s.store, cand.key.value).live[cand.key.value]))
    case RegisterError(_) => Erred(cand, Failed(false))
    case Retry(_) => cand.(phase := Registering)
    case GiveUp(_) => if cand.phase.watching then cand.(phase := Withdrawing(true)) else cand.(running := false, phase := Ended)
    case Query(_, x) => cand.(phase := Found(cand.phase.rev, x))
    case QueryNone(_) => cand.(phase := Ended)
    case QueryError(_) => Erred(cand, Failed(true))
    case Announce(_) => Led(cand, cand.phase.answer, Watching(After(s.store.log, cand.phase.rev)))
    case Deliver(_) =>
      var n := cand.phase.next;
      cand.(phase := if s.store.log[n].key == cand.leader.key then Asking(n) else Watching(n + 1))
    case Ask(_, x) => cand.(phase := Answered(cand.phase.next, x))
    case AskNone(_) => Erred(cand, Ended)
    case Settle(_) =>
      var n, x := cand.phase.next, cand.phase.answer;
      if x.key != cand.leader.key then Led(cand, x, Watching(n + 1)) else cand.(phase := Watching(n + 1), leader := x)
    case Fatal(_) => Erred(cand, Ended)
    case Shutdown(_) => cand.(phase := Withdrawing(false))
    case Withdraw(_, _) => cand.(phase := Withdrawn(cand.phase.again))
    case Clear(_) => cand.(phase := if cand.phase.again then Registering else Ended, isLeader := false)
    case LoseLease(_) => cand.(running := false, phase := Idle, isLeader := false)
  }

  function Next(s: System, step: Step): System
    requires Enabled(s, step)
  {
    var owner := if step.Grant? then s.owner[step.lease := step.c] else s.owner;
    if step.OtherWrite? || step.Expire? then System(NextStore(s, step), owner, s.cands)
    else System(NextStore(s, step), owner, s.cands[step.c := NextCandidate(s, step)])
  }

  /** If `x` names the candidate's own key, that key has not been created anew since. */
  ghost predicate Own(s: Store, cand: Candidate, x: KV) {
    cand.key == Some(x.key) && x.key in s.live ==> s.live[x.key] == x.created
  }

  /** What holds of a candidate in every reachable state. */
  ghost predicate Sound(s: Store, owner: map<Lease, nat>, c: nat, cand: Candidate) {
    && (cand.key.Some? ==> cand.key.value in owner && owner[cand.key.value] == c)
    && (cand.isLeader ==> cand.key == Some(cand.leader.key) && FirstWhileLive(s, cand.leader) && Own(s, cand, cand.leader))
    && match cand.phase
       case Registered(rev) => rev <= s.rev && !cand.isLeader
       case Found(rev, x) => rev <= s.rev && !cand.isLeader && FirstWhileLive(s, x) && Own(s, cand, x) && NotMissed(s, x, After(s.log, rev))
       case Watching(n) => n <= |s.log| && Follows(s, cand) && NotMissed(s, cand.leader, n)
       case Asking(n) => n < |s.log| && Follows(s, cand)
       case Answered(n, x) => n < |s.log| && Follows(s, cand) && FirstWhileLive(s, x) && Own(s, cand, x) && NotMissed(s, x, n + 1)
       case Withdrawing(_) => true
       case Withdrawn(_) => true
       case _ => !cand.isLeader
  }

  /** In the watch loop the flag says whether the captured leader is the candidate itself. */
  ghost predicate Follows(s: Store, cand: Candidate) {
    FirstWhileLive(s, cand.leader) && cand.isLeader == (cand.key == Some(cand.leader.key))
  }

  ghost predicate Inv(s: System) {
    Valid(s.store) && forall c :: c in s.cands ==> Sound(s.store, s.owner, c, s.cands[c])
  }

  /** The candidate's own key is not created between the two. */
  ghost predicate KeyNotNew(s: Store, t: Store, cand: Candidate) {
    cand.key.Some? && cand.key.value in t.live ==> cand.key.value in s.live && t.live[cand.key.value] == s.live[cand.key.value]
  }

  /** Nothing the store or another candidate does disturbs a candidate. */
  lemma SoundStable(s: Store, t: Store, owner: map<Lease, nat>, owner': map<Lease, nat>, c: nat, cand: Candidate)
    requires Valid(s) && Grows(s, t) && Sound(s, owner, c, cand) && KeyNotNew(s, t, cand)
    requires forall k :: k in owner ==> k in owner' && owner'[k] == owner[k]
    ensures Sound(t, owner', c, cand)
  {
    if FirstWhileLive(s, cand.leader) { FirstWhileLiveStable(s, t, cand.leader); }
    match cand.phase
    case Found(rev, x) =>
      FirstWhileLiveStable(s, t, x);
      AfterStable(s.log, t.log, rev);
      NotMissedStable(s, t, x, After(s.log, rev));
    case Watching(n) => NotMissedStable(s, t, cand.leader, n);
    case Answered(n, x) =>
      FirstWhileLiveStable(s, t, x);
      NotMissedStable(s, t, x, n + 1);
    case _ =>
  }

  lemma StoreGrows(s: System, step: Step)
    requires Inv(s) && Enabled(s, step)
    ensures Valid(NextStore(s, step)) && Grows(s.store, NextStore(s, step))
  {
    match step
    case Register(c, _) => CreatedGrows(s.store, s.cands[c].key.value);
    case Withdraw(c, _) => DeletedGrows(s.store, s.cands[c].key.value);
    case Expire(lease) => ExpiredGrows(s.store, lease);
    case _ =>
  }

  /** Only the candidate that owns a key creates it. */
  lemma OthersDoNotCreate(s: System, step: Step, c: nat)
    requires Inv(s) && Enabled(s, step) && c in s.cands && !(step.Register? && step.c == c)
    ensures KeyNotNew(s.store, NextStore(s, step), s.cands[c])
  {
    if step.Register? { assert Sound(s.store, s.owner, step.c, s.cands[step.c]) && Sound(s.store, s.owner, c, s.cands[c]); }
  }

  lemma RegisterKeepsSound(s: System, step: Step)
    requires Inv(s) && Enabled(s, step) && step.Register?
    ensures Sound(NextStore(s, step), Next(s, step).owner, step.c, NextCandidate(s, step))
  {
    StoreGrows(s, step);
  }

  lemma DeliverKeepsSound(s: System, step: Step)
    requires Inv(s) && Enabled(s, step) && step.Deliver?
    ensures Sound(NextStore(s, step), Next(s, step).owner, step.c, NextCandidate(s, step))
  {
    var cand := s.cands[step.c];
    var n := cand.phase.next;
    if s.store.log[n].key != cand.leader.key && !Live(s.store, cand.leader) {
      var i: nat :| n <= i < |s.store.log| && s.store.log[i].key == cand.leader.key && !s.store.log[i].put;
      assert n + 1 <= i;
    }
  }

  /** A candidate's own step keeps it sound. */
  lemma StepKeepsSound(s: System, step: Step)
    requires Inv(s) && Enabled(s, step) && !step.OtherWrite? && !step.Expire?
    ensures Sound(NextStore(s, step), Next(s, step).owner, step.c, NextCandidate(s, step))
  {
    if step.Register? {
      RegisterKeepsSound(s, step);
    } else if step.Deliver? {
      DeliverKeepsSound(s, step);
    } else {
      StoreGrows(s, step);
      OthersDoNotCreate(s, step, step.c);
      SoundStable(s.store, NextStore(s, step), s.owner, Next(s, step).owner, step.c, s.cands[step.c]);
      MoveKeepsSound(s, step);
    }
  }

  /** On the store as the step leaves it, the candidate's own assignments keep it sound. */
  lemma MoveKeepsSound(s: System, step: Step)
    requires Enabled(s, step) && !step.OtherWrite? && !step.Expire? && !step.Register? && !step.Deliver? && Valid(NextStore(s, step))
    requires Sound(NextStore(s, step), Next(s, step).owner, step.c, s.cands[step.c])
    ensures Sound(NextStore(s, step), Next(s, step).owner, step.c, NextCandidate(s, step))
  {}

  lemma NextKeepsInv(s: System, step: Step)
    requires Inv(s) && Enabled(s, step)
    ensures Inv(Next(s, step))
  {
    var s' := Next(s, step);
    StoreGrows(s, step);
    if !step.OtherWrite? && !step.Expire? { StepKeepsSound(s, step); }
    forall c | c in s'.cands ensures Sound(s'.store, s'.owner, c, s'.cands[c]) {
      if step.OtherWrite? || step.Expire? || c != step.c {
        OthersDoNotCreate(s, step, c);
        SoundStable(s.store, s'.store, s.owner, s'.owner, c, s.cands[c]);
      }
    }
  }

  /** Campaigns start with an empty store and idle candidates. */
  ghost predicate Init(s: System) {
    && s.store == Store(0, map[], {}, []) && s.owner == map[]
    && forall c :: c in s.cands ==> s.cands[c].phase.Idle? && !s.cands[c].running && !s.cands[c].isLeader && s.cands[c].key == None
  }

  ghost predicate Chained(states: seq<System>, steps: seq<Step>) {
    && |states| == |steps| + 1
    && forall i :: 0 <= i < |steps| ==> Enabled(states[i], steps[i]) && states[i + 1] == Next(states[i], steps[i])
  }

  ghost predicate IsRun(states: seq<System>, steps: seq<Step>) {
    Chained(states, steps) && Init(states[0])
  }

  lemma {:induction false} RunKeepsInv(states: seq<System>, steps: seq<Step>, i: nat)
    requires IsRun(states, steps) && i < |states|
    ensures Inv(states[i])
  {
    if i > 0 {
      RunKeepsInv(states, steps, i - 1);
      NextKeepsInv(states[i - 1], steps[i - 1]);
    }
  }

  /** The candidate thinks it leads, and its key is in the store. */
  ghost predicate Reigns(s: System, c: nat) {
    c in s.cands && s.cands[c].isLeader && s.cands[c].key.Some? && s.cands[c].key.value in s.store.live
  }

  /** Safety: in every state of every run at most one candidate reigns, and its key is the first created. */
  lemma AtMostOneReigns(states: seq<System>, steps: seq<Step>, i: nat, a: nat, b: nat)
    requires IsRun(states, steps) && i < |states| && Reigns(states[i], a) && Reigns(states[i], b)
    ensures a == b
    ensures var k := states[i].cands[a].key.value; First(states[i].store, KV(k, states[i].store.live[k]))
  {
    RunKeepsInv(states, steps, i);
    var s := states[i];
    FirstUnique(s.store, s.cands[a].leader, s.cands[b].leader);
  }

  /**
  Agreement: a candidate that has handled every event follows exactly the first-created live key, and its flag says
  whether that key is its own.
  */
  lemma CaughtUpAgrees(states: seq<System>, steps: seq<Step>, i: nat, c: nat)
    requires IsRun(states, steps) && i < |states| && c in states[i].cands
    requires states[i].cands[c].phase == Watching(|states[i].store.log|)
    ensures var s := states[i];
            && First(s.store, s.cands[c].leader)
            && s.cands[c].isLeader == (s.cands[c].key == Some(s.cands[c].leader.key))
  {
    RunKeepsInv(states, steps, i);
  }

  /** So all candidates that have caught up agree, and exactly the owner of the first key leads among them. */
  lemma CaughtUpCandidatesAgree(states: seq<System>, steps: seq<Step>, i: nat, a: nat, b: nat)
    requires IsRun(states, steps) && i < |states| && a in states[i].cands && b in states[i].cands
    requires states[i].cands[a].phase == states[i].cands[b].phase == Watching(|states[i].store.log|)
    ensures states[i].cands[a].leader == states[i].cands[b].leader
    ensures states[i].cands[a].isLeader && states[i].cands[b].isLeader ==> a == b
  {
    RunKeepsInv(states, steps, i);
    CaughtUpAgrees(states, steps, i, a);
    CaughtUpAgrees(states, steps, i, b);
    FirstUnique(states[i].store, states[i].cands[a].leader, states[i].cands[b].leader);
  }

  /** Candidate `b` has caught up, follows `a`, and its own key is next in line. */
  ghost predicate NextInLine(s: System, a: nat, b: nat) {
    && Reigns(s, a) && b in s.cands && b != a && s.cands[b].phase == Watching(|s.store.log|) && s.cands[b].leader == s.cands[a].leader
    && s.cands[b].key.Some? && s.cands[b].key.value in s.store.live && s.cands[b].key.value != s.cands[a].leader.key
    && forall k :: k in s.store.live && k != s.cands[a].leader.key ==> s.store.live[s.cands[b].key.value] <= s.store.live[k]
  }

  const X := KV(1, 1)

  const ALONE := Store(1, map[1 := 1], {1}, [Event(1, 1, true)])

  const BOTH := Store(2, map[1 := 1, 2 := 2], {1, 2}, [Event(1, 1, true), Event(2, 2, true)])

  function Pair(store: Store, owner: map<Lease, nat>, first: Candidate, second: Candidate): System {
    System(store, owner, map[1 := first, 2 := second])
  }

  const LEADER := Candidate(true, Watching(1), Some(1), true, X)

  function Newcomer(none: KV): Candidate { Candidate(false, Idle, None, false, none) }

  function Campaigner(key: Lease, phase: Phase, none: KV): Candidate { Candidate(true, phase, Some(key), false, none) }

  ghost predicate TwoSteps(s: System, a: Step, b: Step, t: System) {
    Enabled(s, a) && Enabled(Next(s, a), b) && t == Next(Next(s, a), b)
  }

  lemma FirstRegisters(none: KV)
    ensures TwoSteps(Pair(Store(0, map[], {}, []), map[], Newcomer(none), Newcomer(none)), Grant(1, 1), Register(1, true),
                     Pair(ALONE, map[1 := 1], Campaigner(1, Registered(1), none), Newcomer(none)))
  {}

  lemma FirstAnnounces(none: KV)
    ensures TwoSteps(Pair(ALONE, map[1 := 1], Campaigner(1, Registered(1), none), Newcomer(none)), Query(1, X), Announce(1),
                     Pair(ALONE, map[1 := 1], LEADER, Newcomer(none)))
  {}

  lemma SecondRegisters(none: KV)
    ensures TwoSteps(Pair(ALONE, map[1 := 1], LEADER, Newcomer(none)), Grant(2, 2), Register(2, true),
                     Pair(BOTH, map[1 := 1, 2 := 2], LEADER, Campaigner(2, Registered(2), none)))
  {
    assert Next(Next(Pair(ALONE, map[1 := 1], LEADER, Newcomer(none)), Grant(2, 2)), Register(2, true)).store == BOTH;
  }

  lemma SecondAnnounces(none: KV)
    ensures TwoSteps(Pair(BOTH, map[1 := 1, 2 := 2], LEADER, Campaigner(2, Registered(2), none)), Query(2, X), Announce(2),
                     Pair(BOTH, map[1 := 1, 2 := 2], LEADER, Campaigner(2, Watching(2), X)))
  {}

  lemma SecondInLine()
    ensures NextInLine(Pair(BOTH, map[1 := 1, 2 := 2], LEADER, Campaigner(2, Watching(2), X)), 1, 2)
  {}

  lemma TwoMore(states: seq<System>, steps: seq<Step>, a: Step, b: Step, t: System) returns (states': seq<System>, steps': seq<Step>)
    requires IsRun(states, steps) && TwoSteps(states[|steps|], a, b, t)
    ensures IsRun(states', steps') && steps' == steps + [a, b] && states'[|steps'|] == t
  {
    states', steps' := states + [Next(states[|steps|], a), t], steps + [a, b];
  }

  lemma FirstCampaign(none: KV) returns (states: seq<System>, steps: seq<Step>)
    ensures IsRun(states, steps) && states[|steps|] == Pair(ALONE, map[1 := 1], LEADER, Newcomer(none))
    ensures steps == [Grant(1, 1), Register(1, true), Query(1, X), Announce(1)]
  {
    FirstRegisters(none);
    FirstAnnounces(none);
    var s2 := Pair(ALONE, map[1 := 1], Campaigner(1, Registered(1), none), Newcomer(none));
    states, steps := [Pair(Store(0, map[], {}, []), map[], Newcomer(none), Newcomer(none))], [];
    states, steps := TwoMore(states, steps, Grant(1, 1), Register(1, true), s2);
    states, steps := TwoMore(states, steps, Query(1, X), Announce(1), Pair(ALONE, map[1 := 1], LEADER, Newcomer(none)));
  }

  /** From the start, two campaigns one after the other put the second candidate next in line. */
  lemma SuccessorArises(none: KV) returns (states: seq<System>, steps: seq<Step>)
    ensures IsRun(states, steps) && NextInLine(states[|steps|], 1, 2)
    ensures steps == [Grant(1, 1), Register(1, true), Query(1, X), Announce(1), Grant(2, 2), Register(2, true), Query(2, X), Announce(2)]
  {
    SecondRegisters(none);
    SecondAnnounces(none);
    SecondInLine();
    var s6 := Pair(BOTH, map[1 := 1, 2 := 2], LEADER, Campaigner(2, Registered(2), none));
    states, steps := FirstCampaign(none);
    states, steps := TwoMore(states, steps, Grant(2, 2), Register(2, true), s6);
    states, steps := TwoMore(states, steps, Query(2, X), Announce(2),
                             Pair(BOTH, map[1 := 1, 2 := 2], LEADER, Campaigner(2, Watching(2), X)));
  }

  /** The leader's lease runs out, and its successor is delivered the deletion. */
  lemma DeletionDelivered(s: System, a: nat, b: nat) returns (s1: System, s2: System)
    requires Inv(s) && NextInLine(s, a, b)
    ensures Enabled(s, Expire(s.cands[a].leader.key)) && s1 == Next(s, Expire(s.cands[a].leader.key))
    ensures Enabled(s1, Deliver(b)) && s2 == Next(s1, Deliver(b))
    ensures s2.store.live == s.store.live - {s.cands[a].leader.key}
    ensures s2.cands == s.cands[b := s.cands[b].(phase := Asking(|s.store.log|))]
  {
    var gone := s.cands[a].leader.key;
    s1 := Next(s, Expire(gone));
    assert s1.store.live == s.store.live - {gone} && s1.store.log[|s.store.log|].key == gone;
    s2 := Next(s1, Deliver(b));
  }

  /**
  The flag alone is not exclusive: when the leader's lease runs out and its successor is quicker to handle the deletion,
  both flags are set, but only the successor reigns.
  */
  lemma FlagsOverlapAtHandover(s: System, a: nat, b: nat) returns (s1: System, s2: System, s3: System, t: System)
    requires Inv(s) && NextInLine(s, a, b)
    ensures Enabled(s, Expire(s.cands[a].leader.key)) && s1 == Next(s, Expire(s.cands[a].leader.key))
    ensures Enabled(s1, Deliver(b)) && s2 == Next(s1, Deliver(b))
    ensures var x := KV(s.cands[b].key.value, s.store.live[s.cands[b].key.value]); Enabled(s2, Ask(b, x)) && s3 == Next(s2, Ask(b, x))
    ensures Enabled(s3, Settle(b)) && t == Next(s3, Settle(b))
    ensures a in t.cands && t.cands[a].isLeader && !Reigns(t, a) && Reigns(t, b)
  {
    s1, s2 := DeletionDelivered(s, a, b);
    var mine := s.cands[b].key.value;
    var x := KV(mine, s.store.live[mine]);
    assert First(s2.store, x);
    s3 := Next(s2, Ask(b, x));
    t := Next(s3, Settle(b));
  }
}
