/** A bounded pool of goroutines with an error collector, as the interleaving of its channel operations. */
module FanOuts {
  import opened Options

  /** What a callback has come to: not submitted, in the callback, about to send its error, about to free its slot, done. */
  datatype Status = Todo | Running | Sending | Releasing | Finished

  /** Where the caller is: submitting with Run, filling slots in Wait, waiting for the collector, returned. */
  datatype Caller = Submitting | Filling(filled: nat) | Joining | Returned

  /**
  `slots` is the fill of the size channel and `buffer` the content of the error channel, both of capacity `size`;
  `outcome` is what each callback returns.
  */
  datatype Pool<E> = Pool(size: nat, outcome: seq<Option<E>>, status: seq<Status>, slots: nat,
                          buffer: seq<E>, closed: bool, errs: seq<E>, collected: bool, caller: Caller)

  datatype Step =
    | Spawn(j: nat)
    | Return(j: nat)
    | Send(j: nat)
    | Release(j: nat)
    | Collect
    | CollectorExit
    | StartWait
    | Fill
    | CloseChannel
    | Join

  /** A size of zero means one. */
  function NewPool<E>(size: nat, outcome: seq<Option<E>>): Pool<E> {
    Pool(if size == 0 then 1 else size, outcome, seq(|outcome|, _ => Todo), 0, [], false, [], false, Submitting)
  }

  ghost predicate Enabled<E>(p: Pool<E>, step: Step)
    requires |p.status| == |p.outcome|
  {
    match step
    case Spawn(j) => p.caller.Submitting? && j < |p.status| && p.status[j].Todo? && p.slots < p.size
    case Return(j) => j < |p.status| && p.status[j].Running?
    case Send(j) => j < |p.status| && p.status[j].Sending? && p.outcome[j].Some? && (p.closed || |p.buffer| < p.size)
    case Release(j) => j < |p.status| && p.status[j].Releasing? && p.slots > 0
    case Collect => p.buffer != []
    case CollectorExit => p.closed && p.buffer == [] && !p.collected
    case StartWait => p.caller.Submitting? && Todo !in p.status
    case Fill => p.caller.Filling? && p.caller.filled < p.size && p.slots < p.size
    case CloseChannel => p.caller.Filling? && p.caller.filled == p.size
    case Join => p.caller.Joining? && p.collected
  }

  /** A send on the closed channel is the one step that panics. */
  ghost predicate Panics<E>(p: Pool<E>, step: Step) {
    step.Send? && p.closed
  }

  ghost function Next<E>(p: Pool<E>, step: Step): Pool<E>
    requires |p.status| == |p.outcome| && Enabled(p, step)
  {
    match step
    case Spawn(j) => p.(status := p.status[j := Running], slots := p.slots + 1)
    case Return(j) => p.(status := p.status[j := if p.outcome[j].Some? then Sending else Releasing])
    case Send(j) => p.(status := p.status[j := Releasing], buffer := p.buffer + [p.outcome[j].value])
    case Release(j) => p.(status := p.status[j := Finished], slots := p.slots - 1)
    case Collect => p.(errs := p.errs + [p.buffer[0]], buffer := p.buffer[1..])
    case CollectorExit => p.(collected := true)
    case StartWait => p.(caller := Filling(0))
    case Fill => p.(caller := Filling(p.caller.filled + 1), slots := p.slots + 1)
    case CloseChannel => p.(caller := Joining, closed := true)
    case Join => p.(caller := Returned)
  }

  // ---------- sums over the callbacks ----------

  function Sum(w: Status -> nat, status: seq<Status>): nat {
    if status == [] then 0 else w(status[0]) + Sum(w, status[1..])
  }

  lemma {:induction false} SumUpdate(w: Status -> nat, status: seq<Status>, j: nat, v: Status)
    requires j < |status|
    ensures Sum(w, status[j := v]) + w(status[j]) == Sum(w, status) + w(v)
  {
    if j > 0 {
      SumUpdate(w, status[1..], j - 1, v);
      assert status[j := v][1..] == status[1..][j - 1 := v];
    } else {
      assert status[j := v][1..] == status[1..];
    }
  }

  lemma {:induction false} SumMonotonic(w: Status -> nat, w': Status -> nat, status: seq<Status>)
    requires forall s: Status :: w(s) <= w'(s)
    ensures Sum(w, status) <= Sum(w', status)
  {
    if status != [] { SumMonotonic(w, w', status[1..]); }
  }

  lemma {:induction false} SumMember(w: Status -> nat, status: seq<Status>, j: nat)
    requires j < |status|
    ensures w(status[j]) <= Sum(w, status)
  {
    if j > 0 { SumMember(w, status[1..], j - 1); }
  }

  /** Holds a slot. */
  function Holds(s: Status): nat {
    if s.Running? || s.Sending? || s.Releasing? then 1 else 0
  }

  /** Is inside its callback. */
  function Runs(s: Status): nat {
    if s.Running? then 1 else 0
  }

  /** An upper bound on the steps a callback still has ahead; its error in the channel counts for itself. */
  function Effort(s: Status): nat {
    match s
    case Todo => 5
    case Running => 4
    case Sending => 3
    case Releasing => 1
    case Finished => 0
  }

  predicate Unsent(s: Status) {
    s.Todo? || s.Running? || s.Sending?
  }

  /** What a callback still owes: its error, until it is sent. */
  ghost function Debt<E>(s: Status, outcome: Option<E>): multiset<E> {
    if outcome.Some? && Unsent(s) then multiset{outcome.value} else multiset{}
  }

  /** The errors that have not been sent yet. */
  ghost function Owed<E>(status: seq<Status>, outcome: seq<Option<E>>): multiset<E>
    requires |status| == |outcome|
  {
    if status == [] then multiset{} else Debt(status[0], outcome[0]) + Owed(status[1..], outcome[1..])
  }

  ghost function Errors<E>(outcome: seq<Option<E>>): multiset<E> {
    if outcome == [] then multiset{}
    else (if outcome[0].Some? then multiset{outcome[0].value} else multiset{}) + Errors(outcome[1..])
  }

  /** A callback that moves on without sending owes the same. */
  lemma {:induction false} OwedSame<E>(status: seq<Status>, outcome: seq<Option<E>>, j: nat, v: Status)
    requires j < |status| == |outcome| && Debt(status[j], outcome[j]) == Debt(v, outcome[j])
    ensures Owed(status[j := v], outcome) == Owed(status, outcome)
  {
    if j > 0 {
      OwedSame(status[1..], outcome[1..], j - 1, v);
      assert status[j := v][1..] == status[1..][j - 1 := v];
    } else {
      assert status[j := v][1..] == status[1..];
    }
  }

  /** A callback that sends settles its debt. */
  lemma {:induction false} OwedLess<E>(status: seq<Status>, outcome: seq<Option<E>>, j: nat, v: Status)
    requires j < |status| == |outcome| && Debt(v, outcome[j]) == multiset{}
    ensures Debt(status[j], outcome[j]) + Owed(status[j := v], outcome) == Owed(status, outcome)
  {
    if j > 0 {
      OwedLess(status[1..], outcome[1..], j - 1, v);
      assert status[j := v][1..] == status[1..][j - 1 := v];
      Exchange(Debt(status[j], outcome[j]), Debt(status[0], outcome[0]), Owed(status[1..][j - 1 := v], outcome[1..]));
    } else {
      assert status[j := v][1..] == status[1..];
      assert multiset{} + Owed(status[1..], outcome[1..]) == Owed(status[1..], outcome[1..]);
    }
  }

  lemma Exchange<E>(a: multiset<E>, b: multiset<E>, c: multiset<E>)
    ensures a + (b + c) == b + (a + c)
  {}

  // ---------- the invariant ----------

  function Filled(c: Caller, size: nat): nat {
    match c
    case Submitting => 0
    case Filling(k) => k
    case _ => size
  }

  /** Slots are held by callbacks and by Wait, and the channel is closed only when Wait holds them all. */
  ghost predicate Shape<E>(p: Pool<E>) {
    && p.size > 0 && |p.status| == |p.outcome|
    && p.slots == Sum(Holds, p.status) + Filled(p.caller, p.size) <= p.size
    && |p.buffer| <= p.size
    && (p.closed <==> p.caller.Joining? || p.caller.Returned?)
    && (p.collected ==> p.closed && p.buffer == []) && (p.caller.Returned? ==> p.collected)
    && (!p.caller.Submitting? ==> Todo !in p.status)
    && (forall j :: 0 <= j < |p.status| && p.status[j].Sending? ==> p.outcome[j].Some?)
  }

  /** Every error is collected, in the channel, or still owed by its callback. */
  ghost predicate Conserved<E>(p: Pool<E>) {
    |p.status| == |p.outcome| && multiset(p.errs) + multiset(p.buffer) + Owed(p.status, p.outcome) == Errors(p.outcome)
  }

  ghost predicate Inv<E>(p: Pool<E>) {
    Shape(p) && Conserved(p)
  }

  lemma {:induction false} AllOwedAtFirst<E>(status: seq<Status>, outcome: seq<Option<E>>)
    requires |status| == |outcome| && forall j :: 0 <= j < |status| ==> status[j].Todo?
    ensures Sum(Holds, status) == 0 && Owed(status, outcome) == Errors(outcome)
  {
    if status != [] { AllOwedAtFirst(status[1..], outcome[1..]); }
  }

  lemma NewPoolInv<E>(size: nat, outcome: seq<Option<E>>)
    ensures Inv(NewPool(size, outcome))
  {
    AllOwedAtFirst(NewPool(size, outcome).status, outcome);
  }

  /** Nobody sends on the closed error channel: by then every slot is held by Wait itself. */
  lemma NeverPanics<E>(p: Pool<E>, step: Step)
    requires Shape(p) && Enabled(p, step)
    ensures !Panics(p, step)
  {
    if step.Send? && p.closed { SumMember(Holds, p.status, step.j); }
  }

  lemma CallbackKeepsShape<E>(p: Pool<E>, step: Step)
    requires Shape(p) && Enabled(p, step) && (step.Spawn? || step.Return? || step.Send? || step.Release?)
    ensures Shape(Next(p, step))
  {
    NeverPanics(p, step);
    SumUpdate(Holds, p.status, step.j, Next(p, step).status[step.j]);
  }

  lemma SentAndOwed<E>(errs: seq<E>, buffer: seq<E>, e: E, owed: multiset<E>)
    ensures multiset(errs) + multiset(buffer + [e]) + owed == multiset(errs) + multiset(buffer) + (multiset{e} + owed)
  {}

  lemma SendConserves<E>(p: Pool<E>, j: nat)
    requires Conserved(p) && Enabled(p, Send(j))
    ensures Conserved(Next(p, Send(j)))
  {
    OwedLess(p.status, p.outcome, j, Releasing);
    SentAndOwed(p.errs, p.buffer, p.outcome[j].value, Owed(p.status[j := Releasing], p.outcome));
  }

  lemma CallbackConserves<E>(p: Pool<E>, step: Step)
    requires Conserved(p) && Enabled(p, step) && (step.Spawn? || step.Return? || step.Release?)
    ensures Conserved(Next(p, step))
  {
    OwedSame(p.status, p.outcome, step.j, Next(p, step).status[step.j]);
  }

  lemma NextKeepsInv<E>(p: Pool<E>, step: Step)
    requires Inv(p) && Enabled(p, step)
    ensures Inv(Next(p, step))
  {
    if step.Spawn? || step.Return? || step.Send? || step.Release? {
      CallbackKeepsShape(p, step);
      if step.Send? { SendConserves(p, step.j); } else { CallbackConserves(p, step); }
    } else if step.Collect? {
      assert p.buffer == [p.buffer[0]] + p.buffer[1..];
    }
  }

  /** A run of a pool made with the requested size for the given callbacks. */
  ghost predicate IsRun<E>(size: nat, outcome: seq<Option<E>>, states: seq<Pool<E>>, steps: seq<Step>) {
    && |states| == |steps| + 1 && states[0] == NewPool(size, outcome)
    && (forall i :: 0 <= i < |states| ==> |states[i].status| == |states[i].outcome|)
    && forall i :: 0 <= i < |steps| ==> Enabled(states[i], steps[i]) && states[i + 1] == Next(states[i], steps[i])
  }

  lemma {:induction false} RunKeepsInv<E>(size: nat, outcome: seq<Option<E>>, states: seq<Pool<E>>, steps: seq<Step>, i: nat)
    requires IsRun(size, outcome, states, steps) && i < |states|
    ensures Inv(states[i]) && states[i].outcome == outcome && states[i].size == if size == 0 then 1 else size
  {
    if i == 0 {
      NewPoolInv(size, outcome);
    } else {
      RunKeepsInv(size, outcome, states, steps, i - 1);
      NextKeepsInv(states[i - 1], steps[i - 1]);
    }
  }

  /** At most as many callbacks as requested run at any time, one if zero was, and nothing is ever sent on the closed channel. */
  lemma RunsAreBounded<E>(size: nat, outcome: seq<Option<E>>, states: seq<Pool<E>>, steps: seq<Step>, i: nat)
    requires IsRun(size, outcome, states, steps) && i < |states|
    ensures Sum(Runs, states[i].status) <= if size == 0 then 1 else size
    ensures i < |steps| ==> !Panics(states[i], steps[i])
  {
    RunKeepsInv(size, outcome, states, steps, i);
    SumMonotonic(Runs, Holds, states[i].status);
    if i < |steps| { NeverPanics(states[i], steps[i]); }
  }

  /** And Run lets a callback start exactly while fewer than that many are on their way. */
  lemma SpawnsExactly<E>(size: nat, outcome: seq<Option<E>>, states: seq<Pool<E>>, steps: seq<Step>, i: nat, j: nat)
    requires IsRun(size, outcome, states, steps) && i < |states| && states[i].caller.Submitting?
    requires j < |states[i].status| && states[i].status[j].Todo?
    ensures Enabled(states[i], Spawn(j)) <==> Sum(Holds, states[i].status) < if size == 0 then 1 else size
  {
    RunKeepsInv(size, outcome, states, steps, i);
  }

  ghost function SentBy<E>(outcome: seq<Option<E>>, step: Step): seq<E> {
    if step.Send? && step.j < |outcome| && outcome[step.j].Some? then [outcome[step.j].value] else []
  }

  /** The errors sent so far, in order. */
  ghost function Sent<E>(outcome: seq<Option<E>>, steps: seq<Step>): seq<E> {
    if steps == [] then [] else Sent(outcome, steps[..|steps| - 1]) + SentBy(outcome, steps[|steps| - 1])
  }

  lemma StepInOrder<E>(p: Pool<E>, step: Step)
    requires |p.status| == |p.outcome| && Enabled(p, step)
    ensures Next(p, step).errs + Next(p, step).buffer == p.errs + p.buffer + SentBy(p.outcome, step)
  {
    if step.Collect? { assert p.buffer == [p.buffer[0]] + p.buffer[1..]; }
  }

  /** The collector takes errors in the order they were sent. */
  lemma {:induction false} ErrorsInOrder<E>(size: nat, outcome: seq<Option<E>>, states: seq<Pool<E>>, steps: seq<Step>, i: nat)
    requires IsRun(size, outcome, states, steps) && i < |states|
    ensures states[i].errs + states[i].buffer == Sent(outcome, steps[..i])
  {
    if i > 0 {
      ErrorsInOrder(size, outcome, states, steps, i - 1);
      RunKeepsInv(size, outcome, states, steps, i - 1);
      StepInOrder(states[i - 1], steps[i - 1]);
      assert steps[..i][..i - 1] == steps[..i - 1];
    }
  }

  lemma {:induction false} NothingOwed<E>(status: seq<Status>, outcome: seq<Option<E>>)
    requires |status| == |outcome| && Sum(Holds, status) == 0 && Todo !in status
    ensures Owed(status, outcome) == multiset{} && forall j :: 0 <= j < |status| ==> status[j].Finished?
  {
    if status != [] {
      assert status == [status[0]] + status[1..];
      NothingOwed(status[1..], outcome[1..]);
    }
  }

  /** When Wait returns, every callback has finished and the errors returned are exactly theirs, each as often as it occurred. */
  lemma WaitReturnsAllErrors<E>(size: nat, outcome: seq<Option<E>>, states: seq<Pool<E>>, steps: seq<Step>, i: nat)
    requires IsRun(size, outcome, states, steps) && i < |states| && states[i].caller.Returned?
    ensures forall j :: 0 <= j < |states[i].status| ==> states[i].status[j].Finished?
    ensures multiset(states[i].errs) == Errors(outcome) && states[i].errs == Sent(outcome, steps[..i])
  {
    ErrorsInOrder(size, outcome, states, steps, i);
    RunKeepsInv(size, outcome, states, steps, i);
    NothingOwed(states[i].status, states[i].outcome);
  }

  // ---------- progress ----------

  lemma {:induction false} SomeoneHolds(status: seq<Status>) returns (j: nat)
    requires Sum(Holds, status) > 0
    ensures j < |status| && Holds(status[j]) == 1
  {
    if Holds(status[0]) == 1 { j := 0; } else { j := SomeoneHolds(status[1..]); j := j + 1; }
  }

  /** No state before Wait returns is stuck, provided callbacks return. */
  lemma NeverStuck<E>(p: Pool<E>) returns (step: Step)
    requires Inv(p) && !p.caller.Returned?
    ensures Enabled(p, step)
  {
    if Sum(Holds, p.status) > 0 {
      var j := SomeoneHolds(p.status);
      SumMember(Holds, p.status, j);
      step := if p.status[j].Running? then Return(j) else if p.status[j].Releasing? then Release(j)
              else if |p.buffer| < p.size then Send(j) else Collect;
    } else {
      match p.caller
      case Submitting =>
        if Todo in p.status {
          var j :| 0 <= j < |p.status| && p.status[j] == Todo;
          step := Spawn(j);
        } else {
          step := StartWait;
        }
      case Filling(k) => step := if k < p.size then Fill else CloseChannel;
      case Joining => step := if p.buffer != [] then Collect else if p.collected then Join else CollectorExit;
    }
  }

  function CallerEffort(c: Caller, size: nat): nat
    requires Filled(c, size) <= size
  {
    match c
    case Submitting => size + 3
    case Filling(k) => size - k + 2
    case Joining => 1
    case Returned => 0
  }

  /** What is left to do; every step makes it smaller. */
  ghost function Remaining<E>(p: Pool<E>): nat
    requires Shape(p)
  {
    Sum(Effort, p.status) + |p.buffer| + CallerEffort(p.caller, p.size) + if p.collected then 0 else 1
  }

  /** So no run goes on for ever: whatever the interleaving, it comes to the point where Wait returns. */
  lemma EveryStepProgresses<E>(p: Pool<E>, step: Step)
    requires Inv(p) && Enabled(p, step)
    ensures Inv(Next(p, step)) && Remaining(Next(p, step)) < Remaining(p)
  {
    NextKeepsInv(p, step);
    if step.Spawn? || step.Return? || step.Send? || step.Release? {
      CallbackProgresses(p, step);
    }
  }

  lemma CallbackProgresses<E>(p: Pool<E>, step: Step)
    requires Shape(p) && Enabled(p, step) && (step.Spawn? || step.Return? || step.Send? || step.Release?)
    ensures Sum(Effort, Next(p, step).status) + |Next(p, step).buffer| < Sum(Effort, p.status) + |p.buffer|
  {
    SumUpdate(Effort, p.status, step.j, Next(p, step).status[step.j]);
  }

  /** No run is longer than the work in a new pool, and one that cannot be extended has returned from Wait. */
  lemma {:induction false} RunsAreFinite<E>(size: nat, outcome: seq<Option<E>>, states: seq<Pool<E>>, steps: seq<Step>, i: nat)
    requires IsRun(size, outcome, states, steps) && i < |states|
    ensures Inv(states[0]) && Inv(states[i]) && Remaining(states[i]) + i <= Remaining(states[0])
    ensures states[i].caller.Returned? || exists step :: Enabled(states[i], step)
  {
    RunKeepsInv(size, outcome, states, steps, i);
    RunKeepsInv(size, outcome, states, steps, 0);
    if i > 0 {
      RunsAreFinite(size, outcome, states, steps, i - 1);
      EveryStepProgresses(states[i - 1], steps[i - 1]);
    }
    if !states[i].caller.Returned? {
      var step := NeverStuck(states[i]);
    }
  }
}
