/** A cache whose entries leave only after being processed and outliving their time, as interleaved critical sections. */
module Expiry {
  import opened Options

  /** A record, with the key it was added under. */
  datatype Rec<K, V> = Rec(key: K, value: V, expireAt: int)

  /**
  A goroutine of Each, from its lookup on: the key, the record it found, the value its callback was given, and whether
  the callback has returned nil.
  */
  datatype Visit<K, R, V> = Visit(key: K, rec: R, given: Option<V>, approved: bool)

  /** `cache` maps keys to records by identity, and `recs` holds what they contain. */
  datatype State<K, R, V> = State(ttl: int, now: int, cache: map<K, R>, recs: map<R, Rec<K, V>>, visits: map<nat, Visit<K, R, V>>)

  datatype Step<K, R, V> =
    | Elapse(d: nat)
    | Get(key: K)
    | Add(key: K, value: V, rec: R)
    | Update(key: K, value: V)
    | Look(w: nat, key: K)
    | Call(w: nat)
    | CallbackOk(w: nat)
    | CallbackError(w: nat)
    | Finish(w: nat)

  function Start<K, R, V>(ttl: int, now: int): State<K, R, V> {
    State(ttl, now, map[], map[], map[])
  }

  predicate Enabled<K(==), R(==), V>(s: State<K, R, V>, step: Step<K, R, V>) {
    match step
    case Add(_, _, rec) => rec !in s.recs
    case Look(w, key) => w !in s.visits && key in s.cache
    case Call(w) => w in s.visits && s.visits[w].given.None? && s.visits[w].rec in s.recs
    case CallbackOk(w) => w in s.visits && s.visits[w].given.Some? && !s.visits[w].approved
    case CallbackError(w) => w in s.visits && s.visits[w].given.Some? && !s.visits[w].approved
    case Finish(w) => w in s.visits && s.visits[w].approved && s.visits[w].rec in s.recs
    case _ => true
  }

  function Next<K(==), R(==), V>(s: State<K, R, V>, step: Step<K, R, V>): State<K, R, V>
    requires Enabled(s, step)
  {
    match step
    case Elapse(d) => s.(now := s.now + d)
    case Get(key) =>
      if key in s.cache && s.cache[key] in s.recs
      then s.(recs := s.recs[s.cache[key] := s.recs[s.cache[key]].(expireAt := s.now + s.ttl)])
      else s
    case Add(key, value, rec) => s.(cache := s.cache[key := rec], recs := s.recs[rec := Rec(key, value, s.now + s.ttl)])
    case Update(key, value) =>
      if key in s.cache && s.cache[key] in s.recs then s.(recs := s.recs[s.cache[key] := s.recs[s.cache[key]].(value := value)]) else s
    case Look(w, key) => s.(visits := s.visits[w := Visit(key, s.cache[key], None, false)])
    case Call(w) => s.(visits := s.visits[w := s.visits[w].(given := Some(s.recs[s.visits[w].rec].value))])
    case CallbackOk(w) => s.(visits := s.visits[w := s.visits[w].(approved := true)])
    case CallbackError(w) => s.(visits := s.visits - {w})
    case Finish(w) =>
      var v := s.visits[w];
      s.(cache := if s.recs[v.rec].expireAt < s.now then s.cache - {v.key} else s.cache, visits := s.visits - {w})
  }

  /** Every record in use is in place and was added under the key that leads to it. */
  ghost predicate Inv<K, R, V>(s: State<K, R, V>) {
    && (forall k :: k in s.cache ==> s.cache[k] in s.recs && s.recs[s.cache[k]].key == k)
    && (forall w :: w in s.visits ==> s.visits[w].rec in s.recs && s.recs[s.visits[w].rec].key == s.visits[w].key)
    && (forall w :: w in s.visits && s.visits[w].approved ==> s.visits[w].given.Some?)
  }

  lemma NextKeepsInv<K, R, V>(s: State<K, R, V>, step: Step<K, R, V>)
    requires Inv(s) && Enabled(s, step)
    ensures Inv(Next(s, step))
  {}

  /** Nothing but an approved visit to it removes a key. */
  lemma OnlyVisitsRemove<K, R, V>(s: State<K, R, V>, step: Step<K, R, V>, k: K)
    requires Enabled(s, step) && k in s.cache && k !in Next(s, step).cache
    ensures step.Finish? && s.visits[step.w].key == k && s.visits[step.w].approved
    ensures s.recs[s.visits[step.w].rec].expireAt < s.now
  {}

  // ---------- runs, and what the operations so far say about a key ----------

  datatype Run<K, R, V> = Run(states: seq<State<K, R, V>>, steps: seq<Step<K, R, V>>)
  {
    /** The run starts from a new cache. */
    ghost predicate Valid() {
      && |states| == |steps| + 1 && states[0] == Start(states[0].ttl, states[0].now)
      && forall i :: 0 <= i < |steps| ==> StepAt(i)
    }

    ghost predicate StepAt(i: nat)
      requires i < |steps| && |states| == |steps| + 1
    {
      Enabled(states[i], steps[i]) && states[i + 1] == Next(states[i], steps[i])
    }

    ghost predicate Adds(i: nat, k: K)
      requires i < |steps|
    {
      steps[i].Add? && steps[i].key == k
    }

    /** Step `i` adds the key or reads it with success. */
    ghost predicate Touches(i: nat, k: K)
      requires i < |steps| < |states|
    {
      Adds(i, k) || (steps[i].Get? && steps[i].key == k && k in states[i].cache)
    }

    /** Step `i` adds the key or updates it with success. */
    ghost predicate Writes(i: nat, k: K)
      requires i < |steps| < |states|
    {
      Adds(i, k) || (steps[i].Update? && steps[i].key == k && k in states[i].cache)
    }

    /** The step before `b` that last touched the key. */
    ghost function LastTouch(b: nat, k: K): (r: Option<nat>)
      requires b <= |steps| < |states|
      ensures r.Some? ==> r.value < b
    {
      if b == 0 then None else if Touches(b - 1, k) then Some(b - 1) else LastTouch(b - 1, k)
    }

    /** The step before `b` that last wrote the key. */
    ghost function LastWrite(b: nat, k: K): (r: Option<nat>)
      requires b <= |steps| < |states|
      ensures r.Some? ==> r.value < b && Writes(r.value, k)
    {
      if b == 0 then None else if Writes(b - 1, k) then Some(b - 1) else LastWrite(b - 1, k)
    }

    /** The first step from `a` on that adds the key, or `b` if none before `b` does. */
    ghost function FirstAdd(a: nat, b: nat, k: K): (r: nat)
      requires b <= |steps|
      ensures r <= b
    {
      if b <= a then b
      else
        var f := FirstAdd(a, b - 1, k);
        if f < b - 1 || Adds(b - 1, k) then f else b
    }

    /** The record is what the operations on the key before `b` make of it: its last value, `ttl` past its last touch. */
    ghost predicate Follows(rec: Rec<K, V>, b: nat, k: K)
      requires b <= |steps| < |states|
    {
      && rec.key == k
      && LastTouch(b, k).Some? && rec.expireAt == states[LastTouch(b, k).value].now + states[0].ttl
      && LastWrite(b, k).Some? && rec.value == steps[LastWrite(b, k).value].value
    }

    /** At `b` the goroutine `w` is on the visit to `k` that it began at `a`. */
    ghost predicate Visiting(a: nat, b: nat, w: nat, k: K) {
      && Valid() && a < b <= |steps| && steps[a] == Look(w, k) && w in states[b].visits
      && forall i :: a < i < b && steps[i].Look? ==> steps[i].w != w
    }

    ghost function Elapsed(a: nat, b: nat): int
      requires b <= |steps|
    {
      if b <= a then 0 else Elapsed(a, b - 1) + if steps[b - 1].Elapse? then steps[b - 1].d else 0
    }
  }

  lemma {:induction false} RunKeepsInv<K, R, V>(run: Run<K, R, V>, i: nat)
    requires run.Valid() && i < |run.states|
    ensures Inv(run.states[i]) && run.states[i].ttl == run.states[0].ttl
  {
    if i > 0 {
      RunKeepsInv(run, i - 1);
      assert run.StepAt(i - 1);
      NextKeepsInv(run.states[i - 1], run.steps[i - 1]);
    }
  }

  /** Nothing but time passing moves the clock. */
  lemma {:induction false} ClockFollows<K, R, V>(run: Run<K, R, V>, a: nat, b: nat)
    requires run.Valid() && a <= b < |run.states|
    ensures run.states[b].now == run.states[a].now + run.Elapsed(a, b)
  {
    if a < b {
      ClockFollows(run, a, b - 1);
      assert run.StepAt(b - 1);
    }
  }

  /** A visit is over with its check, and with an error from its callback: until `w` looks up again it is on no visit. */
  lemma {:induction false} VisitIsOver<K, R, V>(run: Run<K, R, V>, c: nat, b: nat, w: nat)
    requires run.Valid() && c < b <= |run.steps| && (run.steps[c] == CallbackError(w) || run.steps[c] == Finish(w))
    requires forall i :: c < i < b && run.steps[i].Look? ==> run.steps[i].w != w
    ensures w !in run.states[b].visits
  {
    assert run.StepAt(b - 1);
    if b > c + 1 { VisitIsOver(run, c, b - 1, w); }
  }

  /** So while a visit goes on it has neither been checked nor failed. */
  lemma VisitGoesOn<K, R, V>(run: Run<K, R, V>, a: nat, b: nat, w: nat, k: K, i: nat)
    requires run.Visiting(a, b, w, k) && a < i < b
    ensures run.steps[i] != CallbackError(w) && run.steps[i] != Finish(w) && run.Visiting(a, i, w, k)
  {
    if run.steps[i] == CallbackError(w) || run.steps[i] == Finish(w) { VisitIsOver(run, i, b, w); }
    StillVisiting(run, a, i, b, w, k);
  }

  lemma {:induction false} StillVisiting<K, R, V>(run: Run<K, R, V>, a: nat, i: nat, b: nat, w: nat, k: K)
    requires run.Visiting(a, b, w, k) && a < i <= b
    ensures w in run.states[i].visits
  {
    if i < b {
      assert run.StepAt(b - 1);
      StillVisiting(run, a, i, b - 1, w, k);
    }
  }

  /** A step leaves a record as it was, or the record is its key's cached one and the step touches or writes it. */
  lemma StepOnRecord<K, R, V>(s: State<K, R, V>, step: Step<K, R, V>, r: R)
    requires Inv(s) && Enabled(s, step) && r in s.recs
    ensures var t := Next(s, step);
            r in t.recs && t.recs[r].key == s.recs[r].key
            && (t.recs[r] != s.recs[r] ==>
                  (step.Get? || step.Update?) && step.key == s.recs[r].key && s.recs[r].key in s.cache && s.cache[step.key] == r)
  {}

  /** In every run, each cached record follows from the operations on its key. */
  lemma {:induction false} CachedFollows<K, R, V>(run: Run<K, R, V>, b: nat, k: K)
    requires run.Valid() && b < |run.states| && k in run.states[b].cache
    ensures run.states[b].cache[k] in run.states[b].recs
    ensures run.Follows(run.states[b].recs[run.states[b].cache[k]], b, k)
  {
    if b > 0 {
      RunKeepsInv(run, b - 1);
      assert run.StepAt(b - 1);
      if !run.Adds(b - 1, k) {
        CachedFollows(run, b - 1, k);
        StepOnRecord(run.states[b - 1], run.steps[b - 1], run.states[b - 1].cache[k]);
      }
    }
  }

  /**
  A visit's record follows from the operations up to the first addition of the key after the lookup; it is the key's
  cached record exactly as long as there has been none.
  */
  ghost predicate VisitFollows<K, R, V>(run: Run<K, R, V>, a: nat, b: nat, w: nat, k: K)
    requires run.Valid() && a < b <= |run.steps|
  {
    var s, first := run.states[b], run.FirstAdd(a + 1, b, k);
    && w in s.visits && s.visits[w].key == k && s.visits[w].rec in s.recs
    && run.Follows(s.recs[s.visits[w].rec], first, k)
    && (k in s.cache ==> (s.cache[k] != s.visits[w].rec <==> first < b))
  }

  lemma VisitStep<K, R, V>(run: Run<K, R, V>, a: nat, b: nat, w: nat, k: K)
    requires run.Visiting(a, b + 1, w, k) && a < b && VisitFollows(run, a, b, w, k)
    ensures VisitFollows(run, a, b + 1, w, k)
  {
    RunKeepsInv(run, b);
    assert run.StepAt(b);
    StepOnRecord(run.states[b], run.steps[b], run.states[b].visits[w].rec);
  }

  lemma {:induction false} VisitsFollow<K, R, V>(run: Run<K, R, V>, a: nat, b: nat, w: nat, k: K)
    requires run.Visiting(a, b, w, k)
    ensures VisitFollows(run, a, b, w, k)
  {
    assert run.StepAt(a);
    if b == a + 1 {
      RunKeepsInv(run, a);
      CachedFollows(run, a, k);
    } else {
      VisitGoesOn(run, a, b, w, k, b - 1);
      VisitsFollow(run, a, b - 1, w, k);
      VisitStep(run, a, b - 1, w, k);
    }
  }

  lemma {:induction false} FirstAddIsFirst<K, R, V>(run: Run<K, R, V>, a: nat, b: nat, k: K)
    requires a <= b <= |run.steps|
    ensures var f := run.FirstAdd(a, b, k);
            a <= f && (f < b ==> run.Adds(f, k)) && forall i :: a <= i < f ==> !run.Adds(i, k)
  {
    if a < b { FirstAddIsFirst(run, a, b - 1, k); }
  }

  /** A visit and the cache hold different records under a key exactly when the key was added between. */
  lemma ReplacedExactly<K, R, V>(run: Run<K, R, V>, a: nat, b: nat, w: nat, k: K)
    requires run.Visiting(a, b, w, k) && k in run.states[b].cache
    ensures w in run.states[b].visits
    ensures run.states[b].cache[k] != run.states[b].visits[w].rec <==> exists i :: a < i < b && run.Adds(i, k)
  {
    VisitsFollow(run, a, b, w, k);
    FirstAddIsFirst(run, a + 1, b, k);
  }

  lemma {:induction false} ClockRuns<K, R, V>(run: Run<K, R, V>, i: nat, j: nat)
    requires run.Valid() && i <= j < |run.states|
    ensures run.states[i].now <= run.states[j].now
  {
    if i < j {
      ClockRuns(run, i, j - 1);
      assert run.StepAt(j - 1);
    }
  }

  lemma {:induction false} LastTouchIsLast<K, R, V>(run: Run<K, R, V>, b: nat, k: K)
    requires run.Valid() && b <= |run.steps|
    ensures forall i :: 0 <= i < b && run.Touches(i, k) ==> run.LastTouch(b, k).Some? && i <= run.LastTouch(b, k).value
    ensures run.LastTouch(b, k).Some? ==> run.Touches(run.LastTouch(b, k).value, k)
  {
    if b > 0 { LastTouchIsLast(run, b - 1, k); }
  }

  /** Step `i` uses the key, by Add or by a successful Get, and at `b` that is no more than `ttl` ago. */
  ghost predicate Recent<K, R, V>(run: Run<K, R, V>, i: nat, b: nat, k: K)
    requires run.Valid() && i < b <= |run.steps|
  {
    run.Touches(i, k) && run.states[b].now <= run.states[i].now + run.states[0].ttl
  }

  ghost predicate AllStale<K, R, V>(run: Run<K, R, V>, end: nat, b: nat, k: K)
    requires run.Valid() && end <= b <= |run.steps|
  {
    forall i :: 0 <= i < end ==> !Recent(run, i, b, k)
  }

  lemma StaleByLastTouch<K, R, V>(run: Run<K, R, V>, end: nat, b: nat, k: K)
    requires run.Valid() && end <= b <= |run.steps| && run.LastTouch(end, k).Some?
    ensures AllStale(run, end, b, k) <==> run.states[run.LastTouch(end, k).value].now + run.states[0].ttl < run.states[b].now
  {
    var last := run.LastTouch(end, k).value;
    LastTouchIsLast(run, end, k);
    assert Recent(run, last, b, k) <==> run.states[b].now <= run.states[last].now + run.states[0].ttl;
    forall i | 0 <= i < end && run.Touches(i, k) ensures run.states[i].now <= run.states[last].now {
      ClockRuns(run, i, last);
    }
  }

  /**
  Exactly when a visit removes its key: when all uses of the key are more than `ttl` ago, leaving out those from the
  first addition after the visit's lookup on.
  */
  lemma RemovedExactly<K, R, V>(run: Run<K, R, V>, a: nat, b: nat, w: nat, k: K)
    requires run.Visiting(a, b, w, k) && b < |run.steps| && run.steps[b] == Finish(w)
    ensures k in run.states[b].cache ==> (k !in run.states[b + 1].cache <==> AllStale(run, run.FirstAdd(a + 1, b, k), b, k))
  {
    VisitsFollow(run, a, b, w, k);
    assert run.StepAt(b);
    StaleByLastTouch(run, run.FirstAdd(a + 1, b, k), b, k);
  }

  /**
  Exactly when a visit removes a key within `ttl` of its last use: the key was added anew between the visit's lookup and
  its check, no use before that addition is recent, and some use from it on is.
  */
  lemma RemovedTooEarlyExactly<K, R, V>(run: Run<K, R, V>, a: nat, b: nat, w: nat, k: K)
    requires run.Visiting(a, b, w, k) && b < |run.steps| && run.steps[b] == Finish(w) && k in run.states[b].cache
    ensures (k !in run.states[b + 1].cache && exists i :: 0 <= i < b && Recent(run, i, b, k))
            <==> exists c :: a < c < b && run.Adds(c, k) && (forall i :: a < i < c ==> !run.Adds(i, k))
                             && AllStale(run, c, b, k) && exists i :: c <= i < b && Recent(run, i, b, k)
  {
    RemovedExactly(run, a, b, w, k);
    FirstAddIsFirst(run, a + 1, b, k);
    var first := run.FirstAdd(a + 1, b, k);
    if first < b {
      assert forall c :: a < c < b && run.Adds(c, k) && (forall i :: a < i < c ==> !run.Adds(i, k)) ==> c == first;
    }
  }

  lemma {:induction false} ApprovedByCallback<K, R, V>(run: Run<K, R, V>, a: nat, b: nat, w: nat, k: K)
    requires run.Visiting(a, b, w, k) && run.states[b].visits[w].approved
    ensures exists i :: a < i < b && run.steps[i] == CallbackOk(w)
  {
    assert run.StepAt(b - 1);
    if b > a + 1 && run.steps[b - 1] != CallbackOk(w) {
      VisitGoesOn(run, a, b, w, k, b - 1);
      ApprovedByCallback(run, a, b - 1, w, k);
    }
  }

  lemma {:induction false} VisitBegan<K, R, V>(run: Run<K, R, V>, b: nat, w: nat) returns (a: nat)
    requires run.Valid() && b <= |run.steps| && w in run.states[b].visits
    ensures run.Visiting(a, b, w, run.states[b].visits[w].key)
  {
    if b > 0 {
      assert run.StepAt(b - 1);
      if run.steps[b - 1].Look? && run.steps[b - 1].w == w {
        a := b - 1;
      } else {
        a := VisitBegan(run, b - 1, w);
      }
    }
  }

  /**
  Processed before it is removed: in every interleaving, a key leaves the cache only by a visit to it whose callback has
  returned nil, and that has not returned an error.
  */
  lemma RemovalNeedsApproval<K, R, V>(run: Run<K, R, V>, b: nat, k: K) returns (a: nat, w: nat)
    requires run.Valid() && b < |run.steps| && k in run.states[b].cache && k !in run.states[b + 1].cache
    ensures run.steps[b] == Finish(w) && run.Visiting(a, b, w, k)
    ensures exists i :: a < i < b && run.steps[i] == CallbackOk(w)
    ensures forall i :: a < i < b ==> run.steps[i] != CallbackError(w)
  {
    assert run.StepAt(b);
    OnlyVisitsRemove(run.states[b], run.steps[b], k);
    w := run.steps[b].w;
    a := VisitBegan(run, b, w);
    ApprovedByCallback(run, a, b, w, k);
    forall i | a < i < b ensures run.steps[i] != CallbackError(w) { VisitGoesOn(run, a, b, w, k, i); }
  }

  /**
  In every interleaving in which the key is not added anew between a visit's lookup and its check, the visit removes the
  key only after its callback returned nil and more than `ttl` after the key was last read or added.
  */
  lemma RemovedOnlyWhenDue<K, R, V>(run: Run<K, R, V>, a: nat, b: nat, w: nat, k: K)
    requires run.Visiting(a, b, w, k) && b < |run.steps| && run.steps[b] == Finish(w)
    requires forall i :: a < i < b ==> !run.Adds(i, k)
    requires k in run.states[b].cache && k !in run.states[b + 1].cache
    ensures AllStale(run, b, b, k)
    ensures exists i :: a < i < b && run.steps[i] == CallbackOk(w)
  {
    RemovedExactly(run, a, b, w, k);
    FirstAddIsFirst(run, a + 1, b, k);
    assert run.StepAt(b);
    ApprovedByCallback(run, a, b, w, k);
  }

  // ---------- processed before it is removed ----------

  lemma {:induction false} GivenStays<K, R, V>(run: Run<K, R, V>, a: nat, c: nat, b: nat, w: nat, k: K)
    requires run.Visiting(a, b, w, k) && a < c < b && run.steps[c] == Call(w)
    ensures VisitFollows(run, a, c, w, k) && w in run.states[b].visits
    ensures run.states[b].visits[w].given == Some(run.states[c].recs[run.states[c].visits[w].rec].value)
  {
    assert run.StepAt(b - 1);
    VisitGoesOn(run, a, b, w, k, c);
    if b > c + 1 {
      VisitGoesOn(run, a, b, w, k, b - 1);
      GivenStays(run, a, c, b - 1, w, k);
    } else {
      VisitsFollow(run, a, c, w, k);
    }
  }

  lemma {:induction false} SameWriteExactly<K, R, V>(run: Run<K, R, V>, a: nat, b: nat, k: K)
    requires a <= b <= |run.steps| < |run.states|
    ensures run.LastWrite(a, k) == run.LastWrite(b, k) <==> forall i :: a <= i < b ==> !run.Writes(i, k)
  {
    if a < b { SameWriteExactly(run, a, b - 1, k); }
  }

  /**
  Exactly when a visit processes the item it meets at its check: the callback was given the value of the key's last
  write if and only if the key was not added since the lookup and not updated since the callback was called.
  */
  lemma ProcessedExactly<K, R, V>(run: Run<K, R, V>, a: nat, c: nat, b: nat, w: nat, k: K)
    requires run.Visiting(a, b, w, k) && a < c < b && run.steps[c] == Call(w) && k in run.states[b].cache
    ensures var given, last := run.LastWrite(run.FirstAdd(a + 1, c, k), k), run.LastWrite(b, k);
            && given.Some? && w in run.states[b].visits && run.states[b].visits[w].given == Some(run.steps[given.value].value)
            && last.Some? && run.states[b].cache[k] in run.states[b].recs
            && run.states[b].recs[run.states[b].cache[k]].value == run.steps[last.value].value
            && (given == last <==> (forall i :: a < i < b ==> !run.Adds(i, k)) && (forall i :: c < i < b ==> !run.Writes(i, k)))
  {
    CachedFollows(run, b, k);
    GivenStays(run, a, c, b, w, k);
    FirstAddIsFirst(run, a + 1, c, k);
    var first := run.FirstAdd(a + 1, c, k);
    SameWriteExactly(run, first, b, k);
    assert first < c ==> run.Writes(first, k);
    assert forall i :: a < i < b && run.Adds(i, k) ==> run.Writes(i, k);
    assert !run.Writes(c, k);
  }

  // ---------- both conditions are needed ----------

  ghost function Then<K, R, V>(run: Run<K, R, V>, step: Step<K, R, V>): (r: Run<K, R, V>)
    requires run.Valid() && Enabled(run.states[|run.steps|], step)
    ensures r.Valid() && |r.steps| == |run.steps| + 1 && r.steps[..|run.steps|] == run.steps && r.steps[|run.steps|] == step
    ensures r.states[..|run.states|] == run.states && r.states[|run.states|] == Next(run.states[|run.steps|], step)
  {
    var r := Run(run.states + [Next(run.states[|run.steps|], step)], run.steps + [step]);
    assert forall i :: 0 <= i < |run.steps| ==> run.StepAt(i) && r.StepAt(i);
    r
  }

  /** From a new cache: one addition, and a visit to it whose callback has been called. */
  lemma VisitUnderWay<K, R, V>(ttl: nat, k: K, first: V, r1: R) returns (run: Run<K, R, V>)
    ensures run.Valid() && run.steps == [Add(k, first, r1), Look(1, k), Call(1)] && run.states[0] == Start(ttl, 0)
    ensures run.states[3] == State(ttl, 0, map[k := r1], map[r1 := Rec(k, first, ttl)], map[1 := Visit(k, r1, Some(first), false)])
  {
    run := Run([Start(ttl, 0)], []);
    run := Then(run, Add(k, first, r1));
    run := Then(run, Look(1, k));
    run := Then(run, Call(1));
  }

  /** A record that runs out during the callback and is replaced before the check takes its fresh replacement with it. */
  lemma ReplacementIsLost<K, R, V>(ttl: nat, k: K, first: V, second: V, r1: R, r2: R) returns (run: Run<K, R, V>)
    requires r1 != r2
    ensures run.Valid() && run.states[0] == Start(ttl, 0)
    ensures run.steps == [Add(k, first, r1), Look(1, k), Call(1), CallbackOk(1), Elapse(ttl + 1), Add(k, second, r2), Finish(1)]
    ensures run.states[6].cache == map[k := r2] && run.states[7].cache == map[]
  {
    run := VisitUnderWay(ttl, k, first, r1);
    run := Then(run, CallbackOk(1));
    run := Then(run, Elapse(ttl + 1));
    run := Then(run, Add(k, second, r2));
    assert run.states[6].cache == map[k := r2];
    run := Then(run, Finish(1));
  }

  /** An update made while the callback runs goes with the key, though no callback was given its value. */
  lemma UpdateIsLost<K, R, V>(ttl: nat, k: K, first: V, second: V, r1: R) returns (run: Run<K, R, V>)
    ensures run.Valid() && run.states[0] == Start(ttl, 0)
    ensures run.steps == [Add(k, first, r1), Look(1, k), Call(1), Update(k, second), CallbackOk(1), Elapse(ttl + 1), Finish(1)]
    ensures run.states[6].cache == map[k := r1] && run.states[6].recs == map[r1 := Rec(k, second, ttl)]
    ensures run.states[6].visits == map[1 := Visit(k, r1, Some(first), true)] && run.states[7].cache == map[]
  {
    run := VisitUnderWay(ttl, k, first, r1);
    run := Then(run, Update(k, second));
    run := Then(run, CallbackOk(1));
    run := Then(run, Elapse(ttl + 1));
    assert run.states[6] == State(ttl, ttl + 1, map[k := r1], map[r1 := Rec(k, second, ttl)], map[1 := Visit(k, r1, Some(first), true)]);
    run := Then(run, Finish(1));
  }
}

/** The cache's record objects and the critical sections of its methods. */
module ExpireCaches {
  import opened Options
  import opened Expiry

  class Record<K, V> {
    var Value: V
    var ExpireAt: int

    constructor (value: V, expireAt: int)
      ensures Value == value && ExpireAt == expireAt
    {
      Value, ExpireAt := value, expireAt;
    }
  }

  datatype Stats = Stats(miss: nat, hit: nat)

  class ExpireCache<K(==), V> {
    const ttl: int
    var cache: map<K, Record<K, V>>
    var stats: Stats
    ghost var Model: State<K, Record<K, V>, V>

    constructor (ttl: int, ghost now: int)
      ensures Valid() && Model == Start(ttl, now) && stats == Stats(0, 0)
    {
      this.ttl, cache, stats := ttl, map[], Stats(0, 0);
      Model := Start(ttl, now);
    }

    ghost predicate Valid()
      reads this, Model.recs.Keys
    {
      && Model.ttl == ttl && Model.cache == cache && Inv(Model)
      && forall r :: r in Model.recs ==> r.Value == Model.recs[r].value && r.ExpireAt == Model.recs[r].expireAt
    }

    /** The model with the clock read at `now`. */
    ghost function At(now: int): State<K, Record<K, V>, V>
      reads this
    {
      Model.(now := now)
    }

    method Get(key: K, now: int) returns (value: Option<V>)
      requires Valid()
      modifies this`Model, this`stats, Model.recs.Keys
      ensures Valid() && Model == Next(old(At(now)), Expiry.Get(key))
      ensures value == if key in old(cache) then Some(old(Model).recs[old(cache)[key]].value) else None
      ensures stats == if value.Some? then old(stats).(hit := old(stats.hit) + 1) else old(stats).(miss := old(stats.miss) + 1)
    {
      NextKeepsInv(At(now), Expiry.Get(key));
      ghost var after := Next(At(now), Expiry.Get(key));
      if key !in cache {
        stats, Model := stats.(miss := stats.miss + 1), after;
        return None;
      }
      var record := cache[key];
      record.ExpireAt := now + ttl;
      stats, Model := stats.(hit := stats.hit + 1), after;
      value := Some(record.Value);
    }

    method Add(key: K, value: V, now: int)
      requires Valid()
      modifies this`Model, this`cache
      ensures Valid() && key in cache && fresh(cache[key]) && Model == Next(old(At(now)), Expiry.Add(key, value, cache[key]))
    {
      var record := new Record<K, V>(value, now + ttl);
      NextKeepsInv(At(now), Expiry.Add(key, value, record));
      cache := cache[key := record];
      Model := Next(At(now), Expiry.Add(key, value, record));
    }

    method Update(key: K, value: V) returns (ok: bool)
      requires Valid()
      modifies this`Model, Model.recs.Keys
      ensures Valid() && ok == (key in old(cache)) && Model == Next(old(Model), Expiry.Update(key, value))
    {
      NextKeepsInv(Model, Expiry.Update(key, value));
      if key !in cache { return false; }
      cache[key].Value := value;
      Model := Next(Model, Expiry.Update(key, value));
      ok := true;
    }

    /** The first critical section of a goroutine of Each; a key that has gone is reported as an error. */
    method Look(ghost w: nat, key: K) returns (record: Record?<K, V>)
      requires Valid() && w !in Model.visits
      modifies this`Model
      ensures Valid() && (record == null <==> key !in cache)
      ensures if record == null then Model == old(Model)
              else record == cache[key] && Model == Next(old(Model), Expiry.Look(w, key))
    {
      if key !in cache { return null; }
      NextKeepsInv(Model, Expiry.Look(w, key));
      record := cache[key];
      Model := Next(Model, Expiry.Look(w, key));
    }

    /** The record's value is read and handed to the callback. */
    method Call(ghost w: nat, record: Record<K, V>) returns (value: V)
      requires Valid() && w in Model.visits && Model.visits[w].rec == record && Model.visits[w].given.None?
      modifies this`Model
      ensures Valid() && Model == Next(old(Model), Expiry.Call(w)) && Model.visits[w].given == Some(value)
    {
      NextKeepsInv(Model, Expiry.Call(w));
      value := record.Value;
      Model := Next(Model, Expiry.Call(w));
    }

    /** Its second critical section, after the callback returned nil: the record looked up decides, the key is deleted. */
    method Finish(ghost w: nat, key: K, record: Record<K, V>, now: int)
      requires Valid() && w in Model.visits && Model.visits[w].approved
      requires Model.visits[w].key == key && Model.visits[w].rec == record
      modifies this`Model, this`cache
      ensures Valid() && Enabled(old(At(now)), Expiry.Finish(w)) && Model == Next(old(At(now)), Expiry.Finish(w))
    {
      NextKeepsInv(At(now), Expiry.Finish(w));
      ghost var after := Next(At(now), Expiry.Finish(w));
      if record.ExpireAt < now {
        cache := cache - {key};
      }
      Model := after;
    }
  }
}
