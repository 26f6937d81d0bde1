/** What lookups find, in terms of the additions, removals and lookups before them. */
module Lookups {
  import opened Options
  import opened Recency

  /** The record's time has passed: it has one, and it lies before `now`. */
  predicate Over<K, V>(r: Record<K, V>, now: int) {
    match r.expireAt
    case None => false
    case Some(t) => t < now
  }

  /** What the history leaves under a key: the record last added, unless it was removed, or looked up after its time. */
  function Filed<K(==), V>(ops: seq<Op<K, V>>, key: K): Option<Record<K, V>> {
    if ops == [] then None
    else
      var before := Filed(ops[..|ops| - 1], key);
      match ops[|ops| - 1]
      case Add(r) => if r.key == key then Some(r) else before
      case Remove(k) => if k == key then None else before
      case Get(k, now) => if k == key && before.Some? && Over(before.value, now) then None else before
  }

  lemma {:induction false} FindWithout<K, V>(recs: seq<Record<K, V>>, key: K, other: K)
    ensures Find(Without(recs, other), key) == if key == other then None else Find(recs, key)
  {
    if recs != [] { FindWithout(recs[1..], key, other); }
  }

  lemma FindFront<K, V>(r: Record<K, V>, recs: seq<Record<K, V>>, key: K)
    ensures Find([r] + recs, key) == if r.key == key then Some(r) else Find(recs, key)
  {
    assert ([r] + recs)[1..] == recs;
  }

  /** Over every history an unbounded cache holds under each key exactly what the history leaves there. */
  lemma {:induction false} UnboundedHoldsExactly<K, V>(ops: seq<Op<K, V>>, key: K)
    ensures Find(Run(0, ops), key) == Filed(ops, key)
  {
    if ops != [] {
      var before, op := ops[..|ops| - 1], ops[|ops| - 1];
      var recs := Run(0, before);
      UnboundedHoldsExactly(before, key);
      match op
      case Add(r) =>
        FindWithout(recs, key, r.key);
        FindFront(r, Without(recs, r.key), key);
      case Remove(k) => FindWithout(recs, key, k);
      case Get(k, _) =>
        FindWithout(recs, key, k);
        if Find(recs, k).Some? { FindFront(Find(recs, k).value, Without(recs, k), key); }
    }
  }

  /** So a lookup hits exactly while the record left there is in time, and yields its value. */
  lemma UnboundedHitsExactly<K, V>(ops: seq<Op<K, V>>, key: K, now: int)
    ensures Found(Run(0, ops), key, now) ==
            if Filed(ops, key).Some? && !Over(Filed(ops, key).value, now) then Some(Filed(ops, key).value.value) else None
  {
    UnboundedHoldsExactly(ops, key);
  }

  /** A bounded cache may have pushed the record out; what it does find is what the history leaves. */
  lemma BoundedHitsOnlyFiled<K, V>(max: int, ops: seq<Op<K, V>>, key: K, now: int)
    requires max >= 0 && Found(Run(max, ops), key, now).Some?
    ensures Filed(ops, key).Some? && !Over(Filed(ops, key).value, now)
    ensures Found(Run(max, ops), key, now) == Some(Filed(ops, key).value.value)
  {
    HitsCarryOver(max, 0, ops, key, now);
    UnboundedHitsExactly(ops, key, now);
  }

  // ---------- what a bound keeps ----------

  /** How many operations have put another key in front of this one since it was last added or looked up. */
  function Distance<K(==), V>(ops: seq<Op<K, V>>, key: K): nat {
    if ops == [] then 0
    else
      var before := Distance(ops[..|ops| - 1], key);
      match ops[|ops| - 1]
      case Add(r) => if r.key == key then 0 else before + 1
      case Get(k, _) => if k == key then 0 else before + 1
      case Remove(_) => before
  }

  /** Since the key was last added, that distance has never reached the bound. */
  predicate Recent<K(==), V>(max: nat, ops: seq<Op<K, V>>, key: K) {
    ops == [] || (ops[|ops| - 1].Add? && ops[|ops| - 1].record.key == key)
    || (Recent(max, ops[..|ops| - 1], key) && Distance(ops, key) < max)
  }

  /** The key is at place `d` of the list or in front of it. */
  ghost predicate HeldBy<K, V>(recs: seq<Record<K, V>>, key: K, d: nat) {
    exists i :: 0 <= i < |recs| && i <= d && recs[i].key == key
  }

  lemma {:induction false} WithoutMovesUp<K, V>(recs: seq<Record<K, V>>, key: K, other: K, i: nat) returns (j: nat)
    requires i < |recs| && recs[i].key == key != other
    ensures j <= i && j < |Without(recs, other)| && Without(recs, other)[j].key == key
  {
    if i == 0 {
      j := 0;
    } else {
      j := WithoutMovesUp(recs[1..], key, other, i - 1);
      if recs[0].key != other { j := j + 1; }
    }
  }

  /** One operation puts at most one other record in front, and drops a record only at the bound. */
  lemma StepKeepsHeld<K, V>(max: nat, recs: seq<Record<K, V>>, op: Op<K, V>, key: K, d: nat)
    requires HeldBy(recs, key, d) && d + 1 < max
    requires match op case Add(r) => r.key != key case Get(k, _) => k != key case Remove(k) => k != key
    ensures HeldBy(After(max, recs, op), key, if op.Remove? then d else d + 1)
  {
    var other := if op.Add? then op.record.key else op.key;
    var i :| 0 <= i < |recs| && i <= d && recs[i].key == key;
    var j := WithoutMovesUp(recs, key, other, i);
    var rest, after := Without(recs, other), After(max, recs, op);
    if op.Remove? {
      assert after[j].key == key;
    } else if op.Add? || (Find(recs, other).Some? && !Find(recs, other).value.Expired(op.now)) {
      assert after[j + 1].key == key;
    } else if after == recs {
      assert after[i].key == key;
    } else {
      assert after[j].key == key;
    }
  }

  lemma HitMovesToFront<K, V>(recs: seq<Record<K, V>>, key: K, now: int)
    requires Find(recs, key).Some? && !Over(Find(recs, key).value, now)
    ensures HeldBy(AfterGet(recs, key, now), key, 0)
  {
    assert AfterGet(recs, key, now)[0].key == key;
  }

  /**
  The law of least recent use: a record stays, whatever else happens, until as many operations as the bound have put
  other keys in front of it.
  */
  lemma {:induction false} RecentIsHeld<K, V>(max: nat, ops: seq<Op<K, V>>, key: K)
    requires max > 0 && Filed(ops, key).Some? && Recent(max, ops, key)
    ensures HeldBy(Run(max, ops), key, Distance(ops, key))
  {
    var before, op := ops[..|ops| - 1], ops[|ops| - 1];
    var recs := Run(max, before);
    if op.Add? && op.record.key == key {
      assert Run(max, ops)[0] == op.record;
    } else {
      RecentIsHeld(max, before, key);
      if op.Get? && op.key == key {
        RecentIsFound(max, before, key);
        HitMovesToFront(recs, key, op.now);
      } else if op.Remove? {
        var i :| 0 <= i < |recs| && i <= Distance(before, key) && recs[i].key == key;
        var j := WithoutMovesUp(recs, key, op.key, i);
        assert Run(max, ops)[j].key == key;
      } else {
        StepKeepsHeld(max, recs, op, key, Distance(before, key));
      }
    }
  }

  /** And it is found as the history left it. */
  lemma RecentIsFound<K, V>(max: nat, ops: seq<Op<K, V>>, key: K)
    requires max > 0 && Filed(ops, key).Some? && HeldBy(Run(max, ops), key, Distance(ops, key))
    ensures Find(Run(max, ops), key) == Filed(ops, key)
  {
    RunInclusion(max, 0, ops);
    UnboundedHoldsExactly(ops, key);
    var recs := Run(max, ops);
    var i :| 0 <= i < |recs| && recs[i].key == key;
    WithinMembers(recs, Run(0, ops), Find(recs, key).value);
    FindUnique(Run(0, ops), Find(recs, key).value);
  }

  /** So within the bound a lookup hits exactly while the record is in time. */
  lemma RecentHitsExactly<K, V>(max: nat, ops: seq<Op<K, V>>, key: K, now: int)
    requires max > 0 && Filed(ops, key).Some? && Recent(max, ops, key)
    ensures Found(Run(max, ops), key, now) == if Over(Filed(ops, key).value, now) then None else Some(Filed(ops, key).value.value)
  {
    RecentIsHeld(max, ops, key);
    RecentIsFound(max, ops, key);
  }

  /** Whatever the bound and the content, a record just added is found exactly while it is in time. */
  lemma AddThenGet<K, V>(max: nat, recs: seq<Record<K, V>>, r: Record<K, V>, now: int)
    ensures Found(AfterAdd(max, recs, r), r.key, now) == if Over(r, now) then None else Some(r.value)
  {
    var touched := [r] + Without(recs, r.key);
    FindFront(r, Without(recs, r.key), r.key);
    if AfterAdd(max, recs, r) != touched {
      var rest := Without(recs, r.key);
      assert touched[..|touched| - 1] == [r] + rest[..|rest| - 1];
      FindFront(r, rest[..|rest| - 1], r.key);
    }
  }

  ghost function Gone<K, V>(r: Option<Record<K, V>>): multiset<Record<K, V>> {
    if r.Some? then multiset{r.value} else multiset{}
  }

  lemma LastSplit<T>(all: seq<T>)
    requires all != []
    ensures multiset(all) == multiset(all[..|all| - 1]) + multiset{all[|all| - 1]}
  {
    assert all == all[..|all| - 1] + [all[|all| - 1]];
  }

  /** Adding a new key loses nothing but the record that OnEvicted is told of. */
  lemma AddConserves<K, V>(max: int, recs: seq<Record<K, V>>, r: Record<K, V>)
    requires Distinct(recs) && Find(recs, r.key).None?
    ensures multiset([r] + recs) == multiset(AfterAdd(max, recs, r)) + Gone(Evicted(max, recs, r))
  {
    WithoutDistinct(recs, r.key);
    LastSplit([r] + recs);
  }

  /** A lookup loses nothing but the record that OnEvicted is told of, and leaves everything when it hits. */
  lemma GetConserves<K, V>(recs: seq<Record<K, V>>, key: K, now: int)
    requires Distinct(recs)
    ensures multiset(recs) == multiset(AfterGet(recs, key, now)) + Gone(Lapsed(recs, key, now))
    ensures Lapsed(recs, key, now).Some? <==> Find(recs, key).Some? && Over(Find(recs, key).value, now)
  {
    if Find(recs, key).Some? {
      RemoveConserves(recs, key);
    }
  }

  lemma {:induction false} RemoveConserves<K, V>(recs: seq<Record<K, V>>, key: K)
    requires Distinct(recs)
    ensures multiset(recs) == multiset(Without(recs, key)) + Gone(Find(recs, key))
  {
    if recs != [] {
      assert recs == [recs[0]] + recs[1..];
      RemoveConserves(recs[1..], key);
      if recs[0].key == key { WithoutDistinct(recs[1..], key); }
    }
  }
}
