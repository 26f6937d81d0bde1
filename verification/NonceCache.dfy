/** The replay guard: a TTL map of the nonces seen, consulted after the timestamp window. */
module Nonces {
  import opened TTLTables

  const MAX_SKEW: int := 5

  const EMPTY: Value := OtherValue("")

  /** checkTimestamp: not from the future beyond the skew, and younger than the cache keeps nonces, less the skew. */
  predicate InWindow(timestamp: int, now: int, ttl: int) {
    now - (ttl - MAX_SKEW) < timestamp < now + MAX_SKEW
  }

  /** inCache over tables: `hit` says whether the nonce was found; otherwise it is stored for `ttl` seconds. */
  ghost predicate Consults(capacity: nat, ttl: int, m: Table, nonce: string, look: int, again: int, stamp: int, m': Table, hit: bool) {
    var mid := AfterGet(m, nonce, Unix(look), Unix(again));
    && hit == Lookup(m, nonce, Unix(look)).Some?
    && if hit || ttl <= 0 then m' == mid else Stores(capacity, mid, nonce, Entry(EMPTY, ExpirySecond(stamp, ttl)), m')
  }

  /**
  One call to verify: whether its headers and signature hold, its timestamp and nonce, and the clock readings in the
  order they are taken: by the timestamp check, by the cache lookup and its recheck, and by the insertion.
  */
  datatype Call = Call(genuine: bool, timestamp: int, nonce: string, check: int, look: int, again: int, stamp: int)

  ghost predicate Verifies(capacity: nat, ttl: int, m: Table, c: Call, m': Table, accepted: bool) {
    if c.genuine && InWindow(c.timestamp, Unix(c.check), ttl)
    then Consults(capacity, ttl, m, c.nonce, c.look, c.again, c.stamp, m', !accepted)
    else m' == m && !accepted
  }

  /** A run of calls against one service: the cache before each call, and each call's outcome. */
  datatype Run = Run(capacity: nat, ttl: int, calls: seq<Call>, tables: seq<Table>, accepted: seq<bool>)
  {
    ghost predicate Valid() {
      && 1 <= capacity && 1 <= ttl <= 9_223_372_036
      && |accepted| == |calls| && |tables| == |calls| + 1 && tables[0] == map[]
      && (forall i :: 0 <= i < |calls| ==> Step(i))
      && (forall i :: 0 <= i < |calls| ==> calls[i].check <= calls[i].look <= calls[i].again <= calls[i].stamp)
      && (forall i, j :: 0 <= i < j < |calls| ==> calls[i].stamp <= calls[j].look)
    }

    ghost predicate Step(i: nat)
      requires i < |calls| == |accepted| && |tables| == |calls| + 1
    {
      Verifies(capacity, ttl, tables[i], calls[i], tables[i + 1], accepted[i])
    }

    /** The calls before `end` that were accepted at second `since` or later. */
    ghost function Accepted(since: int, end: nat): set<nat>
      requires end <= |calls| == |accepted|
    {
      set t: nat | t < end && accepted[t] && Unix(calls[t].stamp) >= since
    }
  }

  lemma UnixMonotonic(a: int, b: int)
    requires a <= b
    ensures Unix(a) <= Unix(b)
  {}

  lemma {:induction false} ImageIsNoLarger(r: Run, keys: set<string>, calls: set<nat>)
    requires forall k :: k in keys ==> exists t :: t in calls && t < |r.calls| && r.calls[t].nonce == k
    ensures |keys| <= |calls|
    decreases |keys|
  {
    if keys != {} {
      var k :| k in keys;
      var t :| t in calls && t < |r.calls| && r.calls[t].nonce == k;
      forall k' | k' in keys - {k} ensures exists t' :: t' in calls - {t} && t' < |r.calls| && r.calls[t'].nonce == k' {
        var t' :| t' in calls && t' < |r.calls| && r.calls[t'].nonce == k';
        assert t' in calls - {t};
      }
      ImageIsNoLarger(r, keys - {k}, calls - {t});
    }
  }

  /** The nonces held with an expiry no earlier than `since + ttl`. */
  ghost function Held(m: Table, since: int): set<string> {
    set k | k in m && m[k].expiry >= since
  }

  /** One call leaves entries as they were, except that an accepted call files its nonce `ttl` seconds ahead. */
  lemma EntryOldOrNew(capacity: nat, ttl: int, m: Table, c: Call, m': Table, accepted: bool, k: string)
    requires 1 <= ttl <= 9_223_372_036 && Verifies(capacity, ttl, m, c, m', accepted) && k in m'
    ensures (k in m && m[k] == m'[k]) || (accepted && k == c.nonce && m'[k].expiry == Unix(c.stamp) + ttl)
  {
    ExpiryIsTTLSecondsAhead(c.stamp, ttl);
  }

  /** Every entry was put there by an accepted call with its nonce, `ttl` seconds before its expiry. */
  lemma {:induction false} EntriesComeFromCalls(r: Run, end: nat, since: int, k: string)
    requires r.Valid() && end <= |r.calls| && k in Held(r.tables[end], since + r.ttl)
    ensures exists t :: t in r.Accepted(since, end) && r.calls[t].nonce == k
  {
    var i := end - 1;
    assert r.Step(i);
    EntryOldOrNew(r.capacity, r.ttl, r.tables[i], r.calls[i], r.tables[end], r.accepted[i], k);
    if k in r.tables[i] && r.tables[i][k] == r.tables[end][k] {
      EntriesComeFromCalls(r, i, since, k);
      var t :| t in r.Accepted(since, i) && r.calls[t].nonce == k;
      assert t in r.Accepted(since, end);
    } else {
      assert i in r.Accepted(since, end);
    }
  }

  /** An eviction that reached an entry of expiry `since + ttl` would need more acceptances since then than the capacity. */
  lemma EvictionNeedsTraffic(r: Run, t: nat, since: int, mid: Table, mid': Table, n: string)
    requires r.Valid() && t < |r.calls| && r.accepted[t] && since <= Unix(r.calls[t].stamp)
    requires mid.Keys <= r.tables[t].Keys && (forall k :: k in mid ==> mid[k] == r.tables[t][k])
    requires r.calls[t].nonce !in mid && |mid| >= r.capacity
    requires Drops(mid, mid', 1) && n in mid && n !in mid' && mid[n].expiry >= since + r.ttl
    ensures |r.Accepted(since, t + 1)| > r.capacity
  {
    var keys := mid.Keys + {r.calls[t].nonce};
    forall k | k in keys ensures exists u :: u in r.Accepted(since, t + 1) && u < |r.calls| && r.calls[u].nonce == k {
      if k == r.calls[t].nonce {
        assert t in r.Accepted(since, t + 1);
      } else {
        assert mid[k].expiry >= since + r.ttl by {
          if k !in mid' { OnlyOneDropped(mid, mid', k, n); }
        }
        EntriesComeFromCalls(r, t, since, k);
        var u :| u in r.Accepted(since, t) && r.calls[u].nonce == k;
        assert u in r.Accepted(since, t + 1);
      }
    }
    ImageIsNoLarger(r, keys, r.Accepted(since, t + 1));
  }

  /** One call keeps a nonce whose expiry is at least `since + ttl`, unless traffic exceeds the capacity. */
  lemma NonceStays(r: Run, t: nat, since: int, n: string)
    requires r.Valid() && t < |r.calls| && since <= Unix(r.calls[t].stamp)
    requires n in Held(r.tables[t], since + r.ttl)
    requires |r.Accepted(since, t + 1)| <= r.capacity
    ensures n in Held(r.tables[t + 1], since + r.ttl)
  {
    assert r.Step(t);
    var c, m, m' := r.calls[t], r.tables[t], r.tables[t + 1];
    ExpiryIsTTLSecondsAhead(c.stamp, r.ttl);
    if r.accepted[t] && c.nonce != n {
      var mid := AfterGet(m, c.nonce, Unix(c.look), Unix(c.again));
      if n !in m' {
        var mid' :| Drops(mid, mid', 1) && m' == mid'[c.nonce := Entry(EMPTY, ExpirySecond(c.stamp, r.ttl))];
        EvictionNeedsTraffic(r, t, since, mid, mid', n);
      }
    }
  }

  lemma {:induction false} NonceStaysUntil(r: Run, i: nat, j: nat)
    requires r.Valid() && i < j <= |r.calls| && r.accepted[i]
    requires |r.Accepted(Unix(r.calls[i].stamp), j)| <= r.capacity
    ensures r.calls[i].nonce in Held(r.tables[j], Unix(r.calls[i].stamp) + r.ttl)
  {
    var since := Unix(r.calls[i].stamp);
    if j == i + 1 {
      assert r.Step(i);
      ExpiryIsTTLSecondsAhead(r.calls[i].stamp, r.ttl);
    } else {
      assert r.Accepted(since, j - 1) <= r.Accepted(since, j);
      Included(r.Accepted(since, j - 1), r.Accepted(since, j));
      NonceStaysUntil(r, i, j - 1);
      UnixMonotonic(r.calls[i].stamp, r.calls[j - 1].stamp);
      NonceStays(r, j - 1, since, r.calls[i].nonce);
    }
  }

  /**
  Accept once: in every run, once a (timestamp, nonce) pair has been accepted it is refused for good, as long as no more
  than `capacity` calls are accepted from the second of that acceptance up to the repeat, and the repeat does not lose
  more time between its timestamp check and its cache lookup than the first call did before its insertion.
  */
  lemma AcceptOnce(r: Run, i: nat, j: nat)
    requires r.Valid() && i < j < |r.calls| && r.accepted[i]
    requires r.calls[j].nonce == r.calls[i].nonce && r.calls[j].timestamp == r.calls[i].timestamp
    requires |r.Accepted(Unix(r.calls[i].stamp), j)| <= r.capacity
    requires Unix(r.calls[j].look) - Unix(r.calls[j].check) <= Unix(r.calls[i].stamp) - Unix(r.calls[i].check)
    ensures !r.accepted[j]
  {
    assert r.Step(i) && r.Step(j);
    NonceStaysUntil(r, i, j);
  }

  /** With one clock reading per call the delay condition holds by itself. */
  lemma AcceptOnceAtOneReading(r: Run, i: nat, j: nat)
    requires r.Valid() && i < j < |r.calls| && r.accepted[i]
    requires forall t :: 0 <= t < |r.calls| ==> r.calls[t].check == r.calls[t].stamp
    requires r.calls[j].nonce == r.calls[i].nonce && r.calls[j].timestamp == r.calls[i].timestamp
    requires |r.Accepted(Unix(r.calls[i].stamp), j)| <= r.capacity
    ensures !r.accepted[j]
  {
    AcceptOnce(r, i, j);
  }

  /**
  Exactly when a repeat slips through: within the traffic bound, a genuine repeat inside the window is accepted if and
  only if its cache lookup happens `ttl` seconds or more after the insertion.
  */
  lemma RepeatAcceptedExactly(r: Run, i: nat, j: nat)
    requires r.Valid() && i < j < |r.calls| && r.accepted[i]
    requires r.calls[j].nonce == r.calls[i].nonce
    requires r.calls[j].genuine && InWindow(r.calls[j].timestamp, Unix(r.calls[j].check), r.ttl)
    requires NotAgain(r, i, j)
    requires |r.Accepted(Unix(r.calls[i].stamp), j)| <= r.capacity
    ensures r.accepted[j] <==> Unix(r.calls[j].look) >= Unix(r.calls[i].stamp) + r.ttl
  {
    assert r.Step(j);
    NonceStaysUntil(r, i, j);
    var n := r.calls[i].nonce;
    var since := r.tables[j][n].expiry - r.ttl;
    EntriesComeFromCalls(r, j, since, n);
    var t :| t in r.Accepted(since, j) && r.calls[t].nonce == n;
    if t < i { UnixMonotonic(r.calls[t].stamp, r.calls[i].stamp); }
  }

  // ---------- and when there is more traffic ----------

  /** The calls between `i` and `end` that were accepted at a second strictly later than that of `i`. */
  ghost function Later(r: Run, i: nat, end: nat): set<nat>
    requires i < |r.calls| == |r.accepted| && end <= |r.calls|
  {
    set t: nat | i < t < end && r.accepted[t] && Unix(r.calls[t].stamp) > Unix(r.calls[i].stamp)
  }

  ghost function NoncesOf(r: Run, calls: set<nat>): set<string> {
    set t | t in calls && t < |r.calls| :: r.calls[t].nonce
  }

  /** The nonce of `i` is not accepted again before `j`. */
  ghost predicate NotAgain(r: Run, i: nat, j: nat)
    requires i < |r.calls| == |r.accepted| && j <= |r.calls|
  {
    forall t :: i < t < j && r.calls[t].nonce == r.calls[i].nonce ==> !r.accepted[t]
  }

  /** In every run the cache respects its capacity. */
  lemma {:induction false} CacheFits(r: Run, i: nat)
    requires r.Valid() && i < |r.tables|
    ensures |r.tables[i]| <= r.capacity
  {
    if i > 0 {
      CacheFits(r, i - 1);
      var c, m, m' := r.calls[i - 1], r.tables[i - 1], r.tables[i];
      assert r.Step(i - 1);
      var mid := AfterGet(m, c.nonce, Unix(c.look), Unix(c.again));
      Included(mid.Keys, m.Keys);
      if r.accepted[i - 1] {
        StoresFits(r.capacity, mid, c.nonce, Entry(EMPTY, ExpirySecond(c.stamp, r.ttl)), m');
      }
    }
  }

  /** A nonce that is still held after an acceptance, and was not accepted again, has been held all along with its expiry. */
  lemma {:induction false} HeldAllAlong(r: Run, i: nat, j: nat)
    requires r.Valid() && i < j <= |r.calls| && r.accepted[i] && NotAgain(r, i, j) && r.calls[i].nonce in r.tables[j]
    ensures r.tables[j][r.calls[i].nonce].expiry == Unix(r.calls[i].stamp) + r.ttl
    ensures j > i + 1 ==> r.calls[i].nonce in r.tables[j - 1]
  {
    var n := r.calls[i].nonce;
    assert r.Step(j - 1);
    if j == i + 1 {
      ExpiryIsTTLSecondsAhead(r.calls[i].stamp, r.ttl);
    } else {
      EntryOldOrNew(r.capacity, r.ttl, r.tables[j - 1], r.calls[j - 1], r.tables[j], r.accepted[j - 1], n);
      HeldAllAlong(r, i, j - 1);
    }
  }

  /** While an entry is held, one that expires later is not evicted; looked up in time, it is not deleted either. */
  lemma EarlierGoesFirst(capacity: nat, ttl: int, m: Table, c: Call, m': Table, accepted: bool, n: string, k: string)
    requires Verifies(capacity, ttl, m, c, m', accepted) && n in m && n in m' && (accepted ==> c.nonce != n)
    requires k in m && m[n].expiry < m[k].expiry && Unix(c.look) < m[k].expiry
    ensures k in m' && m'[k] == m[k] && (accepted ==> c.nonce != k)
  {}

  /** At `j`, the nonce of `u` is held, is not the nonce of `i`, and expires after it. */
  ghost predicate OutlivesAt(r: Run, i: nat, j: nat, u: nat)
    requires i < j <= |r.calls| && |r.tables| == |r.calls| + 1 && u < |r.calls|
  {
    && r.calls[u].nonce in r.tables[j] && r.calls[u].nonce != r.calls[i].nonce
    && r.tables[j][r.calls[u].nonce].expiry > Unix(r.calls[i].stamp) + r.ttl
  }

  /** What is known while the nonce of `i` is held: every later-second acceptance is held too, each under a nonce of its own. */
  ghost predicate AllHeld(r: Run, i: nat, j: nat)
    requires i < j <= |r.calls| == |r.accepted| && |r.tables| == |r.calls| + 1
  {
    && (forall u :: u in Later(r, i, j) ==> OutlivesAt(r, i, j, u))
    && |NoncesOf(r, Later(r, i, j))| == |Later(r, i, j)|
  }

  lemma {:induction false} LaterAllHeld(r: Run, i: nat, j: nat)
    requires r.Valid() && i < j <= |r.calls| && r.accepted[i] && NotAgain(r, i, j) && r.calls[i].nonce in r.tables[j]
    requires forall t :: i < t < j ==> Unix(r.calls[t].look) < Unix(r.calls[i].stamp) + r.ttl
    ensures AllHeld(r, i, j)
  {
    HeldAllAlong(r, i, j);
    if j == i + 1 {
      assert Later(r, i, j) == {};
    } else {
      LaterAllHeld(r, i, j - 1);
      HeldAllAlong(r, i, j - 1);
      OneMoreHeld(r, i, j - 1);
    }
  }

  /** The nonce of `i` is held before and after call `t`, which looks it up in time and does not accept it again. */
  ghost predicate HeldOver(r: Run, i: nat, t: nat) {
    && r.Valid() && i < t < |r.calls| && (r.accepted[t] ==> r.calls[t].nonce != r.calls[i].nonce)
    && r.calls[i].nonce in r.tables[t] && r.calls[i].nonce in r.tables[t + 1]
    && r.tables[t][r.calls[i].nonce].expiry == Unix(r.calls[i].stamp) + r.ttl
    && Unix(r.calls[t].look) < Unix(r.calls[i].stamp) + r.ttl
  }

  lemma StillOutlives(r: Run, i: nat, t: nat, u: nat)
    requires HeldOver(r, i, t) && u < |r.calls| && OutlivesAt(r, i, t, u)
    ensures OutlivesAt(r, i, t + 1, u) && (r.accepted[t] ==> r.calls[t].nonce != r.calls[u].nonce)
  {
    assert r.Step(t);
    EarlierGoesFirst(r.capacity, r.ttl, r.tables[t], r.calls[t], r.tables[t + 1], r.accepted[t], r.calls[i].nonce, r.calls[u].nonce);
  }

  lemma NewOutlives(r: Run, i: nat, t: nat)
    requires HeldOver(r, i, t) && r.accepted[t] && Unix(r.calls[t].stamp) > Unix(r.calls[i].stamp)
    ensures OutlivesAt(r, i, t + 1, t)
  {
    assert r.Step(t);
    ExpiryIsTTLSecondsAhead(r.calls[t].stamp, r.ttl);
  }

  lemma OneMoreNonce(r: Run, calls: set<nat>, t: nat)
    requires t < |r.calls| && r.calls[t].nonce !in NoncesOf(r, calls)
    ensures |NoncesOf(r, calls + {t})| == |NoncesOf(r, calls)| + 1
  {
    assert NoncesOf(r, calls + {t}) == NoncesOf(r, calls) + {r.calls[t].nonce};
  }

  lemma LaterGrows(r: Run, i: nat, t: nat)
    requires i < t < |r.calls| == |r.accepted|
    requires |NoncesOf(r, Later(r, i, t))| == |Later(r, i, t)|
    requires t in Later(r, i, t + 1) ==> r.calls[t].nonce !in NoncesOf(r, Later(r, i, t))
    ensures Later(r, i, t) <= Later(r, i, t + 1) <= Later(r, i, t) + {t}
    ensures |NoncesOf(r, Later(r, i, t + 1))| == |Later(r, i, t + 1)|
  {
    var before, after := Later(r, i, t), Later(r, i, t + 1);
    assert after == if t in after then before + {t} else before;
    if t in after { OneMoreNonce(r, before, t); }
  }

  lemma OneMoreHeld(r: Run, i: nat, t: nat)
    requires HeldOver(r, i, t) && AllHeld(r, i, t)
    ensures AllHeld(r, i, t + 1)
  {
    forall u | u in Later(r, i, t)
      ensures OutlivesAt(r, i, t + 1, u) && (r.accepted[t] ==> r.calls[t].nonce != r.calls[u].nonce)
    {
      StillOutlives(r, i, t, u);
    }
    LaterGrows(r, i, t);
    if t in Later(r, i, t + 1) { NewOutlives(r, i, t); }
  }

  /**
  Too much traffic lets a repeat through: a genuine repeat inside the window is accepted whenever at least `capacity`
  calls were accepted since, at seconds strictly later than the first acceptance.
  */
  lemma TrafficLetsRepeatThrough(r: Run, i: nat, j: nat)
    requires r.Valid() && i < j < |r.calls| && r.accepted[i] && NotAgain(r, i, j)
    requires r.calls[j].nonce == r.calls[i].nonce
    requires r.calls[j].genuine && InWindow(r.calls[j].timestamp, Unix(r.calls[j].check), r.ttl)
    requires |Later(r, i, j)| >= r.capacity
    ensures r.accepted[j]
  {
    assert r.Step(j);
    if !r.accepted[j] {
      var n := r.calls[i].nonce;
      HeldAllAlong(r, i, j);
      forall t | i < t < j ensures Unix(r.calls[t].look) < Unix(r.calls[i].stamp) + r.ttl {
        UnixMonotonic(r.calls[t].look, r.calls[j].look);
      }
      LaterAllHeld(r, i, j);
      var held := NoncesOf(r, Later(r, i, j));
      CacheFits(r, j);
      Included(held + {n}, r.tables[j].Keys);
    }
  }

  /**
  Exactly when traffic lets a repeat through: if no other call was accepted in the second of the first acceptance, and the
  repeat's lookup is in time, the repeat is accepted if and only if more than `capacity` calls were accepted from then on.
  */
  lemma RepeatAcceptedExactlyByTraffic(r: Run, i: nat, j: nat)
    requires r.Valid() && i < j < |r.calls| && r.accepted[i] && NotAgain(r, i, j)
    requires r.calls[j].nonce == r.calls[i].nonce
    requires r.calls[j].genuine && InWindow(r.calls[j].timestamp, Unix(r.calls[j].check), r.ttl)
    requires Unix(r.calls[j].look) < Unix(r.calls[i].stamp) + r.ttl
    requires forall t :: 0 <= t < j && t != i && r.accepted[t] ==> Unix(r.calls[t].stamp) != Unix(r.calls[i].stamp)
    ensures r.accepted[j] <==> |r.Accepted(Unix(r.calls[i].stamp), j)| > r.capacity
  {
    var all := r.Accepted(Unix(r.calls[i].stamp), j);
    assert all == Later(r, i, j) + {i};
    if |all| > r.capacity {
      TrafficLetsRepeatThrough(r, i, j);
    } else {
      RepeatAcceptedExactly(r, i, j);
    }
  }

  /** The delay bound is needed: a repeat checked two seconds before its lookup is accepted again. */
  lemma DelayedRepeatIsAccepted() returns (r: Run)
    ensures r.Valid() && |r.calls| == 2 && |r.Accepted(0, 1)| <= r.capacity
    ensures r.calls[0].nonce == r.calls[1].nonce && r.calls[0].timestamp == r.calls[1].timestamp
    ensures r.accepted == [true, true]
  {
    var first := Call(true, 4, "a", 0, 0, 0, 0);
    var again := Call(true, 4, "a", 98 * NANOS, 100 * NANOS, 100 * NANOS, 100 * NANOS);
    var m1, m2 := map["a" := Entry(EMPTY, 100)], map["a" := Entry(EMPTY, 200)];
    r := Run(1, 100, [first, again], [map[], m1, m2], [true, true]);
    ExpiryIsTTLSecondsAhead(0, 100);
    ExpiryIsTTLSecondsAhead(100 * NANOS, 100);
    assert r.Step(0);
    assert AfterGet(m1, "a", 100, 100) == map[];
    assert r.Step(1);
    assert r.Accepted(0, 1) <= {0};
    Included(r.Accepted(0, 1), {0});
  }

  lemma SingleEntryReplaced(a: string, b: string)
    requires a != b
    ensures Verifies(1, 100, map[a := Entry(EMPTY, 100)], Call(true, 4, b, 0, 0, 0, 0), map[b := Entry(EMPTY, 100)], true)
  {
    var e := Entry(EMPTY, 100);
    ExpiryIsTTLSecondsAhead(0, 100);
    assert Drops(map[a := e], map[], 1);
    assert map[b := e] == (map[])[b := e];
    assert AfterGet(map[a := e], b, 0, 0) == map[a := e];
  }

  lemma FirstEntryFiled(a: string)
    ensures Verifies(1, 100, map[], Call(true, 4, a, 0, 0, 0, 0), map[a := Entry(EMPTY, 100)], true)
  {
    ExpiryIsTTLSecondsAhead(0, 100);
    assert map[a := Entry(EMPTY, 100)] == (map[])[a := Entry(EMPTY, 100)];
  }

  /** The traffic bound is needed: one acceptance more than the capacity and a prompt repeat is accepted again. */
  lemma EvictedRepeatIsAccepted(a: string, b: string) returns (r: Run)
    requires a != b
    ensures r.Valid() && |r.calls| == 3 && r.Accepted(0, 2) == {0, 1} && r.capacity == 1
    ensures r.calls[0] == r.calls[2] && r.calls[0].nonce == a && r.calls[1].nonce == b && r.accepted == [true, true, true]
  {
    var first, other := Call(true, 4, a, 0, 0, 0, 0), Call(true, 4, b, 0, 0, 0, 0);
    var ma, mb := map[a := Entry(EMPTY, 100)], map[b := Entry(EMPTY, 100)];
    r := Run(1, 100, [first, other, first], [map[], ma, mb, ma], [true, true, true]);
    FirstEntryFiled(a);
    SingleEntryReplaced(a, b);
    SingleEntryReplaced(b, a);
    assert r.Step(0) && r.Step(1) && r.Step(2);
  }
}
