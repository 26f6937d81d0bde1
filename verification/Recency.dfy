/** What an LRU cache holds: records, most recently touched first. */
module Recency {
  import opened Options

  datatype Record<K, V> = Record(key: K, value: V, expireAt: Option<int>)
  {
    predicate Expired(now: int) {
      expireAt.Some? && expireAt.value < now
    }
  }

  function Find<K(==), V>(recs: seq<Record<K, V>>, key: K): (r: Option<Record<K, V>>)
    ensures r.Some? ==> r.value in recs && r.value.key == key
    ensures r.None? ==> forall x :: x in recs ==> x.key != key
  {
    if recs == [] then None else if recs[0].key == key then Some(recs[0]) else Find(recs[1..], key)
  }

  function Without<K(==), V>(recs: seq<Record<K, V>>, key: K): (r: seq<Record<K, V>>)
    ensures forall x :: x in r ==> x in recs && x.key != key
    ensures forall x :: x in recs && x.key != key ==> x in r
  {
    if recs == [] then []
    else if recs[0].key == key then Without(recs[1..], key)
    else [recs[0]] + Without(recs[1..], key)
  }

  /** No key occurs twice. */
  ghost predicate Distinct<K, V>(recs: seq<Record<K, V>>) {
    recs == [] || (Find(recs[1..], recs[0].key).None? && Distinct(recs[1..]))
  }

  /** Zero means unbounded; a negative bound admits nothing. */
  function Trim<K, V>(max: int, recs: seq<Record<K, V>>): seq<Record<K, V>> {
    if max != 0 && |recs| > max && recs != [] then recs[..|recs| - 1] else recs
  }

  function AfterAdd<K(==), V>(max: int, recs: seq<Record<K, V>>, r: Record<K, V>): seq<Record<K, V>> {
    var touched := [r] + Without(recs, r.key);
    if Find(recs, r.key).Some? then touched else Trim(max, touched)
  }

  /** The record an addition pushes out, if any. */
  function Evicted<K(==), V>(max: int, recs: seq<Record<K, V>>, r: Record<K, V>): Option<Record<K, V>> {
    if Find(recs, r.key).Some? || max == 0 || |recs| < max then None
    else Some(([r] + recs)[|recs|])
  }

  function AfterGet<K(==), V>(recs: seq<Record<K, V>>, key: K, now: int): seq<Record<K, V>> {
    match Find(recs, key)
    case None => recs
    case Some(r) => if r.Expired(now) then Without(recs, key) else [r] + Without(recs, key)
  }

  function Found<K(==), V>(recs: seq<Record<K, V>>, key: K, now: int): Option<V> {
    match Find(recs, key)
    case None => None
    case Some(r) => if r.Expired(now) then None else Some(r.value)
  }

  /** The record Get finds expired, which it removes. */
  function Lapsed<K(==), V>(recs: seq<Record<K, V>>, key: K, now: int): Option<Record<K, V>> {
    match Find(recs, key)
    case None => None
    case Some(r) => if r.Expired(now) then Some(r) else None
  }

  datatype Op<K, V> = Add(record: Record<K, V>) | Get(key: K, now: int) | Remove(key: K)

  function After<K(==), V>(max: int, recs: seq<Record<K, V>>, op: Op<K, V>): seq<Record<K, V>> {
    match op
    case Add(r) => AfterAdd(max, recs, r)
    case Get(key, now) => AfterGet(recs, key, now)
    case Remove(key) => Without(recs, key)
  }

  /** The cache of bound `max` after a sequence of operations. */
  function Run<K(==), V>(max: int, ops: seq<Op<K, V>>): seq<Record<K, V>> {
    if ops == [] then [] else After(max, Run(max, ops[..|ops| - 1]), ops[|ops| - 1])
  }

  lemma {:induction false} WithoutDistinct<K, V>(recs: seq<Record<K, V>>, key: K)
    requires Distinct(recs)
    ensures Distinct(Without(recs, key))
    ensures |Without(recs, key)| == |recs| - if Find(recs, key).Some? then 1 else 0
    ensures Find(recs, key).None? ==> Without(recs, key) == recs
  {
    if recs != [] {
      WithoutDistinct(recs[1..], key);
    }
  }

  /** `s` is obtained from `l` by leaving records out. */
  ghost predicate Within<T>(s: seq<T>, l: seq<T>) {
    s == [] || (l != [] && ((s[0] == l[0] && Within(s[1..], l[1..])) || Within(s, l[1..])))
  }

  lemma {:induction false} WithinMembers<T>(s: seq<T>, l: seq<T>, x: T)
    requires Within(s, l) && x in s
    ensures x in l
  {
    if s[0] == l[0] && Within(s[1..], l[1..]) {
      if x != s[0] { WithinMembers(s[1..], l[1..], x); }
    } else {
      WithinMembers(s, l[1..], x);
    }
  }

  lemma {:induction false} WithinLength<T>(s: seq<T>, l: seq<T>)
    requires Within(s, l)
    ensures |s| <= |l|
  {
    if s != [] {
      if s[0] == l[0] && Within(s[1..], l[1..]) { WithinLength(s[1..], l[1..]); } else { WithinLength(s, l[1..]); }
    }
  }

  /** The last records may go from both, or from the shorter list only. */
  lemma {:induction false} WithinDropLast<T>(s: seq<T>, l: seq<T>)
    requires Within(s, l) && s != []
    ensures l != [] && Within(s[..|s| - 1], l[..|l| - 1]) && Within(s[..|s| - 1], l)
  {
    if s[0] == l[0] && Within(s[1..], l[1..]) {
      if |s| > 1 {
        WithinDropLast(s[1..], l[1..]);
        assert s[1..][..|s| - 2] == s[..|s| - 1][1..];
        assert l[1..][..|l| - 2] == l[..|l| - 1][1..];
      }
    } else {
      WithinDropLast(s, l[1..]);
      assert l[1..][..|l| - 2] == l[..|l| - 1][1..];
    }
  }

  lemma {:induction false} WithinWithout<K, V>(s: seq<Record<K, V>>, l: seq<Record<K, V>>, key: K)
    requires Within(s, l)
    ensures Within(Without(s, key), Without(l, key))
  {
    if s != [] {
      if s[0] == l[0] && Within(s[1..], l[1..]) { WithinWithout(s[1..], l[1..], key); } else { WithinWithout(s, l[1..], key); }
    }
  }

  lemma {:induction false} FindUnique<K, V>(recs: seq<Record<K, V>>, r: Record<K, V>)
    requires Distinct(recs) && r in recs
    ensures Find(recs, r.key) == Some(r)
  {
    if r != recs[0] { FindUnique(recs[1..], r); }
  }

  function Cap(max: int): nat {
    if max < 0 then 0 else max
  }

  ghost predicate Fits<K, V>(max: int, recs: seq<Record<K, V>>) {
    max == 0 || |recs| <= Cap(max)
  }

  /** The bound `m` allows everything the bound `n` does. */
  predicate NoTighter(n: int, m: int) {
    m == 0 || (n != 0 && Cap(n) <= Cap(m))
  }

  /** Every operation keeps keys distinct and the bound respected. */
  lemma AfterKeepsShape<K, V>(max: int, recs: seq<Record<K, V>>, op: Op<K, V>)
    requires Distinct(recs) && Fits(max, recs)
    ensures Distinct(After(max, recs, op)) && Fits(max, After(max, recs, op))
  {
    var key := if op.Add? then op.record.key else op.key;
    WithoutDistinct(recs, key);
    if op.Add? {
      var touched := [op.record] + Without(recs, key);
      assert touched[1..] == Without(recs, key);
      DropLastDistinct(touched);
    } else if op.Get? && Find(recs, key).Some? {
      var touched := [Find(recs, key).value] + Without(recs, key);
      assert touched[1..] == Without(recs, key);
    }
  }

  lemma {:induction false} DropLastDistinct<K, V>(recs: seq<Record<K, V>>)
    requires Distinct(recs) && recs != []
    ensures Distinct(recs[..|recs| - 1])
  {
    if |recs| > 1 {
      DropLastDistinct(recs[1..]);
      assert recs[1..][..|recs| - 2] == recs[..|recs| - 1][1..];
    }
  }

  /** Two caches fed the same operations: the tighter one holds part of the other, which is ahead by at most the difference in bounds. */
  ghost predicate Includes<K, V>(n: int, s: seq<Record<K, V>>, m: int, l: seq<Record<K, V>>) {
    && Distinct(s) && Distinct(l) && Fits(n, s) && Fits(m, l)
    && Within(s, l) && (m != 0 ==> |l| - |s| <= Cap(m) - Cap(n))
  }

  lemma FindWithin<K, V>(s: seq<Record<K, V>>, l: seq<Record<K, V>>, key: K)
    requires Within(s, l) && Distinct(l) && Find(s, key).Some?
    ensures Find(l, key) == Find(s, key)
  {
    var r := Find(s, key).value;
    WithinMembers(s, l, r);
    FindUnique(l, r);
  }

  /** When the looser cache has to drop its oldest record, the tighter one is full and drops one too. */
  lemma TrimKeepsInclusion<K, V>(n: int, s: seq<Record<K, V>>, m: int, l: seq<Record<K, V>>)
    requires NoTighter(n, m) && Within(s, l) && s != []
    requires (n != 0 ==> |s| <= Cap(n) + 1) && (m != 0 ==> |l| <= Cap(m) + 1 && |l| - |s| <= Cap(m) - Cap(n))
    ensures Within(Trim(n, s), Trim(m, l)) && (m != 0 ==> |Trim(m, l)| - |Trim(n, s)| <= Cap(m) - Cap(n))
  {
    WithinDropLast(s, l);
  }

  lemma AddKeepsInclusion<K, V>(n: int, s: seq<Record<K, V>>, m: int, l: seq<Record<K, V>>, r: Record<K, V>)
    requires NoTighter(n, m) && Includes(n, s, m, l)
    ensures Includes(n, AfterAdd(n, s, r), m, AfterAdd(m, l, r))
  {
    AfterKeepsShape(n, s, Add(r));
    AfterKeepsShape(m, l, Add(r));
    WithoutDistinct(s, r.key);
    WithoutDistinct(l, r.key);
    WithinWithout(s, l, r.key);
    var s0, l0 := [r] + Without(s, r.key), [r] + Without(l, r.key);
    assert s0[1..] == Without(s, r.key) && l0[1..] == Without(l, r.key);
    assert Within(s0, l0);
    if Find(s, r.key).Some? {
      FindWithin(s, l, r.key);
    } else if Find(l, r.key).Some? {
      WithinDropLast(s0, l0);
    } else {
      TrimKeepsInclusion(n, s0, m, l0);
    }
  }

  lemma GetKeepsInclusion<K, V>(n: int, s: seq<Record<K, V>>, m: int, l: seq<Record<K, V>>, key: K, now: int)
    requires NoTighter(n, m) && Includes(n, s, m, l)
    ensures Includes(n, AfterGet(s, key, now), m, AfterGet(l, key, now))
    ensures Found(s, key, now).Some? ==> Found(l, key, now) == Found(s, key, now)
  {
    AfterKeepsShape(n, s, Get(key, now));
    AfterKeepsShape(m, l, Get(key, now));
    WithoutDistinct(s, key);
    WithoutDistinct(l, key);
    WithinWithout(s, l, key);
    if Find(s, key).Some? {
      FindWithin(s, l, key);
      var s0, l0 := [Find(s, key).value] + Without(s, key), [Find(s, key).value] + Without(l, key);
      assert s0[1..] == Without(s, key) && l0[1..] == Without(l, key);
    } else if Find(l, key).Some? {
      var l0 := [Find(l, key).value] + Without(l, key);
      assert l0[1..] == Without(l, key);
    }
  }

  lemma AfterKeepsInclusion<K, V>(n: int, s: seq<Record<K, V>>, m: int, l: seq<Record<K, V>>, op: Op<K, V>)
    requires NoTighter(n, m) && Includes(n, s, m, l)
    ensures Includes(n, After(n, s, op), m, After(m, l, op))
  {
    match op
    case Add(r) => AddKeepsInclusion(n, s, m, l, r);
    case Get(key, now) => GetKeepsInclusion(n, s, m, l, key, now);
    case Remove(key) =>
      WithoutDistinct(s, key);
      WithoutDistinct(l, key);
      WithinWithout(s, l, key);
      if Find(s, key).Some? { FindWithin(s, l, key); }
  }

  /** Over every sequence of operations the tighter cache's recency list is a subsequence of the looser one's. */
  lemma {:induction false} RunInclusion<K, V>(n: int, m: int, ops: seq<Op<K, V>>)
    requires NoTighter(n, m)
    ensures Includes(n, Run(n, ops), m, Run(m, ops))
  {
    if ops != [] {
      var before := ops[..|ops| - 1];
      RunInclusion(n, m, before);
      AfterKeepsInclusion(n, Run(n, before), m, Run(m, before), ops[|ops| - 1]);
    }
  }

  /** So a lookup that hits in the tighter cache hits in the looser one, with the same value. */
  lemma HitsCarryOver<K, V>(n: int, m: int, ops: seq<Op<K, V>>, key: K, now: int)
    requires NoTighter(n, m) && Found(Run(n, ops), key, now).Some?
    ensures Found(Run(m, ops), key, now) == Found(Run(n, ops), key, now)
  {
    RunInclusion(n, m, ops);
    GetKeepsInclusion(n, Run(n, ops), m, Run(m, ops), key, now);
  }

  /** Additions of the keys 0 to n - 1. */
  function Adds(n: nat): seq<Op<nat, nat>> {
    if n == 0 then [] else Adds(n - 1) + [Add(Record(n - 1, 0, None))]
  }

  /** What they leave in a cache with room for them. */
  function Filled(n: nat): (recs: seq<Record<nat, nat>>)
    ensures |recs| == n && forall r :: r in recs ==> r.key < n
  {
    if n == 0 then [] else [Record(n - 1, 0, None)] + Filled(n - 1)
  }

  lemma {:induction false} FilledDistinct(n: nat)
    ensures Distinct(Filled(n))
  {
    if n > 0 {
      FilledDistinct(n - 1);
      assert Filled(n)[1..] == Filled(n - 1);
    }
  }

  lemma {:induction false} AddsFill(max: int, n: nat)
    requires max == 0 || n <= max
    ensures Run(max, Adds(n)) == Filled(n)
  {
    if n > 0 {
      AddsFill(max, n - 1);
      FilledDistinct(n - 1);
      NewKeyFits(max, Filled(n - 1), Record(n - 1, 0, None));
      RunOneMore(max, Adds(n - 1), Add(Record(n - 1, 0, None)));
    }
  }

  lemma RunOneMore<K, V>(max: int, ops: seq<Op<K, V>>, op: Op<K, V>)
    ensures Run(max, ops + [op]) == After(max, Run(max, ops), op)
  {
    assert (ops + [op])[..|ops|] == ops;
  }

  lemma NewKeyFits<K, V>(max: int, recs: seq<Record<K, V>>, r: Record<K, V>)
    requires Distinct(recs) && (max == 0 || |recs| < max) && forall x :: x in recs ==> x.key != r.key
    ensures AfterAdd(max, recs, r) == [r] + recs
  {
    WithoutDistinct(recs, r.key);
  }

  /** The bounds for which inclusion holds over every history are exactly those where one is no tighter than the other. */
  lemma InclusionExactly(n: int, m: int)
    ensures NoTighter(n, m) <==> forall ops: seq<Op<nat, nat>> :: Within(Run(n, ops), Run(m, ops))
  {
    if NoTighter(n, m) {
      forall ops: seq<Op<nat, nat>> ensures Within(Run(n, ops), Run(m, ops)) { RunInclusion(n, m, ops); }
    } else {
      var ops := Adds(Cap(m) + 1);
      AddsFill(n, Cap(m) + 1);
      RunInclusion(m, m, ops);
      if Within(Run(n, ops), Run(m, ops)) { WithinLength(Run(n, ops), Run(m, ops)); }
    }
  }

  /** The operation puts `key` at the front: it adds it, or looks it up with success. */
  predicate Touches<K(==), V>(max: int, before: seq<Op<K, V>>, op: Op<K, V>, key: K) {
    match op
    case Add(r) => r.key == key
    case Get(k, now) => k == key && Found(Run(max, before), k, now).Some?
    case Remove(_) => false
  }

  /** The position of the last operation that touched the key, read off the history alone; -1 if there is none. */
  function LastTouch<K(==), V>(max: int, ops: seq<Op<K, V>>, key: K): (t: int)
    ensures t < |ops|
  {
    if ops == [] then -1
    else
      var before := ops[..|ops| - 1];
      if Touches(max, before, ops[|ops| - 1], key) then |ops| - 1 else LastTouch(max, before, key)
  }

  /** The record most recently added under the key. */
  function LastAdded<K(==), V>(ops: seq<Op<K, V>>, key: K): Option<Record<K, V>> {
    if ops == [] then None
    else
      var op := ops[|ops| - 1];
      if op.Add? && op.record.key == key then Some(op.record) else LastAdded(ops[..|ops| - 1], key)
  }

  ghost predicate Descending<K, V>(rank: K -> int, recs: seq<Record<K, V>>) {
    forall i, j :: 0 <= i < j < |recs| ==> rank(recs[i].key) > rank(recs[j].key)
  }

  lemma {:induction false} DescendingWithout<K, V>(rank: K -> int, recs: seq<Record<K, V>>, key: K)
    requires Descending(rank, recs)
    ensures Descending(rank, Without(recs, key))
  {
    if recs != [] {
      DescendingWithout(rank, recs[1..], key);
      HeadRanksAbove(rank, recs, key);
    }
  }

  lemma HeadRanksAbove<K, V>(rank: K -> int, recs: seq<Record<K, V>>, key: K)
    requires recs != [] && Descending(rank, recs)
    ensures var kept := Without(recs[1..], key); forall j :: 0 <= j < |kept| ==> rank(recs[0].key) > rank(kept[j].key)
  {
    var kept := Without(recs[1..], key);
    forall j | 0 <= j < |kept| ensures rank(recs[0].key) > rank(kept[j].key) {
      assert kept[j] in recs[1..];
      var x :| 0 <= x < |recs[1..]| && recs[1..][x] == kept[j];
      assert recs[x + 1] == kept[j];
    }
  }

  /** Moving a key to the front keeps the list ordered by last touch. */
  lemma TouchedFirst<K, V>(rank: K -> int, rank': K -> int, recs: seq<Record<K, V>>, r: Record<K, V>, top: int)
    requires Descending(rank, recs) && rank'(r.key) == top
    requires forall x :: x in recs && x.key != r.key ==> rank'(x.key) == rank(x.key) < top
    ensures Descending(rank', [r] + Without(recs, r.key))
  {
    DescendingWithout(rank, recs, r.key);
    var touched := [r] + Without(recs, r.key);
    forall i, j | 0 <= i < j < |touched| ensures rank'(touched[i].key) > rank'(touched[j].key) {
      assert touched[j] in Without(recs, r.key);
      assert i > 0 ==> touched[i] in Without(recs, r.key);
    }
  }

  function Rank<K(==), V>(max: int, ops: seq<Op<K, V>>): K -> int {
    key => LastTouch(max, ops, key)
  }

  /** An operation that touches no other key leaves the other ranks alone. */
  lemma RankStep<K, V>(max: int, ops: seq<Op<K, V>>, key: K)
    requires ops != []
    ensures var before, op := ops[..|ops| - 1], ops[|ops| - 1];
            Rank(max, ops)(key) == if Touches(max, before, op, key) then |ops| - 1 else Rank<K, V>(max, before)(key)
    ensures Rank(max, ops)(key) < |ops|
  {}

  lemma TouchKeepsOrder<K, V>(max: int, ops: seq<Op<K, V>>, recs: seq<Record<K, V>>, r: Record<K, V>)
    requires ops != [] && !ops[|ops| - 1].Remove?
    requires r.key == if ops[|ops| - 1].Add? then ops[|ops| - 1].record.key else ops[|ops| - 1].key
    requires Touches(max, ops[..|ops| - 1], ops[|ops| - 1], r.key)
    requires Descending(Rank(max, ops[..|ops| - 1]), recs)
    ensures Descending(Rank(max, ops), [r] + Without(recs, r.key))
  {
    var before := ops[..|ops| - 1];
    RankStep(max, ops, r.key);
    forall x | x in recs && x.key != r.key
      ensures Rank(max, ops)(x.key) == Rank(max, before)(x.key) < |ops| - 1
    {
      RankStep(max, ops, x.key);
    }
    TouchedFirst(Rank(max, before), Rank(max, ops), recs, r, |ops| - 1);
  }

  lemma NoTouchKeepsOrder<K, V>(max: int, ops: seq<Op<K, V>>, recs: seq<Record<K, V>>)
    requires ops != [] && Descending(Rank(max, ops[..|ops| - 1]), recs)
    requires forall r :: r in recs ==> !Touches(max, ops[..|ops| - 1], ops[|ops| - 1], r.key)
    ensures Descending(Rank(max, ops), recs)
  {
    forall i | 0 <= i < |recs| ensures Rank(max, ops)(recs[i].key) == Rank(max, ops[..|ops| - 1])(recs[i].key) {
      RankStep(max, ops, recs[i].key);
    }
  }

  /**
  Over every history the list is ordered by last touch, latest first. In particular what an addition to a full cache
  drops is the key whose last touch is the oldest.
  */
  lemma {:induction false} RunIsByRecency<K, V>(max: int, ops: seq<Op<K, V>>)
    ensures Descending(Rank(max, ops), Run(max, ops))
  {
    if ops != [] {
      var before, op := ops[..|ops| - 1], ops[|ops| - 1];
      RunIsByRecency(max, before);
      var recs, rank := Run(max, before), Rank(max, before);
      if op.Add? {
        TouchKeepsOrder(max, ops, recs, op.record);
      } else if op.Get? && Found(recs, op.key, op.now).Some? {
        TouchKeepsOrder(max, ops, recs, Find(recs, op.key).value);
      } else {
        DescendingWithout(rank, recs, op.key);
        NoTouchKeepsOrder(max, ops, Run(max, ops));
      }
    }
  }

  /** And under each key it holds the record last added. */
  lemma {:induction false} RunHoldsLastAdded<K, V>(max: int, ops: seq<Op<K, V>>, r: Record<K, V>)
    requires r in Run(max, ops)
    ensures LastAdded(ops, r.key) == Some(r) && LastTouch(max, ops, r.key) >= 0
  {
    var before, op := ops[..|ops| - 1], ops[|ops| - 1];
    if !(op.Add? && op.record == r) {
      assert r in Run(max, before);
      RunHoldsLastAdded(max, before, r);
    }
  }

  /** Adding a new key to a full cache drops exactly the record touched longest ago. */
  lemma EvictsLeastRecent<K, V>(max: int, ops: seq<Op<K, V>>, r: Record<K, V>)
    requires max > 0 && |Run(max, ops)| == max && Find(Run(max, ops), r.key).None?
    ensures AfterAdd(max, Run(max, ops), r) == [r] + Run(max, ops)[..max - 1]
    ensures forall i :: 0 <= i < max - 1 ==>
      LastTouch(max, ops, Run(max, ops)[max - 1].key) < LastTouch(max, ops, Run(max, ops)[i].key)
  {
    var recs := Run(max, ops);
    assert Distinct(recs) by { RunInclusion(max, max, ops); }
    FullAddDropsLast(max, recs, r);
    RunIsByRecency(max, ops);
    forall i | 0 <= i < max - 1 ensures LastTouch(max, ops, recs[max - 1].key) < LastTouch(max, ops, recs[i].key) {
      assert Rank(max, ops)(recs[i].key) > Rank(max, ops)(recs[max - 1].key);
    }
  }

  lemma FullAddDropsLast<K, V>(max: int, recs: seq<Record<K, V>>, r: Record<K, V>)
    requires Distinct(recs) && |recs| == max > 0 && Find(recs, r.key).None?
    ensures AfterAdd(max, recs, r) == [r] + recs[..max - 1]
  {
    WithoutDistinct(recs, r.key);
  }

  lemma {:induction false} WithoutAt<K, V>(recs: seq<Record<K, V>>, i: nat)
    requires i < |recs| && Distinct(recs)
    ensures Find(recs, recs[i].key) == Some(recs[i])
    ensures Without(recs, recs[i].key) == recs[..i] + recs[i + 1..]
  {
    FindUnique(recs, recs[i]);
    if i == 0 {
      WithoutDistinct(recs[1..], recs[0].key);
    } else {
      WithoutAt(recs[1..], i - 1);
      assert recs[0].key != recs[i].key by { assert recs[i] in recs[1..]; }
      assert recs[..i] + recs[i + 1..] == [recs[0]] + (recs[1..][..i - 1] + recs[1..][i..]);
    }
  }

  lemma {:induction false} DistinctIfPairwise<K, V>(recs: seq<Record<K, V>>)
    requires forall i, j :: 0 <= i < j < |recs| ==> recs[i].key != recs[j].key
    ensures Distinct(recs)
  {
    if recs != [] {
      assert forall i :: 0 <= i < |recs| - 1 ==> recs[1..][i] == recs[i + 1];
      DistinctIfPairwise(recs[1..]);
    }
  }
}
