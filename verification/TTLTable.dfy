/** What a TTL map is, independent of how it is stored: keys with a value and an expiry second. */
module TTLTables {
  import opened Options

  datatype Value = IntValue(n: int) | OtherValue(text: string)

  datatype Entry = Entry(value: Value, expiry: int)

  type Table = map<string, Entry>

  datatype Error = BadTTL | NotInteger

  datatype Outcome<T> = Ok(value: T) | Err(error: Error)

  const NANOS: int := 1_000_000_000

  /** Two's complement wrap-around of Go's int and time.Duration. */
  function Wrap64(x: int): int {
    (x + 0x8000_0000_0000_0000) % 0x1_0000_0000_0000_0000 - 0x8000_0000_0000_0000
  }

  /** Exactly what wrap-around does: it stays in range, changes by a multiple of 2^64, and not at all inside the range. */
  lemma Wrap64Exactly(x: int)
    ensures -0x8000_0000_0000_0000 <= Wrap64(x) < 0x8000_0000_0000_0000
    ensures (Wrap64(x) - x) % 0x1_0000_0000_0000_0000 == 0
    ensures Wrap64(x) == x <==> -0x8000_0000_0000_0000 <= x < 0x8000_0000_0000_0000
  {}

  /** Whole seconds of a clock reading in nanoseconds. */
  function Unix(now: int): int {
    now / NANOS
  }

  /** Seconds are rounded down, before 1970 as well. */
  lemma UnixFloors(now: int)
    ensures Unix(now) * NANOS <= now < (Unix(now) + 1) * NANOS
  {}

  /** The expiry second of an entry stored at `now` for `ttl` seconds: the duration is a 64-bit nanosecond count. */
  function ExpirySecond(now: int, ttl: int): int {
    Unix(now + Wrap64(ttl * NANOS))
  }

  /** The expiry is `ttl` seconds after the clock's second exactly while the duration fits in 64 bits. */
  lemma ExpiryIsTTLSecondsAhead(now: int, ttl: int)
    requires ttl > 0
    ensures ExpirySecond(now, ttl) == Unix(now) + ttl <==> ttl <= 9_223_372_036
  {
    if ttl <= 9_223_372_036 {
      assert Wrap64(ttl * NANOS) == ttl * NANOS;
    } else {
      assert Wrap64(ttl * NANOS) < 0x8000_0000_0000_0000 <= ttl * NANOS;
      assert ttl * NANOS - Wrap64(ttl * NANOS) >= 0x1_0000_0000_0000_0000 > NANOS;
    }
  }

  /** `m'` is `m` without `n` of its entries, none of which expires later than a survivor. */
  ghost predicate Drops(m: Table, m': Table, n: nat) {
    && m'.Keys <= m.Keys && |m| == |m'| + n
    && (forall k :: k in m' ==> m'[k] == m[k])
    && (forall k, k' :: k in m && k !in m' && k' in m' ==> m[k].expiry <= m[k'].expiry)
  }

  lemma DropsOneMore(m: Table, m1: Table, n: nat, k: string)
    requires Drops(m, m1, n) && k in m1
    requires forall k' :: k' in m1 ==> m1[k].expiry <= m1[k'].expiry
    ensures Drops(m, m1 - {k}, n + 1)
  {
    assert (m1 - {k}).Keys == m1.Keys - {k};
  }

  /** A purge that has done all it was asked for so far goes on with an expired entry of least expiry. */
  lemma PurgesOneMore(m: Table, m1: Table, now: int, n: nat, k: string)
    requires Purges(m, m1, now, n, n) && Expired(m1, k, now)
    requires forall k' :: k' in m1 ==> m1[k].expiry <= m1[k'].expiry
    ensures Purges(m, m1 - {k}, now, n + 1, n + 1)
  {
    DropsOneMore(m, m1, n, k);
  }

  ghost predicate Expired(m: Table, k: string, now: int) {
    k in m && m[k].expiry <= now
  }

  ghost function ExpiredKeys(m: Table, now: int): set<string> {
    set k | k in m && Expired(m, k, now)
  }

  /** Only expired entries go, and if fewer than asked for went then no expired entry is left. */
  ghost predicate Purges(m: Table, m': Table, now: int, asked: int, removed: nat) {
    && Drops(m, m', removed) && (removed > 0 ==> removed <= asked)
    && (forall k :: k in m && k !in m' ==> Expired(m, k, now))
    && (removed < asked ==> forall k :: k in m' ==> !Expired(m', k, now))
  }

  /** Purging removes exactly as many as were asked for, or every expired entry if there are fewer. */
  lemma PurgesCount(m: Table, m': Table, now: int, asked: int, removed: nat)
    requires Purges(m, m', now, asked, removed)
    ensures var due := |ExpiredKeys(m, now)|; removed == if asked < 0 then 0 else if asked < due then asked else due
  {
    var gone, due := m.Keys - m'.Keys, ExpiredKeys(m, now);
    assert |gone| == removed by { assert m.Keys == gone + m'.Keys; }
    assert gone <= due;
    Included(gone, due);
    if removed < asked {
      forall k | k in due ensures k in gone {
        assert k in m' ==> m'[k] == m[k] && !Expired(m', k, now);
      }
      assert gone == due;
    }
  }

  lemma Included<T>(a: set<T>, b: set<T>)
    requires a <= b
    ensures |a| <= |b|
  {
    assert b == a + (b - a);
  }

  /** Storing an entry in a table of bounded size: a new key at capacity costs one entry of least expiry. */
  ghost predicate Stores(capacity: nat, m: Table, key: string, e: Entry, m': Table) {
    if key in m || |m| < capacity || m == map[] then m' == m[key := e]
    else exists mid :: Drops(m, mid, 1) && m' == mid[key := e]
  }

  /** What a read at second `now` finds. */
  function Lookup(m: Table, key: string, now: int): Option<Value> {
    if key in m && m[key].expiry > now then Some(m[key].value) else None
  }

  /** A read that finds its entry expired checks again under the write lock before deleting it. */
  function AfterGet(m: Table, key: string, now: int, again: int): Table {
    if key in m && m[key].expiry <= now && m[key].expiry <= again then m - {key} else m
  }

  /** What is stored for `ttl` seconds is found for exactly that long. */
  lemma StoredThenFound(capacity: nat, m: Table, key: string, value: Value, now: int, ttl: int, m': Table, second: int)
    requires 1 <= ttl <= 9_223_372_036 && Stores(capacity, m, key, Entry(value, ExpirySecond(now, ttl)), m')
    ensures Lookup(m', key, second) == if second < Unix(now) + ttl then Some(value) else None
  {
    ExpiryIsTTLSecondsAhead(now, ttl);
  }

  /** A read deletes its key exactly if it is there and found expired by both readings, and never touches another. */
  lemma GetDeletesExactly(m: Table, key: string, now: int, again: int)
    ensures AfterGet(m, key, now, again) ==
            m - if Lookup(m, key, now).None? && Lookup(m, key, again).None? then {key} else {}
    ensures Expired(m, key, now) <==> key in m && Lookup(m, key, now).None?
  {}

  ghost predicate Fits(capacity: nat, m: Table) {
    |m| <= if capacity == 0 then 1 else capacity
  }

  lemma StoresByDropping(capacity: nat, m: Table, mid: Table, key: string, e: Entry)
    requires key !in m
    requires if |m| < capacity then mid == m else Drops(m, mid, if 1 < |m| then 1 else |m|)
    ensures key !in mid && Stores(capacity, m, key, e, mid[key := e])
  {
    if |m| >= capacity && m == map[] {
      assert mid == m;
    }
  }

  /** Storing keeps the size bound. */
  lemma StoresFits(capacity: nat, m: Table, key: string, e: Entry, m': Table)
    requires Fits(capacity, m) && Stores(capacity, m, key, e, m')
    ensures Fits(capacity, m') && key in m' && m'[key] == e
  {}

  /** What any operation of a TTL map does to its table. */
  ghost predicate Changes(capacity: nat, m: Table, m': Table) {
    || m' == m
    || (exists key, e :: Stores(capacity, m, key, e, m'))
    || (exists n: nat :: Drops(m, m', n))
    || (exists key, now, again :: m' == AfterGet(m, key, now, again))
  }

  /** Over any run from an empty table the size never exceeds the capacity, or one if the capacity is zero. */
  lemma {:induction false} RunFits(capacity: nat, tables: seq<Table>, i: nat)
    requires i < |tables| && tables[0] == map[]
    requires forall j :: 0 <= j < |tables| - 1 ==> Changes(capacity, tables[j], tables[j + 1])
    ensures Fits(capacity, tables[i])
  {
    if i > 0 {
      RunFits(capacity, tables, i - 1);
      var m, m' := tables[i - 1], tables[i];
      assert Changes(capacity, m, m');
      if key, e :| Stores(capacity, m, key, e, m') {
        StoresFits(capacity, m, key, e, m');
      } else if key, now, again :| m' == AfterGet(m, key, now, again) {
        Included(m'.Keys, m.Keys);
      }
    }
  }

  lemma OnlyOneDropped(m: Table, mid: Table, a: string, b: string)
    requires Drops(m, mid, 1) && a in m && a !in mid && b in m && b !in mid
    ensures a == b
  {
    Included(mid.Keys + {a, b}, m.Keys);
  }

  /** An unexpired entry is not given up while an expired one is there to go. */
  lemma StoresSparesLiveEntries(capacity: nat, m: Table, key: string, e: Entry, m': Table, now: int, k: string, dead: string)
    requires Stores(capacity, m, key, e, m')
    requires k in m && !Expired(m, k, now) && Expired(m, dead, now)
    ensures k in m'
  {
    if !(key in m || |m| < capacity || m == map[]) {
      var mid :| Drops(m, mid, 1) && m' == mid[key := e];
      if k !in mid && dead !in mid {
        OnlyOneDropped(m, mid, k, dead);
      }
    }
  }
}
