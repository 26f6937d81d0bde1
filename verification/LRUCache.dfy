/** How the key table and the list elements of a cache hang together. */
module RecencyLists {
  import opened Options
  import R = Recency

  class Element<K, V> {
    var record: R.Record<K, V>

    constructor (record: R.Record<K, V>)
      ensures this.record == record
    {
      this.record := record;
    }
  }

  /** The element at `i` taken out. */
  function Dropped<T>(s: seq<T>, i: nat): (r: seq<T>)
    requires i < |s|
    ensures |r| == |s| - 1
    ensures forall j :: 0 <= j < |r| ==> r[j] == s[if j < i then j else j + 1]
  {
    s[..i] + s[i + 1..]
  }

  /** Table and list hold the same elements, each once and under its own key; `place` is where each key's element is. */
  ghost predicate Agrees<K, V>(cache: map<K, Element<K, V>>, ll: seq<Element<K, V>>, recs: seq<R.Record<K, V>>, place: map<K, nat>) {
    && |ll| == |recs| && place.Keys == cache.Keys
    && (forall k :: k in place ==> place[k] < |ll| && ll[place[k]] == cache[k] && recs[place[k]].key == k)
    && (forall i: nat :: i < |ll| ==> recs[i].key in place && place[recs[i].key] == i)
  }

  /** The list's elements hold these records. */
  ghost predicate Synced<K, V>(ll: seq<Element<K, V>>, recs: seq<R.Record<K, V>>)
    reads ll
  {
    |ll| == |recs| && forall i :: 0 <= i < |ll| ==> ll[i].record == recs[i]
  }

  lemma SyncedDropped<K, V>(ll: seq<Element<K, V>>, recs: seq<R.Record<K, V>>, i: nat)
    requires Synced(ll, recs) && i < |ll|
    ensures Synced(Dropped(ll, i), Dropped(recs, i))
    ensures Synced([ll[i]] + Dropped(ll, i), [recs[i]] + Dropped(recs, i))
  {}

  lemma LastPlace<K, V>(cache: map<K, Element<K, V>>, ll: seq<Element<K, V>>, recs: seq<R.Record<K, V>>, place: map<K, nat>)
    requires Agrees(cache, ll, recs, place) && |ll| > 0
    ensures R.Without(recs, recs[|ll| - 1].key) == recs[..|ll| - 1]
  {
    AgreesFind(cache, ll, recs, place, recs[|ll| - 1].key);
  }

  /** A record with the same key may replace the front one: no other element is the front element. */
  lemma FrontOverwritten<K, V>(cache: map<K, Element<K, V>>, ll: seq<Element<K, V>>, recs: seq<R.Record<K, V>>, place: map<K, nat>,
                               r: R.Record<K, V>)
    requires Agrees(cache, ll, recs, place) && Synced(ll, recs) && |ll| > 0 && r.key == recs[0].key
    ensures Agrees(cache, ll, [r] + recs[1..], place)
    ensures forall j :: 0 < j < |ll| ==> ll[j] != ll[0]
  {
    forall j | 0 < j < |ll| ensures ll[j] != ll[0] {
      assert place[recs[j].key] == j && place[recs[0].key] == 0;
    }
  }

  /** Looking a key up in the table and in the list comes to the same. */
  lemma AgreesFind<K, V>(cache: map<K, Element<K, V>>, ll: seq<Element<K, V>>, recs: seq<R.Record<K, V>>, place: map<K, nat>, k: K)
    requires Agrees(cache, ll, recs, place)
    ensures if k in cache then R.Find(recs, k) == Some(recs[place[k]]) && R.Without(recs, k) == Dropped(recs, place[k])
            else R.Find(recs, k) == None && R.Without(recs, k) == recs
  {
    R.DistinctIfPairwise(recs);
    if k in cache { R.WithoutAt(recs, place[k]); } else { R.WithoutDistinct(recs, k); }
  }

  ghost function PlaceDropped<K>(place: map<K, nat>, key: K): map<K, nat>
    requires key in place
  {
    map k | k in place && k != key :: if place[k] < place[key] || place[k] == 0 then place[k] else place[k] - 1
  }

  ghost function PlacePushed<K>(place: map<K, nat>, key: K): map<K, nat> {
    (map k | k in place :: place[k] + 1)[key := 0]
  }

  lemma AgreesDropped<K, V>(cache: map<K, Element<K, V>>, ll: seq<Element<K, V>>, recs: seq<R.Record<K, V>>, place: map<K, nat>, key: K)
    requires Agrees(cache, ll, recs, place) && key in place
    ensures Agrees(cache - {key}, Dropped(ll, place[key]), Dropped(recs, place[key]), PlaceDropped(place, key))
  {}

  lemma AgreesPushed<K, V>(cache: map<K, Element<K, V>>, ll: seq<Element<K, V>>, recs: seq<R.Record<K, V>>, place: map<K, nat>,
                           e: Element<K, V>, r: R.Record<K, V>)
    requires Agrees(cache, ll, recs, place) && r.key !in cache
    ensures Agrees(cache[r.key := e], [e] + ll, [r] + recs, PlacePushed(place, r.key))
  {}

  lemma AgreesMoved<K, V>(cache: map<K, Element<K, V>>, ll: seq<Element<K, V>>, recs: seq<R.Record<K, V>>, place: map<K, nat>, key: K)
    requires Agrees(cache, ll, recs, place) && key in place
    ensures var i := place[key];
            Agrees(cache, [ll[i]] + Dropped(ll, i), [recs[i]] + Dropped(recs, i), PlacePushed(PlaceDropped(place, key), key))
  {
    var i := place[key];
    AgreesDropped(cache, ll, recs, place, key);
    AgreesPushed(cache - {key}, Dropped(ll, i), Dropped(recs, i), PlaceDropped(place, key), ll[i], recs[i]);
    assert (cache - {key})[key := ll[i]] == cache;
  }

}

/** The cache itself: a key table of list elements, and the list in recency order. */
module LRUCaches {
  import opened Options
  import R = Recency
  import opened RecencyLists

  datatype Stats = Stats(size: nat, miss: nat, hit: nat)

  class LRUCache<K(==), V> {
    const MaxEntries: int
    var ll: seq<Element<K, V>>
    var cache: map<K, Element<K, V>>
    var stats: Stats
    /** Whether OnEvicted is set, and the calls made to it. */
    const notifies: bool
    var notified: seq<(K, V)>

    /** The abstract value, with the place of each key in it; the lookups since the counters were last read. */
    ghost var Records: seq<R.Record<K, V>>
    ghost var place: map<K, nat>
    ghost var lookups: nat

    constructor (maxEntries: int, notifies: bool)
      ensures Valid() && Records == [] && lookups == 0 && notified == []
      ensures MaxEntries == maxEntries && this.notifies == notifies
    {
      MaxEntries, this.notifies := maxEntries, notifies;
      ll, cache, stats, notified := [], map[], Stats(0, 0, 0), [];
      Records, place, lookups := [], map[], 0;
    }

    /** Table and list agree, and the counters count the lookups. */
    ghost predicate Valid()
      reads this, ll
    {
      && Agrees(cache, ll, Records, place) && stats.hit + stats.miss == lookups
      && Synced(ll, Records)
    }

    /** The calls made to OnEvicted when `r` leaves the cache. */
    ghost function Notice(r: Option<R.Record<K, V>>): seq<(K, V)> {
      if notifies && r.Some? then [(r.value.key, r.value.value)] else []
    }

    method Relink(table: map<K, Element<K, V>>, list: seq<Element<K, V>>, ghost recs: seq<R.Record<K, V>>, ghost places: map<K, nat>)
      requires Agrees(table, list, recs, places) && Synced(list, recs) && stats.hit + stats.miss == lookups
      modifies this`ll, this`cache, this`Records, this`place
      ensures Valid() && ll == list && cache == table && Records == recs
    {
      ll, cache, Records, place := list, table, recs, places;
    }

    /** list.MoveToFront. */
    method MoveToFront(e: Element<K, V>)
      requires Valid() && e in ll
      modifies this`ll, this`cache, this`Records, this`place
      ensures Valid() && cache == old(cache) && |ll| > 0 && ll[0] == e
      ensures Records == [e.record] + R.Without(old(Records), e.record.key)
    {
      ghost var key := e.record.key;
      var i :| 0 <= i < |ll| && ll[i] == e;
      var list := [e] + Dropped(ll, i);
      ghost var recs, places := [e.record] + R.Without(Records, key), PlacePushed(PlaceDropped(place, key), key);
      assert Agrees(cache, list, recs, places) && Synced(list, recs) by {
        SyncedDropped(ll, Records, i);
        AgreesMoved(cache, ll, Records, place, key);
        AgreesFind(cache, ll, Records, place, key);
      }
      Relink(cache, list, recs, places);
    }

    /** removeElement, with its call to OnEvicted. */
    method RemoveElement(e: Element<K, V>)
      requires Valid() && e in ll
      modifies this`ll, this`Records, this`place, this`cache, this`notified
      ensures Valid()
      ensures Records == R.Without(old(Records), e.record.key)
      ensures notified == old(notified) + if notifies then [(e.record.key, e.record.value)] else []
    {
      var key := e.record.key;
      var i :| 0 <= i < |ll| && ll[i] == e;
      var table, list := cache - {key}, Dropped(ll, i);
      ghost var recs, places := R.Without(Records, key), PlaceDropped(place, key);
      assert Agrees(table, list, recs, places) && Synced(list, recs) by {
        SyncedDropped(ll, Records, i);
        AgreesDropped(cache, ll, Records, place, key);
        AgreesFind(cache, ll, Records, place, key);
      }
      Relink(table, list, recs, places);
      if notifies {
        notified := notified + [(key, e.record.value)];
      }
    }

    method RemoveOldest()
      requires Valid() && |ll| > 0
      modifies this`ll, this`Records, this`place, this`cache, this`notified
      ensures Valid() && Records == old(Records[..|Records| - 1])
      ensures notified == old(notified) +
              if notifies then [(old(Records[|Records| - 1].key), old(Records[|Records| - 1].value))] else []
    {
      var e := ll[|ll| - 1];
      assert R.Without(Records, e.record.key) == Records[..|ll| - 1] by {
        LastPlace(cache, ll, Records, place);
      }
      RemoveElement(e);
    }

    /** A new element goes to the front of the list and into the table. */
    method PushFront(record: R.Record<K, V>)
      requires Valid() && record.key !in cache
      modifies this`ll, this`Records, this`place, this`cache
      ensures Valid() && Records == [record] + old(Records)
    {
      var e := new Element(record);
      AgreesPushed(cache, ll, Records, place, e, record);
      assert Synced([e] + ll, [record] + Records);
      Relink(cache[record.key := e], [e] + ll, [record] + Records, PlacePushed(place, record.key));
    }

    /** The front element's record is overwritten in place. */
    method OverwriteFront(record: R.Record<K, V>)
      requires Valid() && |ll| > 0 && ll[0].record.key == record.key
      modifies ll[0], this`Records
      ensures Valid() && Records == [record] + old(Records[1..])
    {
      FrontOverwritten(cache, ll, Records, place, record);
      ll[0].record := record;
      Records := [record] + Records[1..];
    }

    method AddRecord(record: R.Record<K, V>) returns (existed: bool)
      requires Valid()
      modifies this`ll, this`Records, this`place, this`cache, this`notified, ll
      ensures Valid() && existed == R.Find(old(Records), record.key).Some?
      ensures Records == R.AfterAdd(MaxEntries, old(Records), record)
      ensures notified == old(notified) + Notice(R.Evicted(MaxEntries, old(Records), record))
    {
      AgreesFind(cache, ll, Records, place, record.key);
      if record.key in cache {
        Replace(record);
        return true;
      }
      Insert(record);
      existed := false;
    }

    /** The key exists: its element moves to the front and its record is overwritten. */
    method Replace(record: R.Record<K, V>)
      requires Valid() && record.key in cache
      modifies this`ll, this`Records, this`place, this`cache, ll
      ensures Valid() && Records == [record] + R.Without(old(Records), record.key)
    {
      var e := cache[record.key];
      MoveToFront(e);
      OverwriteFront(record);
    }

    /** The key is new: it goes to the front, and the oldest record goes if the bound is exceeded. */
    method Insert(record: R.Record<K, V>)
      requires Valid() && record.key !in cache
      modifies this`ll, this`Records, this`place, this`cache, this`notified
      ensures Valid() && Records == R.Trim(MaxEntries, [record] + old(Records))
      ensures notified == old(notified) +
              if notifies && MaxEntries != 0 && |old(Records)| + 1 > MaxEntries
              then [(([record] + old(Records))[|old(Records)|].key, ([record] + old(Records))[|old(Records)|].value)] else []
    {
      PushFront(record);
      if MaxEntries != 0 && |ll| > MaxEntries {
        RemoveOldest();
      }
    }

    method Add(key: K, value: V) returns (existed: bool)
      requires Valid()
      modifies this`ll, this`Records, this`place, this`cache, this`notified, ll
      ensures Valid() && existed == R.Find(old(Records), key).Some?
      ensures Records == R.After(MaxEntries, old(Records), R.Add(R.Record(key, value, None)))
      ensures notified == old(notified) + Notice(R.Evicted(MaxEntries, old(Records), R.Record(key, value, None)))
    {
      existed := AddRecord(R.Record(key, value, None));
    }

    method AddWithTTL(key: K, value: V, ttl: int, now: int) returns (existed: bool)
      requires Valid()
      modifies this`ll, this`Records, this`place, this`cache, this`notified, ll
      ensures Valid() && existed == R.Find(old(Records), key).Some?
      ensures Records == R.After(MaxEntries, old(Records), R.Add(R.Record(key, value, Some(now + ttl))))
      ensures notified == old(notified) + Notice(R.Evicted(MaxEntries, old(Records), R.Record(key, value, Some(now + ttl))))
    {
      existed := AddRecord(R.Record(key, value, Some(now + ttl)));
    }

    method Get(key: K, now: int) returns (value: Option<V>)
      requires Valid()
      modifies this
      ensures Valid() && value == R.Found(old(Records), key, now) && lookups == old(lookups) + 1
      ensures Records == R.After(MaxEntries, old(Records), R.Get(key, now))
      ensures stats == (if value.Some? then old(stats).(hit := old(stats).hit + 1) else old(stats).(miss := old(stats).miss + 1))
      ensures notified == old(notified) + Notice(R.Lapsed(old(Records), key, now))
    {
      value := Touch(key, now);
      Count(value.Some?);
    }

    method Count(hit: bool)
      requires Valid()
      modifies this`stats, this`lookups
      ensures Valid() && lookups == old(lookups) + 1
      ensures stats == (if hit then old(stats).(hit := old(stats).hit + 1) else old(stats).(miss := old(stats).miss + 1))
    {
      lookups := lookups + 1;
      stats := if hit then stats.(hit := stats.hit + 1) else stats.(miss := stats.miss + 1);
    }

    /** The list side of Get: an expired element is removed, a live one moves to the front. */
    method Touch(key: K, now: int) returns (value: Option<V>)
      requires Valid()
      modifies this`ll, this`Records, this`place, this`cache, this`notified
      ensures Valid() && value == R.Found(old(Records), key, now)
      ensures Records == R.AfterGet(old(Records), key, now)
      ensures notified == old(notified) + Notice(R.Lapsed(old(Records), key, now))
    {
      AgreesFind(cache, ll, Records, place, key);
      if key !in cache { return None; }
      var e := cache[key];
      if e.record.Expired(now) {
        RemoveElement(e);
        return None;
      }
      MoveToFront(e);
      value := Some(e.record.value);
    }

    method Remove(key: K)
      requires Valid()
      modifies this
      ensures Valid() && Records == R.After(MaxEntries, old(Records), R.Remove(key))
      ensures stats == old(stats) && lookups == old(lookups)
      ensures notified == old(notified) + Notice(R.Find(old(Records), key))
    {
      AgreesFind(cache, ll, Records, place, key);
      if key in cache {
        RemoveElement(cache[key]);
      }
    }

    /** Peek reads without touching. */
    method Peek(key: K) returns (value: Option<V>)
      requires Valid()
      ensures match R.Find(Records, key) case None => value == None case Some(r) => value == Some(r.value)
    {
      AgreesFind(cache, ll, Records, place, key);
      value := if key in cache then Some(cache[key].record.value) else None;
    }

    /** Reads and resets the counters: hits and misses add up to the lookups since the last reading. */
    method ReadStats() returns (s: Stats)
      requires Valid()
      modifies this`stats, this`lookups
      ensures Valid() && s.hit + s.miss == old(lookups) && s.hit == old(stats.hit) && s.size == |cache|
      ensures stats == Stats(0, 0, 0) && lookups == 0
    {
      s := stats.(size := |cache|);
      stats, lookups := Stats(0, 0, 0), 0;
    }
  }
}
