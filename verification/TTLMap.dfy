/** The TTL map: a key table and an expiry heap whose records point at each other. */
module TTLMaps {
  import opened Options
  import opened TTLTables
  import opened PriorityQueues

  class MapElement {
    const key: string
    var value: Value
    const heapEl: PQItem<MapElement?>

    constructor (key: string, value: Value, heapEl: PQItem<MapElement?>)
      ensures this.key == key && this.value == value && this.heapEl == heapEl
    {
      this.key, this.value, this.heapEl := key, value, heapEl;
    }
  }

  class TTLMap {
    const capacity: nat
    var elements: map<string, MapElement>
    const expiryTimes: PriorityQueue<MapElement?>
    /** Whether OnExpire is set, and the calls made to it. */
    const notifies: bool
    var notified: seq<(string, Value)>

    /** The abstract value, and the objects it is held in. */
    ghost var Contents: Table
    ghost var Repr: set<object>

    constructor (capacity: int, notifies: bool)
      ensures Valid() && fresh(Repr) && Contents == map[] && notified == []
      ensures this.capacity == (if capacity <= 0 then 0 else capacity) && this.notifies == notifies
    {
      this.capacity := if capacity <= 0 then 0 else capacity;
      this.notifies := notifies;
      elements, notified := map[], [];
      var queue := new PriorityQueue<MapElement?>();
      expiryTimes := queue;
      Contents, Repr := map[], {this, queue};
    }

    /** A table element is filed under its own key, its heap item is in the heap and leads back to it. */
    ghost predicate Linked(k: string)
      requires k in elements && k in Contents
      reads this, expiryTimes, elements[k], elements[k].heapEl
    {
      var el := elements[k];
      && el.key == k && el in Repr
      && el.heapEl in expiryTimes.Items() && el.heapEl.Value == el
      && Contents[k] == Entry(el.value, el.heapEl.Priority)
    }

    /** A heap item's element is in the table under its own key. */
    ghost predicate Owned(item: PQItem<MapElement?>)
      reads this, item
    {
      && item in Repr && item.Value != null && item.Value.heapEl == item
      && item.Value.key in elements && elements[item.Value.key] == item.Value
    }

    /** The heap is a heap, and table and heap are in bijection. */
    ghost predicate Valid()
      reads this, Repr
    {
      && this in Repr && expiryTimes in Repr
      && expiryTimes.Items() <= Repr && expiryTimes.Valid()
      && elements.Keys == Contents.Keys
      && (forall k :: k in elements ==> elements[k] in Repr && elements[k].heapEl in Repr && Linked(k))
      && (forall item :: item in expiryTimes.Items() ==> Owned(item))
    }

    /** Every element's item sits at the index it records, and every slot leads back to its own element. */
    lemma HeapMirrorsTable()
      requires Valid()
      ensures forall k :: k in elements ==>
        var item := elements[k].heapEl; 0 <= item.index < |expiryTimes.impl| && expiryTimes.impl[item.index] == item
      ensures forall i :: 0 <= i < |expiryTimes.impl| ==>
        var el := expiryTimes.impl[i].Value; el != null && el.key in elements && elements[el.key] == el && el.heapEl.index == i
    {
      forall k | k in elements
        ensures var item := elements[k].heapEl; 0 <= item.index < |expiryTimes.impl| && expiryTimes.impl[item.index] == item
      {
        assert Linked(k);
        var i :| 0 <= i < |expiryTimes.impl| && expiryTimes.impl[i] == elements[k].heapEl;
      }
      forall i | 0 <= i < |expiryTimes.impl|
        ensures Owned(expiryTimes.impl[i]) && expiryTimes.impl[i].index == i
      {
        assert expiryTimes.impl[i] in expiryTimes.Items();
      }
    }

    /** While the table is not empty the heap has a root, which belongs to an entry of least expiry. */
    lemma RootIsEarliest() returns (k: string)
      requires Valid() && |elements| > 0
      ensures |expiryTimes.impl| > 0 && k in elements && elements[k].heapEl == expiryTimes.impl[0]
      ensures Contents[k].expiry == expiryTimes.impl[0].Priority
      ensures forall k' :: k' in Contents ==> Contents[k].expiry <= Contents[k'].expiry
    {
      var some :| some in elements;
      assert Linked(some);
      var root := expiryTimes.impl[0];
      assert root in expiryTimes.Items() && Owned(root);
      k := root.Value.key;
      assert Linked(k);
      forall k' | k' in Contents ensures root.Priority <= Contents[k'].expiry {
        assert Linked(k');
        var i :| 0 <= i < |expiryTimes.impl| && expiryTimes.impl[i] == elements[k'].heapEl;
        RootIsMinimum(expiryTimes.Priorities(), |expiryTimes.impl|, i);
      }
    }

    /** Taking one element out of both the table and the heap keeps them in bijection. */
    twostate lemma ElementGone(k: string)
      requires old(Valid()) && k in old(elements)
      requires elements == old(elements) - {k} && Contents == old(Contents) - {k} && Repr == old(Repr)
      requires expiryTimes.Valid() && expiryTimes.Items() == old(expiryTimes.Items() - {elements[k].heapEl})
      requires forall e: MapElement :: e in old(Repr) ==> unchanged(e)
      requires forall item: PQItem<MapElement?> :: item in old(Repr) ==> unchanged(item`Value, item`Priority)
      ensures Valid()
    {
      assert old(Linked(k));
      forall k' | k' in elements ensures elements[k'] in Repr && elements[k'].heapEl in Repr && Linked(k') {
        assert old(Linked(k'));
      }
      forall item | item in expiryTimes.Items() ensures Owned(item) {
        assert old(Owned(item)) && old(Linked(item.Value.key));
      }
    }

    method PopRoot(ghost k: string)
      requires Valid() && |expiryTimes.impl| > 0 && k in elements && elements[k].heapEl == expiryTimes.impl[0]
      modifies Repr
      ensures Valid() && Repr == old(Repr) && notified == old(notified)
      ensures Contents == old(Contents) - {k}
    {
      assert Linked(k);
      var heapEl := expiryTimes.Pop();
      elements := elements - {heapEl.Value.key};
      Contents := Contents - {k};
      ElementGone(k);
    }

    /** Pops the heap and deletes the popped element from the table. */
    method PopAndDelete() returns (ghost k: string)
      requires Valid() && |elements| > 0
      modifies Repr
      ensures Valid() && Repr == old(Repr) && notified == old(notified)
      ensures k in old(Contents) && Contents == old(Contents) - {k}
      ensures forall k' :: k' in old(Contents) ==> old(Contents)[k].expiry <= old(Contents)[k'].expiry
    {
      k := RootIsEarliest();
      PopRoot(k);
    }

    method RemoveExpired(iterations: int, now: int) returns (removed: nat)
      requires Valid()
      modifies Repr
      ensures Valid() && Repr == old(Repr) && notified == old(notified)
      ensures Purges(old(Contents), Contents, now, iterations, removed)
    {
      removed := 0;
      while removed < iterations
        invariant Valid() && Repr == old(Repr) && notified == old(notified)
        invariant Purges(old(Contents), Contents, now, removed, removed) && (removed > 0 ==> removed <= iterations)
      {
        if |elements| == 0 { break; }
        ghost var mid := Contents;
        ghost var root := RootIsEarliest();
        if expiryTimes.Peek().Priority > now {
          assert forall k' :: k' in Contents ==> !Expired(Contents, k', now);
          break;
        }
        ghost var k := PopAndDelete();
        PurgesOneMore(old(Contents), mid, now, removed, k);
        removed := removed + 1;
      }
    }

    method RemoveLastUsed(iterations: int)
      requires Valid()
      modifies Repr
      ensures Valid() && Repr == old(Repr) && notified == old(notified)
      ensures var n := old(|Contents|);
              Drops(old(Contents), Contents, if iterations < 0 then 0 else if iterations < n then iterations else n)
    {
      var i := 0;
      while i < iterations
        invariant Valid() && Repr == old(Repr) && notified == old(notified)
        invariant (i > 0 ==> i <= iterations) && Drops(old(Contents), Contents, i)
      {
        if |elements| == 0 { return; }
        ghost var mid := Contents;
        ghost var k := PopAndDelete();
        DropsOneMore(old(Contents), mid, i, k);
        i := i + 1;
      }
    }

    method FreeSpace(count: nat, now: int)
      requires Valid()
      modifies Repr
      ensures Valid() && Repr == old(Repr) && notified == old(notified)
      ensures var n := old(|Contents|); Drops(old(Contents), Contents, if count < n then count else n)
    {
      var removed := RemoveExpired(count, now);
      if removed >= count { return; }
      RemoveLastUsed(count - removed);
    }

    /** set: overwrites in place, or makes room and inserts. */
    method Store(key: string, value: Value, expiryTime: int, now: int)
      requires Valid()
      modifies Repr
      ensures Valid() && fresh(Repr - old(Repr)) && notified == old(notified)
      ensures Stores(capacity, old(Contents), key, Entry(value, expiryTime), Contents)
    {
      if key in elements {
        Overwrite(key, value, expiryTime);
      } else {
        MakeRoom(now);
        StoresByDropping(capacity, old(Contents), Contents, key, Entry(value, expiryTime));
        Insert(key, value, expiryTime);
      }
    }

    method MakeRoom(now: int)
      requires Valid()
      modifies Repr
      ensures Valid() && Repr == old(Repr) && notified == old(notified)
      ensures var m := old(Contents);
              if |m| < capacity then Contents == m else Drops(m, Contents, if 1 < |m| then 1 else |m|)
    {
      assert |elements| == |Contents| by { assert elements.Keys == Contents.Keys; }
      if |elements| >= capacity {
        FreeSpace(1, now);
      }
    }

    method Overwrite(key: string, value: Value, expiryTime: int)
      requires Valid() && key in elements
      modifies Repr
      ensures Valid() && Repr == old(Repr) && notified == old(notified)
      ensures Contents == old(Contents)[key := Entry(value, expiryTime)]
    {
      var mapEl := elements[key];
      assert Linked(key);
      mapEl.value := value;
      expiryTimes.Update(mapEl.heapEl, expiryTime);
      Contents := Contents[key := Entry(value, expiryTime)];
      ElementChanged(key);
    }

    /** Changing one element's value and priority in place keeps table and heap in bijection. */
    twostate lemma ElementChanged(k: string)
      requires old(Valid()) && k in old(elements)
      requires elements == old(elements) && Repr == old(Repr)
      requires Contents == old(Contents)[k := Entry(elements[k].value, elements[k].heapEl.Priority)]
      requires expiryTimes.Valid() && expiryTimes.Items() == old(expiryTimes.Items())
      requires forall e: MapElement :: e in old(Repr) && e != old(elements[k]) ==> unchanged(e)
      requires forall item: PQItem<MapElement?> :: item in old(Repr) ==> unchanged(item`Value)
      requires forall item: PQItem<MapElement?> :: item in old(Repr) && item != old(elements[k]).heapEl ==> unchanged(item`Priority)
      ensures Valid()
    {
      assert old(Linked(k));
      assert Contents.Keys == old(Contents).Keys;
      forall k' | k' in elements ensures elements[k'] in Repr && elements[k'].heapEl in Repr && Linked(k') {
        assert old(Linked(k'));
      }
      forall item | item in expiryTimes.Items() ensures Owned(item) {
        assert old(Owned(item));
      }
    }

    method NewElement(key: string, value: Value, expiryTime: int) returns (mapEl: MapElement)
      ensures fresh(mapEl) && mapEl.key == key && mapEl.value == value
      ensures fresh(mapEl.heapEl) && mapEl.heapEl.Value == mapEl && mapEl.heapEl.Priority == expiryTime
    {
      var heapEl := new PQItem<MapElement?>(null, expiryTime);
      mapEl := new MapElement(key, value, heapEl);
      heapEl.Value := mapEl;
    }

    method Insert(key: string, value: Value, expiryTime: int)
      requires Valid() && key !in elements
      modifies Repr
      ensures Valid() && fresh(Repr - old(Repr)) && notified == old(notified)
      ensures Contents == old(Contents)[key := Entry(value, expiryTime)]
    {
      var mapEl := NewElement(key, value, expiryTime);
      elements := elements[key := mapEl];
      expiryTimes.Push(mapEl.heapEl);
      Contents, Repr := Contents[key := Entry(value, expiryTime)], Repr + {mapEl.heapEl, mapEl};
      ElementAdded(key, mapEl);
    }

    twostate lemma ElementAdded(k: string, new el: MapElement)
      requires old(Valid()) && k !in old(elements) && el.key == k && fresh(el) && fresh(el.heapEl)
      requires elements == old(elements)[k := el] && Repr == old(Repr) + {el, el.heapEl} && el.heapEl.Value == el
      requires Contents == old(Contents)[k := Entry(el.value, el.heapEl.Priority)]
      requires expiryTimes.Valid() && expiryTimes.Items() == old(expiryTimes.Items()) + {el.heapEl}
      requires forall e: MapElement :: e in old(Repr) ==> unchanged(e)
      requires forall item: PQItem<MapElement?> :: item in old(Repr) ==> unchanged(item`Value, item`Priority)
      ensures Valid()
    {
      forall k' | k' in elements ensures elements[k'] in Repr && elements[k'].heapEl in Repr && Linked(k') {
        assert k' != k ==> old(Linked(k'));
      }
      forall item | item in expiryTimes.Items() ensures Owned(item) {
        assert item != el.heapEl ==> old(Owned(item)) && old(Linked(item.Value.key));
      }
    }

    method Set(key: string, value: Value, ttl: int, now: int, later: int) returns (r: Outcome<()>)
      requires Valid()
      modifies Repr
      ensures Valid() && fresh(Repr - old(Repr)) && notified == old(notified)
      ensures ttl <= 0 ==> r == Err(BadTTL) && Contents == old(Contents)
      ensures ttl > 0 ==> r.Ok? && Stores(capacity, old(Contents), key, Entry(value, ExpirySecond(now, ttl)), Contents)
    {
      if ttl <= 0 { return Err(BadTTL); }
      Store(key, value, ExpirySecond(now, ttl), Unix(later));
      r := Ok(());
    }

    /** lockNGet: the element under `key`, if any, its value, and whether it has expired. */
    method LockNGet(key: string, now: int) returns (mapEl: MapElement?, value: Option<Value>, expired: bool)
      requires Valid()
      ensures mapEl == null <==> key !in Contents
      ensures mapEl != null ==> mapEl.key == key && value == Some(Contents[key].value)
      ensures expired <==> key in Contents && Contents[key].expiry <= Unix(now)
    {
      if key !in elements { return null, None, false; }
      assert Linked(key);
      mapEl := elements[key];
      value, expired := Some(mapEl.value), mapEl.heapEl.Priority <= Unix(now);
    }

    /** The calls made to OnExpire when `key` leaves the map. */
    ghost function Notice(m: Table, m': Table, key: string): seq<(string, Value)> {
      if notifies && key in m && key !in m' then [(key, m[key].value)] else []
    }

    /** lockNDel: deletes the element now filed under `key` if it has expired by now, and reports it to OnExpire. */
    method LockNDel(key: string, now: int)
      requires Valid()
      modifies Repr
      ensures Valid() && Repr == old(Repr)
      ensures Contents == AfterGet(old(Contents), key, Unix(now), Unix(now))
      ensures notified == old(notified) + Notice(old(Contents), Contents, key)
    {
      if key !in elements { return; }
      assert Linked(key);
      var mapEl := elements[key];
      if mapEl.heapEl.Priority > Unix(now) { return; }
      if notifies {
        notified := notified + [(mapEl.key, mapEl.value)];
      }
      DeleteElement(mapEl);
    }

    method DeleteElement(mapEl: MapElement)
      requires Valid() && mapEl.key in elements && elements[mapEl.key] == mapEl
      modifies Repr
      ensures Valid() && Repr == old(Repr) && notified == old(notified)
      ensures Contents == old(Contents) - {mapEl.key}
    {
      assert Linked(mapEl.key);
      elements := elements - {mapEl.key};
      expiryTimes.Remove(mapEl.heapEl);
      Contents := Contents - {mapEl.key};
      ElementGone(mapEl.key);
    }

    /** Get reads under the read lock, and deletes what it found expired under the write lock. */
    method Get(key: string, now: int, later: int) returns (value: Option<Value>)
      requires Valid()
      modifies Repr
      ensures Valid() && Repr == old(Repr)
      ensures value == Lookup(old(Contents), key, Unix(now))
      ensures Contents == AfterGet(old(Contents), key, Unix(now), Unix(later))
      ensures notified == old(notified) + Notice(old(Contents), Contents, key)
    {
      var mapEl, found, expired := LockNGet(key, now);
      if mapEl == null { return None; }
      if expired {
        LockNDel(key, later);
        return None;
      }
      value := found;
    }

    /** GetInt: Get, but a value of another type is an error. */
    method GetInt(key: string, now: int, later: int) returns (r: Outcome<Option<int>>)
      requires Valid()
      modifies Repr
      ensures Valid() && Repr == old(Repr)
      ensures match Lookup(old(Contents), key, Unix(now))
              case None => r == Ok(None)
              case Some(IntValue(n)) => r == Ok(Some(n))
              case Some(OtherValue(_)) => r == Err(NotInteger)
      ensures Contents == AfterGet(old(Contents), key, Unix(now), Unix(later))
      ensures notified == old(notified) + Notice(old(Contents), Contents, key)
    {
      var value := Get(key, now, later);
      match value
      case None => r := Ok(None);
      case Some(IntValue(n)) => r := Ok(Some(n));
      case Some(OtherValue(_)) => r := Err(NotInteger);
    }

    /** Increment adds to a live integer, starts afresh on a missing or expired key, and always renews the expiry. */
    method Increment(key: string, value: int, ttl: int, now: int, later: int, last: int) returns (r: Outcome<int>)
      requires Valid()
      modifies Repr
      ensures Valid() && fresh(Repr - old(Repr)) && notified == old(notified)
      ensures r == (if ttl <= 0 then Err(BadTTL) else
                      match Lookup(old(Contents), key, Unix(later))
                      case None => Ok(value)
                      case Some(IntValue(n)) => Ok(Wrap64(n + value))
                      case Some(OtherValue(_)) => Err(NotInteger))
      ensures if r.Ok?
              then Stores(capacity, old(Contents), key, Entry(IntValue(r.value), ExpirySecond(now, ttl)), Contents)
              else Contents == old(Contents)
    {
      if ttl <= 0 { return Err(BadTTL); }
      var expiryTime := ExpirySecond(now, ttl);
      var mapEl, found, expired := LockNGet(key, later);
      var sum := value;
      if mapEl != null && !expired {
        if !found.value.IntValue? { return Err(NotInteger); }
        sum := Wrap64(found.value.n + value);
      }
      Store(key, IntValue(sum), expiryTime, Unix(last));
      r := Ok(sum);
    }
  }
}
