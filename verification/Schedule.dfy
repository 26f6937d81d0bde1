/** A frozen clock as a discrete-event schedule: what each lock-protected step of the clock does. */
module Schedules {

  /** A pending timer; `born` numbers insertions into the schedule. */
  datatype Entry<T> = Entry(id: T, when: int, interval: nat, fn: bool, born: nat)

  datatype Fired<T> = Fired(id: T, when: int, born: nat)

  /** `unread` holds the value in a timer's one-slot channel, when there is one. */
  datatype Clock<T> = Clock(now: int, list: seq<Entry<T>>, next: nat, unread: map<T, int>, stopped: set<T>, log: seq<Fired<T>>)

  datatype Step<T> =
    | Elapse(d: int)
    | Fire
    | Start(id: T, d: int, interval: nat, fn: bool)
    | Stop(id: T)
    | Reset(id: T, d: int, fn: bool)
    | Read(id: T)

  /** unlockedStartTimer: in front of the first timer that is strictly later. */
  function Insert<T>(list: seq<Entry<T>>, e: Entry<T>): (r: seq<Entry<T>>)
    ensures |r| == |list| + 1
  {
    if list == [] || e.when < list[0].when then [e] + list else [list[0]] + Insert(list[1..], e)
  }

  predicate Pending<T(==)>(list: seq<Entry<T>>, id: T) {
    list != [] && (list[0].id == id || Pending(list[1..], id))
  }

  /** The first occurrence is taken out. */
  function Unschedule<T(==)>(list: seq<Entry<T>>, id: T): (r: seq<Entry<T>>)
    ensures |r| <= |list|
  {
    if list == [] then [] else if list[0].id == id then list[1..] else [list[0]] + Unschedule(list[1..], id)
  }

  /** Writing a timer's time changes every place in the list that refers to it. */
  function Rewrite<T(==)>(list: seq<Entry<T>>, id: T, when: int): (r: seq<Entry<T>>)
    ensures |r| == |list|
  {
    seq(|list|, i requires 0 <= i < |list| => if list[i].id == id then list[i].(when := when) else list[i])
  }

  predicate Due<T>(c: Clock<T>) {
    c.list != [] && c.list[0].when <= c.now
  }

  /** nextExpired and the send: the head is taken off, marked stopped, and its channel offered the time. */
  function Taken<T(==)>(c: Clock<T>): Clock<T>
    requires Due(c)
  {
    var e := c.list[0];
    c.(list := c.list[1..], stopped := c.stopped + {e.id},
       unread := if e.fn || e.id in c.unread then c.unread else c.unread[e.id := e.when],
       log := c.log + [Fired(e.id, e.when, e.born)])
  }

  /** One turn of the loop in advance: the head is taken, and a ticker re-armed and unmarked. */
  function AfterFire<T(==)>(c: Clock<T>): Clock<T>
    requires Due(c)
  {
    var e, c1 := c.list[0], Taken(c);
    if e.interval == 0 then c1
    else c1.(list := Insert(c1.list, e.(when := e.when + e.interval, born := c.next)), next := c.next + 1, stopped := c1.stopped - {e.id})
  }

  function AfterStart<T>(c: Clock<T>, id: T, d: int, interval: nat, fn: bool): Clock<T> {
    c.(list := Insert(c.list, Entry(id, c.now + d, interval, fn, c.next)), next := c.next + 1)
  }

  /** stopTimer: a timer marked stopped is left alone, even if it is pending. */
  function AfterStop<T(==)>(c: Clock<T>, id: T): Clock<T> {
    if id !in c.stopped && Pending(c.list, id) then c.(list := Unschedule(c.list, id), stopped := c.stopped + {id}) else c
  }

  /** Reset: stop, rewrite the time, start again; the stopped mark stays. */
  function AfterReset<T(==)>(c: Clock<T>, id: T, d: int, fn: bool): Clock<T> {
    var c1 := AfterStop(c, id);
    AfterStart(c1.(list := Rewrite(c1.list, id, c.now + d)), id, d, 0, fn)
  }

  function Next<T(==)>(c: Clock<T>, s: Step<T>): Clock<T> {
    match s
    case Elapse(d) => c.(now := c.now + d)
    case Fire => if Due(c) then AfterFire(c) else c
    case Start(id, d, interval, fn) => AfterStart(c, id, d, interval, fn)
    case Stop(id) => AfterStop(c, id)
    case Reset(id, d, fn) => AfterReset(c, id, d, fn)
    case Read(id) => c.(unread := c.unread - {id})
  }

  function Steps<T(==)>(c: Clock<T>, steps: seq<Step<T>>): Clock<T>
    decreases |steps|
  {
    if steps == [] then c else Steps(Next(c, steps[0]), steps[1..])
  }

  // ---------- how many beats are due ----------

  /** A one-shot timer has one beat, a ticker as many as fit up to now. */
  function EntryBeats<T>(e: Entry<T>, now: int): nat
    decreases now - e.when
  {
    if e.when > now then 0 else if e.interval == 0 then 1 else 1 + EntryBeats(e.(when := e.when + e.interval), now)
  }

  lemma {:induction false} BeatsIgnoreBirth<T>(e: Entry<T>, born: nat, now: int)
    ensures EntryBeats(e.(born := born), now) == EntryBeats(e, now)
    decreases now - e.when
  {
    if e.when <= now && e.interval > 0 { BeatsIgnoreBirth(e.(when := e.when + e.interval), born, now); }
  }

  function Beats<T>(list: seq<Entry<T>>, now: int): nat {
    if list == [] then 0 else EntryBeats(list[0], now) + Beats(list[1..], now)
  }

  lemma {:induction false} BeatsOfInsert<T>(list: seq<Entry<T>>, e: Entry<T>, now: int)
    ensures Beats(Insert(list, e), now) == Beats(list, now) + EntryBeats(e, now)
  {
    if list == [] || e.when < list[0].when {
      assert ([e] + list)[1..] == list;
    } else {
      BeatsOfInsert(list[1..], e, now);
      assert ([list[0]] + Insert(list[1..], e))[1..] == Insert(list[1..], e);
    }
  }

  lemma {:induction false} BeatsOfUnschedule<T>(list: seq<Entry<T>>, id: T, now: int)
    ensures Beats(Unschedule(list, id), now) <= Beats(list, now)
  {
    if list != [] && list[0].id != id {
      BeatsOfUnschedule(list[1..], id, now);
      assert ([list[0]] + Unschedule(list[1..], id))[1..] == Unschedule(list[1..], id);
    }
  }

  /** Every firing uses up exactly one beat. */
  lemma FireUsesOneBeat<T>(c: Clock<T>)
    requires Due(c)
    ensures Beats(AfterFire(c).list, c.now) == Beats(c.list, c.now) - 1
  {
    var e := c.list[0];
    if e.interval > 0 {
      var again := e.(when := e.when + e.interval);
      BeatsOfInsert(c.list[1..], again.(born := c.next), c.now);
      BeatsIgnoreBirth(again, c.next, c.now);
    }
  }

  /** The loop in advance: fire until the head lies in the future. */
  function FireAll<T(==)>(c: Clock<T>): (r: Clock<T>)
    ensures !Due(r) && r.now == c.now
    decreases Beats(c.list, c.now)
  {
    if Due(c) then FireUsesOneBeat(c); FireAll(AfterFire(c)) else c
  }

  function Advance<T(==)>(c: Clock<T>, d: int): Clock<T> {
    FireAll(c.(now := c.now + d))
  }

  // ---------- order ----------

  /** Earlier, or at the same time but inserted earlier. */
  predicate Before(when: int, born: nat, when': int, born': nat) {
    when < when' || (when == when' && born < born')
  }

  ghost predicate AllAfter<T>(list: seq<Entry<T>>, when: int, born: nat) {
    forall e :: e in list ==> Before(when, born, e.when, e.born)
  }

  ghost predicate Sorted<T>(list: seq<Entry<T>>) {
    list == [] || (AllAfter(list[1..], list[0].when, list[0].born) && Sorted(list[1..]))
  }

  /**
  One timer is in the list twice only after a Reset while it was pending from another. Then its mark is set, and since
  its entries stand for one object they have one time. A ticker is never marked while it is pending.
  */
  ghost predicate Shared<T>(list: seq<Entry<T>>, stopped: set<T>) {
    && (forall x, y :: x in list && y in list && x.id == y.id && x != y ==> x.when == y.when && x.id in stopped)
    && (forall x :: x in list && x.id in stopped ==> x.interval == 0)
  }

  ghost predicate Increasing<T>(log: seq<Fired<T>>) {
    forall i, j :: 0 <= i < j < |log| ==> Before(log[i].when, log[i].born, log[j].when, log[j].born)
  }

  /** What has fired and what is pending make up one sequence in order of time, and of insertion among equal times. */
  ghost predicate InOrder<T>(c: Clock<T>) {
    && Sorted(c.list) && Increasing(c.log)
    && (c.log != [] ==> AllAfter(c.list, c.log[|c.log| - 1].when, c.log[|c.log| - 1].born))
  }

  /** Insertions are numbered, and nothing has fired that lies in the future. */
  ghost predicate Numbered<T>(c: Clock<T>) {
    && (forall e :: e in c.list ==> e.born < c.next)
    && (c.log != [] ==> c.log[|c.log| - 1].when <= c.now && c.log[|c.log| - 1].born < c.next)
  }

  /** What every run in order keeps. */
  ghost predicate Inv<T>(c: Clock<T>) {
    InOrder(c) && Numbered(c) && Shared(c.list, c.stopped)
  }

  lemma IncreasingAppend<T>(log: seq<Fired<T>>, f: Fired<T>)
    requires Increasing(log) && (log != [] ==> Before(log[|log| - 1].when, log[|log| - 1].born, f.when, f.born))
    ensures Increasing(log + [f])
  {
    forall i | 0 <= i < |log| ensures Before(log[i].when, log[i].born, f.when, f.born) {
      assert i < |log| - 1 ==> Before(log[i].when, log[i].born, log[|log| - 1].when, log[|log| - 1].born);
    }
  }

  lemma {:induction false} InsertMembers<T>(list: seq<Entry<T>>, e: Entry<T>)
    ensures forall x :: x in Insert(list, e) ==> x == e || x in list
    ensures e in Insert(list, e) && forall x :: x in list ==> x in Insert(list, e)
  {
    if !(list == [] || e.when < list[0].when) { InsertMembers(list[1..], e); }
  }

  lemma {:induction false} InsertSorted<T>(list: seq<Entry<T>>, e: Entry<T>)
    requires Sorted(list) && forall x :: x in list ==> x.born < e.born
    ensures Sorted(Insert(list, e))
  {
    if list == [] || e.when < list[0].when {
      assert ([e] + list)[1..] == list;
    } else {
      InsertSorted(list[1..], e);
      InsertMembers(list[1..], e);
      assert Insert(list, e)[1..] == Insert(list[1..], e);
    }
  }

  lemma {:induction false} InsertPending<T>(list: seq<Entry<T>>, e: Entry<T>, id: T)
    ensures Pending(Insert(list, e), id) <==> id == e.id || Pending(list, id)
  {
    if list == [] || e.when < list[0].when {
      assert ([e] + list)[1..] == list;
    } else {
      InsertPending(list[1..], e, id);
      assert Insert(list, e)[1..] == Insert(list[1..], e);
    }
  }

  lemma {:induction false} PendingMeans<T>(list: seq<Entry<T>>, id: T)
    ensures Pending(list, id) <==> exists e :: e in list && e.id == id
  {
    if list != [] {
      PendingMeans(list[1..], id);
      assert forall e :: e in list ==> e == list[0] || e in list[1..];
      assert list[0] in list;
    }
  }

  /** Taking out one entry leaves the rest in order. */
  lemma {:induction false} UnscheduleKeeps<T>(list: seq<Entry<T>>, id: T)
    requires Sorted(list)
    ensures Sorted(Unschedule(list, id))
    ensures forall x :: x in Unschedule(list, id) ==> x in list
    ensures forall other :: other != id ==> Pending(Unschedule(list, id), other) == Pending(list, other)
  {
    if list != [] && list[0].id != id {
      UnscheduleKeeps(list[1..], id);
      assert Unschedule(list, id)[1..] == Unschedule(list[1..], id);
    }
  }

  /** Taking out the one entry of a timer leaves none. */
  lemma {:induction false} UnscheduleOnly<T>(list: seq<Entry<T>>, id: T)
    requires Sorted(list) && forall x, y :: x in list && y in list && x.id == id && y.id == id ==> x == y
    ensures !Pending(Unschedule(list, id), id)
  {
    if list != [] {
      if list[0].id != id {
        UnscheduleOnly(list[1..], id);
        assert Unschedule(list, id)[1..] == Unschedule(list[1..], id);
      } else {
        PendingMeans(list[1..], id);
        assert list[0] in list;
      }
    }
  }

  lemma {:induction false} RewriteAbsent<T>(list: seq<Entry<T>>, id: T, when: int)
    requires !Pending(list, id)
    ensures Rewrite(list, id, when) == list
  {
    if list != [] {
      RewriteAbsent(list[1..], id, when);
      assert Rewrite(list, id, when) == [list[0]] + Rewrite(list[1..], id, when);
    }
  }

  /** The entry's time once the timer `id` is set to `when`. */
  function TimeOf<T(==)>(e: Entry<T>, id: T, when: int): int {
    if e.id == id then when else e.when
  }

  /** Set to `when` where it stands, the timer stays on its side of every other entry. */
  ghost predicate Fits<T>(list: seq<Entry<T>>, id: T, when: int) {
    forall i, j :: 0 <= i < j < |list| && (list[i].id == id) != (list[j].id == id) ==>
      Before(TimeOf(list[i], id, when), list[i].born, TimeOf(list[j], id, when), list[j].born)
  }

  /** Set to `when` where it stands, the timer stays behind what has fired. */
  ghost predicate Behind<T>(log: seq<Fired<T>>, list: seq<Entry<T>>, id: T, when: int) {
    log != [] ==> forall e :: e in list && e.id == id ==> Before(log[|log| - 1].when, log[|log| - 1].born, when, e.born)
  }

  /** Reset moves what Stop has left of the timer on the schedule; this says that nothing is out of place then. */
  ghost predicate KeepsPlace<T>(c: Clock<T>, id: T, d: int) {
    var list := AfterStop(c, id).list;
    Fits(list, id, c.now + d) && Behind(c.log, list, id, c.now + d)
  }

  /** Non-negative durations, and new timers to start. */
  ghost predicate Usable<T>(c: Clock<T>, s: Step<T>) {
    match s
    case Elapse(d) => d >= 0
    case Start(id, d, _, _) => d >= 0 && !Pending(c.list, id) && id !in c.stopped
    case Reset(id, d, _) => d >= 0
    case _ => true
  }

  /** Usable, and a Reset of a timer still pending from an earlier Reset keeps it in its place. */
  ghost predicate Allowed<T>(c: Clock<T>, s: Step<T>) {
    Usable(c, s) && (s.Reset? ==> KeepsPlace(c, s.id, s.d))
  }

  /** The new entry is alone, or stands with the others of its marked timer. */
  ghost predicate Joins<T>(c: Clock<T>, e: Entry<T>) {
    && (forall x :: x in c.list && x.id == e.id ==> x.when == e.when && x.id in c.stopped)
    && (e.id in c.stopped ==> e.interval == 0)
  }

  lemma InsertKeepsShared<T>(c: Clock<T>, e: Entry<T>)
    requires Shared(c.list, c.stopped) && Joins(c, e)
    ensures Shared(Insert(c.list, e), c.stopped)
  {
    InsertMembers(c.list, e);
  }

  /** A newly inserted entry goes behind all others of its time, and behind what has fired. */
  lemma InsertKeepsInv<T>(c: Clock<T>, e: Entry<T>)
    requires Inv(c) && e.born == c.next && Joins(c, e)
    requires c.log != [] ==> c.log[|c.log| - 1].when <= e.when
    ensures Inv(c.(list := Insert(c.list, e), next := c.next + 1))
  {
    InsertMembers(c.list, e);
    InsertSorted(c.list, e);
    InsertKeepsShared(c, e);
  }

  lemma StartKeepsInv<T>(c: Clock<T>, id: T, d: int, interval: nat, fn: bool)
    requires Inv(c) && d >= 0 && !Pending(c.list, id) && (id in c.stopped ==> interval == 0)
    ensures Inv(AfterStart(c, id, d, interval, fn))
  {
    PendingMeans(c.list, id);
    InsertKeepsInv(c, Entry(id, c.now + d, interval, fn, c.next));
  }

  lemma TakeKeepsShared<T>(list: seq<Entry<T>>, stopped: set<T>)
    requires list != [] && Sorted(list) && Shared(list, stopped)
    ensures Shared(list[1..], stopped + {list[0].id})
    ensures list[0].interval > 0 ==> !Pending(list[1..], list[0].id)
  {
    var e := list[0];
    assert e in list;
    forall x | x in list[1..] && x.id == e.id ensures x.interval == 0 && e.interval == 0 {
      assert Before(e.when, e.born, x.when, x.born);
    }
    PendingMeans(list[1..], e.id);
  }

  lemma TakeKeepsInv<T>(c: Clock<T>)
    requires Inv(c) && Due(c)
    ensures Inv(Taken(c)) && (c.list[0].interval > 0 ==> !Pending(Taken(c).list, c.list[0].id))
  {
    var e := c.list[0];
    assert e in c.list;
    TakeKeepsShared(c.list, c.stopped);
    IncreasingAppend(c.log, Fired(e.id, e.when, e.born));
  }

  lemma FireKeepsInv<T>(c: Clock<T>)
    requires Inv(c) && Due(c)
    ensures Inv(AfterFire(c))
  {
    TakeKeepsInv(c);
    var e, c1 := c.list[0], Taken(c);
    if e.interval > 0 {
      PendingMeans(c1.list, e.id);
      InsertKeepsInv(c1.(stopped := c1.stopped - {e.id}), e.(when := e.when + e.interval, born := c.next));
    }
  }

  lemma StopLeaves<T>(c: Clock<T>, id: T)
    requires Sorted(c.list) && Shared(c.list, c.stopped)
    ensures Pending(AfterStop(c, id).list, id) <==> Pending(c.list, id) && id in c.stopped
    ensures Sorted(AfterStop(c, id).list) && Shared(AfterStop(c, id).list, AfterStop(c, id).stopped)
    ensures forall x :: x in AfterStop(c, id).list ==> x in c.list
  {
    if id !in c.stopped && Pending(c.list, id) {
      UnscheduleKeeps(c.list, id);
      UnscheduleOnly(c.list, id);
      PendingMeans(AfterStop(c, id).list, id);
    }
  }

  lemma StopKeepsInv<T>(c: Clock<T>, id: T)
    requires Inv(c)
    ensures Inv(AfterStop(c, id))
    ensures Pending(AfterStop(c, id).list, id) <==> Pending(c.list, id) && id in c.stopped
  {
    StopLeaves(c, id);
  }

  /** Away from the stale mark, Reset is Stop followed by Start. */
  lemma ResetIsStopStart<T>(c: Clock<T>, id: T, d: int, fn: bool)
    requires Sorted(c.list) && Shared(c.list, c.stopped) && !(Pending(c.list, id) && id in c.stopped)
    ensures AfterReset(c, id, d, fn) == AfterStart(AfterStop(c, id), id, d, 0, fn)
    ensures !Pending(AfterStop(c, id).list, id)
  {
    StopLeaves(c, id);
    var c1 := AfterStop(c, id);
    RewriteAbsent(c1.list, id, c.now + d);
    assert c1.(list := Rewrite(c1.list, id, c.now + d)) == c1;
  }

  /** Away from the stale mark, nothing is left to be out of place. */
  lemma UnmarkedKeepsPlace<T>(c: Clock<T>, id: T, d: int)
    requires Sorted(c.list) && Shared(c.list, c.stopped) && !(Pending(c.list, id) && id in c.stopped)
    ensures KeepsPlace(c, id, d)
  {
    StopLeaves(c, id);
    PendingMeans(AfterStop(c, id).list, id);
  }

  // ---------- when a Reset keeps the order ----------

  lemma {:induction false} SortedByIndex<T>(list: seq<Entry<T>>)
    ensures Sorted(list) <==> forall i, j :: 0 <= i < j < |list| ==> Before(list[i].when, list[i].born, list[j].when, list[j].born)
  {
    if list != [] {
      var rest := list[1..];
      SortedByIndex(rest);
      assert forall j :: 0 < j < |list| ==> list[j] == rest[j - 1];
      if Sorted(list) {
        forall i, j | 0 <= i < j < |list| ensures Before(list[i].when, list[i].born, list[j].when, list[j].born) {
          assert rest[j - 1] in rest;
          if i > 0 { assert list[i] == rest[i - 1]; }
        }
      }
    }
  }

  lemma {:induction false} InsertSortedBack<T>(list: seq<Entry<T>>, e: Entry<T>)
    requires Sorted(Insert(list, e))
    ensures Sorted(list)
  {
    if list == [] || e.when < list[0].when {
      assert ([e] + list)[1..] == list;
    } else {
      assert Insert(list, e)[1..] == Insert(list[1..], e);
      InsertSortedBack(list[1..], e);
      InsertMembers(list[1..], e);
    }
  }

  /** Setting a timer's time where it stands keeps the list sorted exactly if the timer fits. */
  lemma RewriteSortedExactly<T>(list: seq<Entry<T>>, stopped: set<T>, id: T, when: int)
    requires Sorted(list) && Shared(list, stopped)
    ensures Sorted(Rewrite(list, id, when)) <==> Fits(list, id, when)
  {
    var moved := Rewrite(list, id, when);
    SortedByIndex(list);
    SortedByIndex(moved);
    forall i, j | 0 <= i < j < |list| && (list[i].id == id) == (list[j].id == id)
      ensures Before(moved[i].when, moved[i].born, moved[j].when, moved[j].born)
    {
      assert list[i] in list && list[j] in list;
      assert Before(list[i].when, list[i].born, list[j].when, list[j].born);
    }
    if Fits(list, id, when) {
      forall i, j | 0 <= i < j < |list| ensures Before(moved[i].when, moved[i].born, moved[j].when, moved[j].born) {}
    }
    if Sorted(moved) {
      forall i, j | 0 <= i < j < |list| && (list[i].id == id) != (list[j].id == id)
        ensures Before(TimeOf(list[i], id, when), list[i].born, TimeOf(list[j], id, when), list[j].born)
      {
        assert Before(moved[i].when, moved[i].born, moved[j].when, moved[j].born);
      }
    }
  }

  /** Where an entry of the rewritten list comes from. */
  lemma RewriteOf<T>(list: seq<Entry<T>>, id: T, when: int, x: Entry<T>) returns (e: Entry<T>)
    requires x in Rewrite(list, id, when)
    ensures e in list && x == e.(when := TimeOf(e, id, when))
  {
    var i :| 0 <= i < |list| && Rewrite(list, id, when)[i] == x;
    e := list[i];
  }

  lemma RewriteHas<T>(list: seq<Entry<T>>, id: T, when: int, e: Entry<T>)
    requires e in list
    ensures e.(when := TimeOf(e, id, when)) in Rewrite(list, id, when)
  {
    var i :| 0 <= i < |list| && list[i] == e;
    assert Rewrite(list, id, when)[i] == e.(when := TimeOf(e, id, when));
  }

  lemma RewriteBirths<T>(list: seq<Entry<T>>, id: T, when: int, next: nat)
    requires forall e :: e in list ==> e.born < next
    ensures forall x :: x in Rewrite(list, id, when) ==> x.born < next
  {
    forall x | x in Rewrite(list, id, when) ensures x.born < next {
      var e := RewriteOf(list, id, when, x);
    }
  }

  lemma RewriteShared<T>(list: seq<Entry<T>>, stopped: set<T>, id: T, when: int)
    requires Shared(list, stopped)
    ensures Shared(Rewrite(list, id, when), stopped)
    ensures forall x :: x in Rewrite(list, id, when) && x.id == id ==> x.when == when
  {
    var moved := Rewrite(list, id, when);
    forall x | x in moved ensures x.id == id ==> x.when == when {
      var e := RewriteOf(list, id, when, x);
    }
    forall x | x in moved && x.id in stopped ensures x.interval == 0 {
      var e := RewriteOf(list, id, when, x);
    }
    forall x, y | x in moved && y in moved && x.id == y.id && x != y ensures x.when == y.when && x.id in stopped {
      var e := RewriteOf(list, id, when, x);
      var f := RewriteOf(list, id, when, y);
    }
  }

  lemma RewriteBehindExactly<T>(log: seq<Fired<T>>, list: seq<Entry<T>>, id: T, when: int)
    requires log != [] && AllAfter(list, log[|log| - 1].when, log[|log| - 1].born)
    ensures AllAfter(Rewrite(list, id, when), log[|log| - 1].when, log[|log| - 1].born) <==> Behind(log, list, id, when)
  {
    var w, b, moved := log[|log| - 1].when, log[|log| - 1].born, Rewrite(list, id, when);
    if AllAfter(moved, w, b) {
      forall e | e in list && e.id == id ensures Before(w, b, when, e.born) { RewriteHas(list, id, when, e); }
    }
    if Behind(log, list, id, when) {
      forall x | x in moved ensures Before(w, b, x.when, x.born) { var e := RewriteOf(list, id, when, x); }
    }
  }

  lemma {:induction false} RewritePending<T>(list: seq<Entry<T>>, id: T, when: int, other: T)
    ensures Pending(Rewrite(list, id, when), other) <==> Pending(list, other)
  {
    if list != [] {
      assert Rewrite(list, id, when)[1..] == Rewrite(list[1..], id, when);
      RewritePending(list[1..], id, when, other);
    }
  }

  /** Inserting behind all earlier insertions keeps a list sorted, and cannot mend one that is not. */
  lemma InsertSortedExactly<T>(list: seq<Entry<T>>, e: Entry<T>)
    requires forall x :: x in list ==> x.born < e.born
    ensures Sorted(Insert(list, e)) <==> Sorted(list)
  {
    if Sorted(list) { InsertSorted(list, e); }
    if Sorted(Insert(list, e)) { InsertSortedBack(list, e); }
  }

  lemma MovedSortedExactly<T>(list: seq<Entry<T>>, stopped: set<T>, id: T, when: int, e: Entry<T>)
    requires Sorted(list) && Shared(list, stopped) && forall x :: x in list ==> x.born < e.born
    ensures Sorted(Insert(Rewrite(list, id, when), e)) <==> Fits(list, id, when)
  {
    RewriteSortedExactly(list, stopped, id, when);
    RewriteBirths(list, id, when, e.born);
    InsertSortedExactly(Rewrite(list, id, when), e);
  }

  ghost function Relisted<T>(c: Clock<T>, id: T, when: int, fn: bool): Clock<T> {
    c.(list := Insert(Rewrite(c.list, id, when), Entry(id, when, 0, fn, c.next)), next := c.next + 1)
  }

  /** What Reset makes of the clock that Stop leaves behind. */
  lemma ResetMoves<T>(c: Clock<T>, id: T, d: int, fn: bool)
    ensures AfterReset(c, id, d, fn) == Relisted(AfterStop(c, id), id, c.now + d, fn)
    ensures var c1 := AfterStop(c, id); c1.now == c.now && c1.next == c.next && c1.log == c.log
  {}

  /**
  Exactly when a Reset leaves the schedule sorted: what Stop has left of the timer, which is something only after an
  earlier Reset, still lies between its neighbours at the new time.
  */
  lemma ResetKeepsOrderExactly<T>(c: Clock<T>, id: T, d: int, fn: bool)
    requires Inv(c)
    ensures Sorted(AfterReset(c, id, d, fn).list) <==> Fits(AfterStop(c, id).list, id, c.now + d)
  {
    StopLeaves(c, id);
    ResetMoves(c, id, d, fn);
    var c1, when := AfterStop(c, id), c.now + d;
    MovedSortedExactly(c1.list, c1.stopped, id, when, Entry(id, when, 0, fn, c1.next));
  }

  lemma RewriteKeepsInv<T>(c: Clock<T>, id: T, when: int)
    requires Inv(c) && Fits(c.list, id, when) && Behind(c.log, c.list, id, when)
    ensures Inv(c.(list := Rewrite(c.list, id, when)))
  {
    RewriteSortedExactly(c.list, c.stopped, id, when);
    RewriteBirths(c.list, id, when, c.next);
    RewriteShared(c.list, c.stopped, id, when);
    if c.log != [] { RewriteBehindExactly(c.log, c.list, id, when); }
  }

  /** Once moved, the entries of a timer that is marked or not there stand ready for another. */
  lemma RewriteJoins<T>(c: Clock<T>, id: T, when: int, fn: bool)
    requires Shared(c.list, c.stopped) && (Pending(c.list, id) ==> id in c.stopped)
    ensures Joins(c.(list := Rewrite(c.list, id, when)), Entry(id, when, 0, fn, c.next))
  {
    RewriteShared(c.list, c.stopped, id, when);
    RewritePending(c.list, id, when, id);
    PendingMeans(Rewrite(c.list, id, when), id);
  }

  lemma MoveKeepsInv<T>(c: Clock<T>, id: T, when: int, fn: bool, r: Clock<T>)
    requires Inv(c) && Fits(c.list, id, when) && Behind(c.log, c.list, id, when) && c.now <= when
    requires (Pending(c.list, id) ==> id in c.stopped) && r == Relisted(c, id, when, fn)
    ensures Inv(r)
  {
    RewriteKeepsInv(c, id, when);
    RewriteJoins(c, id, when, fn);
    InsertKeepsInv(c.(list := Rewrite(c.list, id, when)), Entry(id, when, 0, fn, c.next));
  }

  lemma ResetKeepsInv<T>(c: Clock<T>, id: T, d: int, fn: bool)
    requires Inv(c) && d >= 0 && KeepsPlace(c, id, d)
    ensures Inv(AfterReset(c, id, d, fn))
  {
    StopKeepsInv(c, id);
    ResetMoves(c, id, d, fn);
    MoveKeepsInv(AfterStop(c, id), id, c.now + d, fn, AfterReset(c, id, d, fn));
  }

  lemma NextKeepsInv<T>(c: Clock<T>, s: Step<T>)
    requires Inv(c) && Allowed(c, s)
    ensures Inv(Next(c, s))
  {
    match s
    case Fire => if Due(c) { FireKeepsInv(c); }
    case Start(id, d, interval, fn) => StartKeepsInv(c, id, d, interval, fn);
    case Stop(id) => StopKeepsInv(c, id);
    case Reset(id, d, fn) => ResetKeepsInv(c, id, d, fn);
    case _ =>
  }

  lemma MovedBeforeLog<T>(log: seq<Fired<T>>, list: seq<Entry<T>>, id: T, when: int, e: Entry<T>)
    requires log != [] && AllAfter(list, log[|log| - 1].when, log[|log| - 1].born) && !Behind(log, list, id, when)
    ensures !AllAfter(Insert(Rewrite(list, id, when), e), log[|log| - 1].when, log[|log| - 1].born)
  {
    RewriteBehindExactly(log, list, id, when);
    InsertMembers(Rewrite(list, id, when), e);
  }

  /** A Reset that does not keep the timer's place leaves the schedule unsorted, or overlapping with what has fired. */
  lemma OutOfPlace<T>(c: Clock<T>, id: T, d: int, fn: bool)
    requires Inv(c) && !KeepsPlace(c, id, d)
    ensures !InOrder(AfterReset(c, id, d, fn))
  {
    ResetKeepsOrderExactly(c, id, d, fn);
    ResetMoves(c, id, d, fn);
    var c1, when := AfterStop(c, id), c.now + d;
    if !Behind(c.log, c1.list, id, when) {
      StopLeaves(c, id);
      MovedBeforeLog(c.log, c1.list, id, when, Entry(id, when, 0, fn, c1.next));
    }
  }

  /** Of the usable steps, only a Reset out of place puts anything out of order. */
  lemma InOrderExactly<T>(c: Clock<T>, s: Step<T>)
    requires Inv(c) && Usable(c, s)
    ensures InOrder(Next(c, s)) <==> Allowed(c, s)
  {
    if Allowed(c, s) { NextKeepsInv(c, s); } else { OutOfPlace(c, s.id, s.d, s.fn); }
  }

  // ---------- whole runs ----------

  ghost predicate AllUsable<T>(c: Clock<T>, steps: seq<Step<T>>)
    decreases |steps|
  {
    steps == [] || (Usable(c, steps[0]) && AllUsable(Next(c, steps[0]), steps[1..]))
  }

  ghost predicate AllAllowed<T>(c: Clock<T>, steps: seq<Step<T>>)
    decreases |steps|
  {
    steps == [] || (Allowed(c, steps[0]) && AllAllowed(Next(c, steps[0]), steps[1..]))
  }

  /** Every state of the run is in order. */
  ghost predicate AllInOrder<T>(c: Clock<T>, steps: seq<Step<T>>)
    decreases |steps|
  {
    InOrder(c) && (steps == [] || AllInOrder(Next(c, steps[0]), steps[1..]))
  }

  /** Every run keeps the invariant; so the log of firings is in order of time, and of insertion among equal times. */
  lemma {:induction false} RunKeepsOrder<T>(c: Clock<T>, steps: seq<Step<T>>)
    requires Inv(c) && AllAllowed(c, steps)
    ensures Inv(Steps(c, steps)) && Increasing(Steps(c, steps).log)
    decreases |steps|
  {
    if steps != [] {
      NextKeepsInv(c, steps[0]);
      RunKeepsOrder(Next(c, steps[0]), steps[1..]);
    }
  }

  /** Exactly when a run stays in order throughout: when every Reset in it keeps its timer's place. */
  lemma {:induction false} RunInOrderExactly<T>(c: Clock<T>, steps: seq<Step<T>>)
    requires Inv(c) && AllUsable(c, steps)
    ensures AllInOrder(c, steps) <==> AllAllowed(c, steps)
    decreases |steps|
  {
    if steps != [] {
      InOrderExactly(c, steps[0]);
      if Allowed(c, steps[0]) {
        NextKeepsInv(c, steps[0]);
        RunInOrderExactly(Next(c, steps[0]), steps[1..]);
      } else {
        assert !AllInOrder(Next(c, steps[0]), steps[1..]);
      }
    }
  }

  /** Once nothing is due at the head, nothing is due at all. */
  lemma {:induction false} NothingDue<T>(list: seq<Entry<T>>, now: int)
    requires Sorted(list) && (list != [] ==> list[0].when > now)
    ensures (forall e :: e in list ==> e.when > now) && Beats(list, now) == 0
  {
    if list != [] {
      assert forall e :: e in list[1..] ==> Before(list[0].when, list[0].born, e.when, e.born);
      if |list| > 1 { assert list[1] in list[1..]; }
      NothingDue(list[1..], now);
    }
  }

  /** Advancing keeps the invariant, fires exactly the beats that are due, and leaves every timer strictly in the future. */
  lemma {:induction false} FireAllExact<T>(c: Clock<T>)
    requires Inv(c)
    ensures Inv(FireAll(c)) && |FireAll(c).log| == |c.log| + Beats(c.list, c.now)
    ensures forall e :: e in FireAll(c).list ==> e.when > c.now
    decreases Beats(c.list, c.now)
  {
    if Due(c) {
      FireUsesOneBeat(c);
      FireKeepsInv(c);
      FireAllExact(AfterFire(c));
    } else {
      NothingDue(c.list, c.now);
    }
  }

  lemma {:induction false} FireAllLater<T>(c: Clock<T>, later: int)
    requires c.now <= later
    ensures FireAll(FireAll(c).(now := later)) == FireAll(c.(now := later))
    decreases Beats(c.list, c.now)
  {
    if Due(c) {
      FireUsesOneBeat(c);
      assert AfterFire(c).(now := later) == AfterFire(c.(now := later));
      FireAllLater(AfterFire(c), later);
    }
  }

  /** Splitting time changes nothing: same firings, same schedule, same channels, same clock. */
  lemma AdvanceSplits<T>(c: Clock<T>, a: int, b: int)
    requires b >= 0
    ensures Advance(Advance(c, a), b) == Advance(c, a + b)
  {
    FireAllLater(c.(now := c.now + a), c.now + a + b);
  }

  lemma ThreeSteps<T>(c: Clock<T>, a: Step<T>, b: Step<T>, d: Step<T>)
    ensures Steps(c, [a, b, d]) == Next(Next(Next(c, a), b), d)
  {
    var c1, c2 := Next(c, a), Next(Next(c, a), b);
    assert [a, b, d][1..] == [b, d] && [b, d][1..] == [d] && [d][1..] == [];
    assert Steps(c1, [b, d]) == Steps(c2, [d]) && Steps(c2, [d]) == Steps(Next(c2, d), []);
  }

  /** Callbacks that only start timers in the future cannot keep an advance going. */
  ghost predicate Forward<T>(c: Clock<T>, steps: seq<Step<T>>)
    decreases |steps|
  {
    steps != [] ==>
      && Allowed(c, steps[0]) && !steps[0].Elapse?
      && (steps[0].Start? || steps[0].Reset? ==> steps[0].d > 0)
      && Forward(Next(c, steps[0]), steps[1..])
  }

  lemma ForwardStep<T>(c: Clock<T>, s: Step<T>)
    requires Inv(c) && Allowed(c, s) && !s.Elapse? && (s.Start? || s.Reset? ==> s.d > 0)
    ensures Next(c, s).now == c.now
    ensures |Next(c, s).log| - |c.log| + Beats(Next(c, s).list, c.now) <= Beats(c.list, c.now)
    ensures !s.Stop? && !s.Reset? ==> |Next(c, s).log| - |c.log| + Beats(Next(c, s).list, c.now) == Beats(c.list, c.now)
  {
    match s
    case Fire => if Due(c) { FireUsesOneBeat(c); }
    case Start(id, d, interval, fn) => BeatsOfInsert(c.list, Entry(id, c.now + d, interval, fn, c.next), c.now);
    case Stop(id) => BeatsOfUnschedule(c.list, id, c.now);
    case Reset(id, d, fn) =>
      ResetBeats(c, id, d, fn);
    case _ =>
  }

  lemma {:induction false} BeatsOfRewrite<T>(list: seq<Entry<T>>, id: T, when: int, now: int)
    requires when > now
    ensures Beats(Rewrite(list, id, when), now) <= Beats(list, now)
  {
    if list != [] {
      assert Rewrite(list, id, when)[1..] == Rewrite(list[1..], id, when);
      BeatsOfRewrite(list[1..], id, when, now);
    }
  }

  lemma ResetBeats<T>(c: Clock<T>, id: T, d: int, fn: bool)
    requires d > 0
    ensures Beats(AfterReset(c, id, d, fn).list, c.now) <= Beats(c.list, c.now)
    ensures AfterReset(c, id, d, fn).log == c.log && AfterReset(c, id, d, fn).now == c.now
  {
    BeatsOfUnschedule(c.list, id, c.now);
    var c1, when := AfterStop(c, id), c.now + d;
    BeatsOfRewrite(c1.list, id, when, c.now);
    BeatsOfInsert(Rewrite(c1.list, id, when), Entry(id, when, 0, fn, c1.next), c.now);
  }

  /** While the clock stands still, the firings of any interleaving are bounded by the beats due at its start. */
  lemma {:induction false} FiringsBounded<T>(c: Clock<T>, steps: seq<Step<T>>)
    requires Inv(c) && Forward(c, steps)
    ensures |Steps(c, steps).log| - |c.log| + Beats(Steps(c, steps).list, c.now) <= Beats(c.list, c.now)
    decreases |steps|
  {
    if steps != [] {
      ForwardStep(c, steps[0]);
      NextKeepsInv(c, steps[0]);
      FiringsBounded(Next(c, steps[0]), steps[1..]);
    }
  }

  // ---------- Stop and Reset ----------

  /** Stop takes a timer off the schedule exactly unless it is pending with its stopped mark still set. */
  lemma StopUnschedulesExactly<T>(c: Clock<T>, id: T)
    requires Inv(c)
    ensures !Pending(AfterStop(c, id).list, id) <==> !(Pending(c.list, id) && id in c.stopped)
  {
    StopKeepsInv(c, id);
  }

  /** Any Reset leaves its timer pending with the mark set: the next Stop does nothing and the timer still fires. */
  lemma StopAfterResetDoesNothing<T>(c: Clock<T>, id: T, d: int, fn: bool)
    requires Pending(c.list, id) || id in c.stopped
    ensures var r := AfterReset(c, id, d, fn); Pending(r.list, id) && id in r.stopped && AfterStop(r, id) == r
  {
    var c1 := AfterStop(c, id);
    InsertPending(Rewrite(c1.list, id, c.now + d), Entry(id, c.now + d, 0, fn, c1.next), id);
  }

  /** Reset is given a timer that was started. */
  ghost predicate Genuine<T>(c: Clock<T>, s: Step<T>) {
    s.Reset? ==> Pending(c.list, s.id) || s.id in c.stopped
  }

  ghost predicate AllGenuine<T>(c: Clock<T>, steps: seq<Step<T>>)
    decreases |steps|
  {
    steps == [] || (Allowed(c, steps[0]) && Genuine(c, steps[0]) && AllGenuine(Next(c, steps[0]), steps[1..]))
  }

  /** Whether the latest insertion of the timer was by Reset, rather than by Start or a ticker's re-arming. */
  ghost function ByReset<T>(c: Clock<T>, steps: seq<Step<T>>, id: T, before: bool): bool
    decreases |steps|
  {
    if steps == [] then before else ByReset(Next(c, steps[0]), steps[1..], id, LatestByReset(c, steps[0], id, before))
  }

  ghost function LatestByReset<T>(c: Clock<T>, s: Step<T>, id: T, before: bool): bool {
    match s
    case Start(other, _, _, _) => before && other != id
    case Reset(other, _, _) => before || other == id
    case Fire => before && !(Due(c) && c.list[0].id == id && c.list[0].interval > 0)
    case _ => before
  }

  ghost predicate MarkTells<T>(c: Clock<T>, id: T, reset: bool) {
    Pending(c.list, id) ==> (id in c.stopped <==> reset)
  }

  lemma FireKeepsMark<T>(c: Clock<T>, id: T, before: bool)
    requires Inv(c) && Due(c) && MarkTells(c, id, before)
    ensures MarkTells(AfterFire(c), id, LatestByReset(c, Fire, id, before))
  {
    var e := c.list[0];
    assert e in c.list;
    InsertPending(c.list[1..], e.(when := e.when + e.interval, born := c.next), id);
    if Pending(c.list[1..], id) {
      PendingMeans(c.list[1..], id);
      var x :| x in c.list[1..] && x.id == id;
      assert Before(e.when, e.born, x.when, x.born);
    }
  }

  lemma ResetKeepsMark<T>(c: Clock<T>, other: T, d: int, fn: bool, id: T, before: bool)
    requires Inv(c) && Genuine(c, Reset(other, d, fn)) && MarkTells(c, id, before)
    ensures MarkTells(AfterReset(c, other, d, fn), id, before || other == id)
  {
    UnscheduleKeeps(c.list, other);
    var c1, when := AfterStop(c, other), c.now + d;
    RewritePending(c1.list, other, when, id);
    InsertPending(Rewrite(c1.list, other, when), Entry(other, when, 0, fn, c1.next), id);
  }

  lemma StepKeepsMark<T>(c: Clock<T>, s: Step<T>, id: T, before: bool)
    requires Inv(c) && Allowed(c, s) && Genuine(c, s) && MarkTells(c, id, before)
    ensures MarkTells(Next(c, s), id, LatestByReset(c, s, id, before))
  {
    match s
    case Fire => if Due(c) { FireKeepsMark(c, id, before); }
    case Start(other, d, interval, fn) => InsertPending(c.list, Entry(other, c.now + d, interval, fn, c.next), id);
    case Stop(other) =>
      UnscheduleKeeps(c.list, other);
      StopLeaves(c, other);
    case Reset(other, d, fn) => ResetKeepsMark(c, other, d, fn, id, before);
    case _ =>
  }

  lemma {:induction false} RunKeepsMark<T>(c: Clock<T>, steps: seq<Step<T>>, id: T, before: bool)
    requires Inv(c) && AllGenuine(c, steps) && MarkTells(c, id, before)
    ensures Inv(Steps(c, steps)) && MarkTells(Steps(c, steps), id, ByReset(c, steps, id, before))
    decreases |steps|
  {
    if steps != [] {
      NextKeepsInv(c, steps[0]);
      StepKeepsMark(c, steps[0], id, before);
      RunKeepsMark(Next(c, steps[0]), steps[1..], id, LatestByReset(c, steps[0], id, before));
    }
  }

  function NewClock<T>(now: int): Clock<T> {
    Clock(now, [], 0, map[], {}, [])
  }

  /**
  In every run from a new clock a pending timer carries the stopped mark, and so is out of reach of Stop, if and only if
  it was put on the schedule by a Reset.
  */
  lemma StopWorksExactly<T>(now: int, steps: seq<Step<T>>, id: T)
    requires AllGenuine(NewClock(now), steps) && Pending(Steps(NewClock(now), steps).list, id)
    ensures var c := Steps(NewClock(now), steps);
            && (id in c.stopped <==> ByReset(NewClock(now), steps, id, false))
            && (Pending(AfterStop(c, id).list, id) <==> ByReset(NewClock(now), steps, id, false))
  {
    RunKeepsMark(NewClock(now), steps, id, false);
    StopUnschedulesExactly(Steps(NewClock(now), steps), id);
  }

  ghost function Occurrences<T>(list: seq<Entry<T>>, id: T): nat {
    if list == [] then 0 else (if list[0].id == id then 1 else 0) + Occurrences(list[1..], id)
  }

  lemma {:induction false} OccurrencesOfInsert<T>(list: seq<Entry<T>>, e: Entry<T>, id: T)
    ensures Occurrences(Insert(list, e), id) == Occurrences(list, id) + if e.id == id then 1 else 0
  {
    if list == [] || e.when < list[0].when {
      assert ([e] + list)[1..] == list;
    } else {
      OccurrencesOfInsert(list[1..], e, id);
      assert Insert(list, e)[1..] == Insert(list[1..], e);
    }
  }

  lemma {:induction false} OccurrencesOfRewrite<T>(list: seq<Entry<T>>, id: T, when: int)
    ensures Occurrences(Rewrite(list, id, when), id) == Occurrences(list, id)
  {
    if list != [] {
      assert Rewrite(list, id, when)[1..] == Rewrite(list[1..], id, when);
      OccurrencesOfRewrite(list[1..], id, when);
    }
  }

  lemma {:induction false} OccurrencesPositive<T>(list: seq<Entry<T>>, id: T)
    ensures Occurrences(list, id) > 0 <==> Pending(list, id)
  {
    if list != [] { OccurrencesPositive(list[1..], id); }
  }

  /** Reset leaves its timer on the schedule once exactly unless it was pending with its stopped mark set. */
  lemma ResetSchedulesOnceExactly<T>(c: Clock<T>, id: T, d: int, fn: bool)
    requires Inv(c)
    ensures Occurrences(AfterReset(c, id, d, fn).list, id) == 1 <==> !(Pending(c.list, id) && id in c.stopped)
  {
    var c1 := AfterStop(c, id);
    StopKeepsInv(c, id);
    OccurrencesOfRewrite(c1.list, id, c.now + d);
    OccurrencesOfInsert(Rewrite(c1.list, id, c.now + d), Entry(id, c.now + d, 0, fn, c1.next), id);
    OccurrencesPositive(c1.list, id);
  }

  lemma SecondReset(c: Clock<int>)
    requires |c.list| == 2 && c.list[0].id == 1 && c.list[1].id == 2 && c.list[1].when < c.now + 9 && 1 in c.stopped
    ensures var r := AfterReset(c, 1, 9, false);
            !Sorted(r.list) && |r.list| > 0 && r.list[0].when == c.now + 9 && c.list[1] in r.list && r.log == c.log && r.now == c.now
  {
    var e1, e2, e3 := c.list[0].(when := c.now + 9), c.list[1], Entry(1, c.now + 9, 0, false, c.next);
    var l := Rewrite(c.list, 1, c.now + 9);
    assert l == [e1, e2] && l[1..] == [e2];
    assert Insert([e2], e3) == [e2] + Insert([], e3) by { assert [e2][1..] == []; }
    var r := AfterReset(c, 1, 9, false).list;
    assert r == [e1] + Insert([e2], e3);
    assert e2 in r[1..];
  }

  lemma StartThenReset(c: Clock<int>)
    requires c == NewClock(0)
    ensures Next(c, Start(1, 3, 0, false)) == Clock(0, [Entry(1, 3, 0, false, 0)], 1, map[], {}, [])
    ensures Next(Next(c, Start(1, 3, 0, false)), Reset(1, 5, false)) == Clock(0, [Entry(1, 5, 0, false, 1)], 2, map[], {1}, [])
  {
    var c1 := Clock(0, [Entry(1, 3, 0, false, 0)], 1, map[], {}, []);
    assert Unschedule(c1.list, 1) == [];
    assert AfterStop(c1, 1) == Clock(0, [], 1, map[], {1}, []);
  }

  lemma StartBehind(e1: Entry<int>)
    requires e1.when < 7
    ensures Insert([e1], Entry(2, 7, 0, false, 2)) == [e1, Entry(2, 7, 0, false, 2)]
  {
    assert [e1][1..] == [] && Insert([], Entry(2, 7, 0, false, 2)) == [Entry(2, 7, 0, false, 2)];
  }

  lemma ThreeGenuine<T>(c: Clock<T>, a: Step<T>, b: Step<T>, d: Step<T>)
    requires Allowed(c, a) && Genuine(c, a) && Allowed(Next(c, a), b) && Genuine(Next(c, a), b)
    requires Allowed(Next(Next(c, a), b), d) && Genuine(Next(Next(c, a), b), d)
    ensures AllGenuine(c, [a, b, d])
  {
    assert [a, b, d][1..] == [b, d] && [b, d][1..] == [d] && [d][1..] == [];
    assert AllGenuine(Next(Next(c, a), b), [d]);
  }

  /**
  A second Reset of a pending timer can leave the schedule out of order, and then an advance past the time of another
  timer does not fire it.
  */
  lemma SecondResetBreaksOrder() returns (steps: seq<Step<int>>, c: Clock<int>)
    ensures steps == [Start(1, 3, 0, false), Reset(1, 5, false), Start(2, 7, 0, false)] && AllGenuine(NewClock(0), steps)
    ensures c == AfterReset(Steps(NewClock(0), steps), 1, 9, false) && !Sorted(c.list)
    ensures Advance(c, 8).log == [] && Entry(2, 7, 0, false, 2) in Advance(c, 8).list
  {
    var a, b, d: Step<int> := Start(1, 3, 0, false), Reset(1, 5, false), Start(2, 7, 0, false);
    steps := [a, b, d];
    StartThenReset(NewClock(0));
    StartBehind(Entry(1, 5, 0, false, 1));
    ThreeGenuine(NewClock(0), a, b, d);
    ThreeSteps(NewClock(0), a, b, d);
    c := AfterReset(Steps(NewClock(0), steps), 1, 9, false);
    SecondReset(Steps(NewClock(0), steps));
  }
}
