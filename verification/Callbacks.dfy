/** What the functions of timers see of the clock. */
module Callbacks {
  import opened Schedules

  /** The functions an advance calls, each with the time on the clock when it is called. */
  function Calls<T(==)>(c: Clock<T>): (r: seq<(T, int)>)
    ensures forall i :: 0 <= i < |r| ==> r[i].1 == c.now
    decreases Beats(c.list, c.now)
  {
    if Due(c) then
      FireUsesOneBeat(c);
      (if c.list[0].fn then [(c.list[0].id, c.now)] else []) + Calls(AfterFire(c))
    else []
  }

  ghost predicate FunctionDue<T>(c: Clock<T>) {
    exists e :: e in c.list && e.fn && e.when <= c.now
  }

  lemma FireKeepsFunctionDue<T>(c: Clock<T>, x: Entry<T>)
    requires Due(c) && !c.list[0].fn && x in c.list && x.fn && x.when <= c.now
    ensures FunctionDue(AfterFire(c))
  {
    var e := c.list[0];
    assert x in c.list[1..];
    InsertMembers(c.list[1..], e.(when := e.when + e.interval, born := c.next));
    assert x in AfterFire(c).list;
  }

  lemma FireAddsNoFunction<T>(c: Clock<T>)
    requires Due(c) && !c.list[0].fn && FunctionDue(AfterFire(c))
    ensures FunctionDue(c)
  {
    var e := c.list[0];
    InsertMembers(c.list[1..], e.(when := e.when + e.interval, born := c.next));
    var x :| x in AfterFire(c).list && x.fn && x.when <= c.now;
    assert x in c.list;
  }

  /** An advance calls a function exactly if a timer with a function is due. */
  lemma {:induction false} CallsExactly<T>(c: Clock<T>)
    requires Inv(c)
    ensures Calls(c) != [] <==> FunctionDue(c)
    decreases Beats(c.list, c.now)
  {
    if Due(c) {
      FireUsesOneBeat(c);
      if c.list[0].fn {
        assert c.list[0] in c.list;
      } else {
        FireKeepsInv(c);
        CallsExactly(AfterFire(c));
        if x :| x in c.list && x.fn && x.when <= c.now { FireKeepsFunctionDue(c, x); }
        if FunctionDue(AfterFire(c)) { FireAddsNoFunction(c); }
      }
    } else {
      NothingDue(c.list, c.now);
    }
  }

  lemma {:induction false} CallsLater<T>(c: Clock<T>, later: int)
    requires c.now <= later && Calls(c) == []
    ensures Calls(FireAll(c).(now := later)) == Calls(c.(now := later))
    decreases Beats(c.list, c.now)
  {
    if Due(c) {
      FireUsesOneBeat(c);
      assert AfterFire(c).(now := later) == AfterFire(c.(now := later));
      CallsLater(AfterFire(c), later);
    }
  }

  lemma CallsDiffer<T>(first: seq<(T, int)>, second: seq<(T, int)>, joined: seq<(T, int)>, now: int, later: int)
    requires first != [] && now < later
    requires forall i :: 0 <= i < |first| ==> first[i].1 == now
    requires forall i :: 0 <= i < |joined| ==> joined[i].1 == later
    ensures first + second != joined
  {
    assert (first + second)[0] == first[0];
  }

  lemma NoCallsTwice<T>(c: Clock<T>)
    ensures Calls(FireAll(c).(now := c.now)) == []
  {
    assert FireAll(c).(now := c.now) == FireAll(c);
  }

  /** What the functions are given when the advance that ends with `c` is followed by one until `later`. */
  function CallsInTwo<T(==)>(c: Clock<T>, later: int): seq<(T, int)> {
    Calls(c) + Calls(FireAll(c).(now := later))
  }

  lemma CallsInTwoExactly<T>(c: Clock<T>, later: int)
    requires c.now <= later
    ensures CallsInTwo(c, later) == Calls(c.(now := later)) <==> c.now == later || Calls(c) == []
  {
    if Calls(c) == [] {
      CallsLater(c, later);
    } else if c.now < later {
      CallsDiffer(Calls(c), Calls(FireAll(c).(now := later)), Calls(c.(now := later)), c.now, later);
    } else {
      NoCallsTwice(c);
    }
  }

  lemma LaterInv<T>(c: Clock<T>, later: int)
    requires Inv(c) && c.now <= later
    ensures Inv(c.(now := later))
  {}

  function AdvanceCalls<T(==)>(c: Clock<T>, d: int): seq<(T, int)> {
    Calls(c.(now := c.now + d))
  }

  lemma AdvanceCallsTwice<T>(c: Clock<T>, a: int, b: int)
    ensures AdvanceCalls(c, a) + AdvanceCalls(Advance(c, a), b) == CallsInTwo(c.(now := c.now + a), c.now + a + b)
  {
    assert Advance(c, a).now + b == c.now + a + b;
  }

  lemma CallsSplit<T>(c: Clock<T>, a: int, b: int)
    requires b >= 0
    ensures AdvanceCalls(c, a) + AdvanceCalls(Advance(c, a), b) == AdvanceCalls(c, a + b) <==> b == 0 || AdvanceCalls(c, a) == []
  {
    var c1, later := c.(now := c.now + a), c.now + a + b;
    AdvanceCallsTwice(c, a, b);
    CallsInTwoExactly(c1, later);
    assert c1.(now := later) == c.(now := c.now + (a + b));
  }

  lemma AdvanceCallsExactly<T>(c: Clock<T>, d: int)
    requires Inv(c) && d >= 0
    ensures AdvanceCalls(c, d) != [] <==> FunctionDue(c.(now := c.now + d))
  {
    LaterInv(c, c.now + d);
    CallsExactly(c.(now := c.now + d));
  }

  /**
  Splitting time changes what callbacks see, for they read the time the advance ends at and not the time of their timer:
  the calls of two advances are those of one exactly if the second is empty or no function is due in the first.
  */
  lemma CallsSplitExactly<T>(c: Clock<T>, a: int, b: int)
    requires Inv(c) && a >= 0 && b >= 0
    ensures AdvanceCalls(c, a) + AdvanceCalls(Advance(c, a), b) == AdvanceCalls(c, a + b)
            <==> b == 0 || !FunctionDue(c.(now := c.now + a))
  {
    CallsSplit(c, a, b);
    AdvanceCallsExactly(c, a);
  }

  /** The callback of a timer due at 1 starts a timer for one later, in an advance that ends at `now`. */
  lemma CallbackStarts(c: Clock<int>, now: int)
    requires c == Clock(0, [Entry(1, 1, 0, true, 0)], 1, map[], {}, []) && now >= 1
    ensures Next(Next(Next(c, Elapse(now)), Fire), Start(2, 1, 0, false)).list == [Entry(2, now + 1, 0, false, 1)]
    ensures Next(Next(Next(c, Elapse(now)), Fire), Start(2, 1, 0, false)).now == now
  {
    assert Next(Next(c, Elapse(now)), Fire).list == [];
  }

  /** From a new clock, a timer started by a callback can be due after two advances and not after one of the same length. */
  lemma CallbacksSeeWhereTheAdvanceEnds()
    ensures var c := Next(NewClock(0), Start(1, 1, 0, true));
            && !Due(Next(Next(Next(c, Elapse(2)), Fire), Start(2, 1, 0, false)))
            && Due(Next(Next(Next(Next(c, Elapse(1)), Fire), Start(2, 1, 0, false)), Elapse(1)))
  {
    var c: Clock<int> := Next(NewClock(0), Start(1, 1, 0, true));
    CallbackStarts(c, 2);
    CallbackStarts(c, 1);
  }
}
