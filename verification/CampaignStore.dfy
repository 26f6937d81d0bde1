/** The key-value store under an election: revisions, live campaign keys, leases, and the log of key events. */
module CampaignStores {
  /** A campaign key is the election's name followed by the lease, so within one election the lease stands for the key. */
  type Lease = nat

  /** A key with the revision at which it was created. */
  datatype KV = KV(key: Lease, created: nat)

  datatype Event = Event(rev: nat, key: Lease, put: bool)

  datatype Store = Store(rev: nat, live: map<Lease, nat>, leases: set<Lease>, log: seq<Event>)

  ghost predicate Valid(s: Store) {
    && (forall k :: k in s.live ==> s.live[k] <= s.rev)
    && (forall k, k' :: k in s.live && k' in s.live && s.live[k] == s.live[k'] ==> k == k')
    && (forall i :: 0 <= i < |s.log| ==> s.log[i].rev <= s.rev)
    && (forall i, j :: 0 <= i < j < |s.log| ==> s.log[i].rev < s.log[j].rev)
  }

  /** The transaction of registerCampaign: the key is created unless it is there. */
  function Created(s: Store, k: Lease): Store {
    if k in s.live then s
    else Store(s.rev + 1, s.live[k := s.rev + 1], s.leases, s.log + [Event(s.rev + 1, k, true)])
  }

  function Deleted(s: Store, k: Lease): Store {
    if k !in s.live then s
    else Store(s.rev + 1, s.live - {k}, s.leases, s.log + [Event(s.rev + 1, k, false)])
  }

  /** A lease that runs out takes its key with it. */
  function Expired(s: Store, k: Lease): Store {
    var s1 := Deleted(s, k);
    s1.(leases := s1.leases - {k})
  }

  ghost predicate Live(s: Store, x: KV) {
    x.key in s.live && s.live[x.key] == x.created
  }

  /** The key created first among those alive. */
  ghost predicate First(s: Store, x: KV) {
    Live(s, x) && forall k :: k in s.live ==> x.created <= s.live[k]
  }

  /** There is one first key, if there is any key. */
  lemma {:induction false} FirstExists(s: Store, keys: set<Lease>) returns (x: KV)
    requires keys != {} && keys <= s.live.Keys
    ensures x.key in keys && x.created == s.live[x.key] && forall k :: k in keys ==> x.created <= s.live[k]
    decreases keys
  {
    var k :| k in keys;
    x := KV(k, s.live[k]);
    if keys != {k} {
      var y := FirstExists(s, keys - {k});
      if y.created < x.created { x := y; }
    }
  }

  lemma FirstUnique(s: Store, x: KV, y: KV)
    requires Valid(s) && First(s, x) && First(s, y)
    ensures x == y
  {}

  /** How many events are at or before a revision: where a watch from the next revision begins. */
  function After(log: seq<Event>, rev: nat): (n: nat)
    ensures n <= |log|
  {
    if log == [] then 0 else if log[|log| - 1].rev <= rev then |log| else After(log[..|log| - 1], rev)
  }

  /** A watch from the revision after `rev` is given all later events and no other. */
  lemma {:induction false} AfterSplits(log: seq<Event>, rev: nat, i: nat)
    requires i < |log| && forall i, j :: 0 <= i < j < |log| ==> log[i].rev < log[j].rev
    ensures i < After(log, rev) <==> log[i].rev <= rev
  {
    var last := |log| - 1;
    if log[last].rev <= rev {
      assert i < last ==> log[i].rev < log[last].rev;
    } else if i < last {
      AfterSplits(log[..last], rev, i);
    }
  }

  /** A deletion of the key is in the log at or behind position `from`. */
  ghost predicate DeletionAhead(s: Store, k: Lease, from: nat) {
    exists i: nat :: from <= i < |s.log| && s.log[i].key == k && !s.log[i].put
  }

  /** What the store may do in any number of steps: the log grows, new keys are newer, and a key that goes leaves a deletion behind. */
  ghost predicate Grows(s: Store, t: Store) {
    && s.rev <= t.rev && |s.log| <= |t.log| && s.log == t.log[..|s.log|]
    && (forall i :: |s.log| <= i < |t.log| ==> t.log[i].rev > s.rev)
    && (forall k :: k in t.live && !(k in s.live && t.live[k] == s.live[k]) ==> t.live[k] > s.rev)
    && (forall k :: k in s.live && !(k in t.live && t.live[k] == s.live[k]) ==> DeletionAhead(t, k, |s.log|))
  }

  lemma CreatedGrows(s: Store, k: Lease)
    requires Valid(s)
    ensures Valid(Created(s, k)) && Grows(s, Created(s, k))
  {}

  lemma DeletedGrows(s: Store, k: Lease)
    requires Valid(s)
    ensures Valid(Deleted(s, k)) && Grows(s, Deleted(s, k))
  {
    if k in s.live {
      assert Deleted(s, k).log[|s.log|] == Event(s.rev + 1, k, false);
    }
  }

  lemma ExpiredGrows(s: Store, k: Lease)
    requires Valid(s)
    ensures Valid(Expired(s, k)) && Grows(s, Expired(s, k))
  {
    DeletedGrows(s, k);
    var s1 := Deleted(s, k);
    forall k' | k' in s.live && !(k' in s1.live && s1.live[k'] == s.live[k']) ensures DeletionAhead(Expired(s, k), k', |s.log|) {
      assert DeletionAhead(s1, k', |s.log|);
    }
  }

  lemma {:induction false} AfterStable(log: seq<Event>, log': seq<Event>, rev: nat)
    requires |log| <= |log'| && log == log'[..|log|] && forall i :: |log| <= i < |log'| ==> log'[i].rev > rev
    ensures After(log', rev) == After(log, rev)
  {
    if |log'| > |log| {
      assert log'[..|log'| - 1][..|log|] == log;
      AfterStable(log, log'[..|log'| - 1], rev);
    } else {
      assert log == log';
    }
  }

  // ---------- what a candidate may rely on ----------

  /** A first-created key stays first until it is deleted. */
  ghost predicate FirstWhileLive(s: Store, x: KV) {
    x.created <= s.rev && (Live(s, x) ==> First(s, x))
  }

  /** The key is alive, or its deletion is still to be delivered to a watcher at `from`. */
  ghost predicate NotMissed(s: Store, x: KV, from: nat) {
    Live(s, x) || DeletionAhead(s, x.key, from)
  }

  lemma FirstWhileLiveStable(s: Store, t: Store, x: KV)
    requires Grows(s, t) && FirstWhileLive(s, x)
    ensures FirstWhileLive(t, x)
  {}

  lemma NotMissedStable(s: Store, t: Store, x: KV, from: nat)
    requires Grows(s, t) && from <= |s.log| && NotMissed(s, x, from)
    ensures NotMissed(t, x, from)
  {
    if Live(s, x) {
      if !Live(t, x) {
        var i: nat :| |s.log| <= i < |t.log| && t.log[i].key == x.key && !t.log[i].put;
      }
    } else {
      var i: nat :| from <= i < |s.log| && s.log[i].key == x.key && !s.log[i].put;
      assert t.log[i] == s.log[i];
    }
  }
}
