/** Subscriptions and the cache of their last replies (electronfittexxcoin/network.py:868-996). */
module RequestSubscriptions {
  import opened RequestModel
  import opened RequestTracking

  // ---------------------------------------------------------------- names and keys

  lemma SubscriptionNames(name: string)
    ensures IsSubscription(name) <==> exists base :: name == base + ".subscribe"
  {
    var suffix := ".subscribe";
    if IsSubscription(name) {
      assert name == name[..|name| - |suffix|] + suffix;
    }
    if base :| name == base + suffix {
      assert name[|name| - |suffix|..] == suffix;
    }
  }

  /** Two calls share a key exactly when they agree in the name and in the first parameter, if any. */
  lemma SharedKey(c: Call, d: Call)
    ensures IndexOf(c) == IndexOf(d)
       <==> (c.name == d.name && if c.params == [] || d.params == [] then c.params == d.params else c.params[0] == d.params[0])
  {}

  /** A request with a limit is refused exactly when the limit is positive and has been reached. */
  lemma RefusedWhenFull(n: Net, r: Request, via: Via, maxQueue: Option<nat>)
    ensures QueueClient(n, r, via, maxQueue).1.None? <==> maxQueue.Some? && 0 < maxQueue.value <= |n.unanswered|
    ensures QueueClient(n, r, via, maxQueue).1.None? ==> QueueClient(n, r, via, maxQueue).0 == n.(nextId := n.nextId + 1)
  {}

  // ---------------------------------------------------------------- who is subscribed

  ghost predicate NoRepeats(cs: seq<Callback>) { forall i, j :: 0 <= i < j < |cs| ==> cs[i] != cs[j] }

  /** No callback is listed twice for a key. */
  ghost predicate Distinct(n: Net) { forall k :: NoRepeats(Subscribers(n, k)) }

  /** Every list has kept its callbacks, in their places. */
  ghost predicate Grown(n: Net, n': Net) { forall k :: Subscribers(n, k) <= Subscribers(n', k) }

  lemma FileOnQuiet(n: Net, r: Request, target: Option<Server>)
    ensures FileOn(n, r, target).subscriptions == n.subscriptions && FileOn(n, r, target).cache == n.cache
  {}

  /** The callback is listed for the key after all of these calls, and for no key it was not asked for. */
  ghost predicate Lists(n: Net, n': Net, calls: seq<Call>, callback: Callback) {
    forall k, cb :: cb in Subscribers(n', k) <==> cb in Subscribers(n, k) || (cb == callback && AskedFor(calls, k))
  }

  ghost predicate AskedFor(calls: seq<Call>, k: Index) {
    exists j :: 0 <= j < |calls| && IsSubscription(calls[j].name) && IndexOf(calls[j]) == k
  }

  lemma SubscribeMeaning(n: Net, r: Request)
    requires Distinct(n)
    ensures Distinct(Subscribe(n, r)) && Grown(n, Subscribe(n, r))
    ensures forall k, cb :: cb in Subscribers(Subscribe(n, r), k) <==> cb in Subscribers(n, k) || (k == IndexOf(r.call) && cb == r.callback)
  {
    var (n', k0) := (Subscribe(n, r), IndexOf(r.call));
    var l := Subscribers(n, k0);
    assert Subscribers(n', k0) == if r.callback in l then l else l + [r.callback];
    forall k ensures NoRepeats(Subscribers(n', k)) && Subscribers(n, k) <= Subscribers(n', k) {
      assert NoRepeats(Subscribers(n, k));
      if k != k0 { assert Subscribers(n', k) == Subscribers(n, k); }
    }
    forall k, cb ensures cb in Subscribers(n', k) <==> cb in Subscribers(n, k) || (k == k0 && cb == r.callback) {
      if k != k0 { assert Subscribers(n', k) == Subscribers(n, k); }
    }
  }

  lemma SendOneMeaning(n: Net, r: Request)
    requires Distinct(n)
    ensures var n' := SendOne(n, r).0; Distinct(n') && Grown(n, n') && n'.cache == n.cache && Lists(n, n', [r.call], r.callback)
  {
    SubscribeMeaning(n, r);
    var n1 := if IsSubscription(r.call.name) then Subscribe(n, r) else n;
    FileOnQuiet(n1, r, n1.current);
    SameSubscribers(n1, SendOne(n, r).0);
    forall k ensures AskedFor([r.call], k) <==> IsSubscription(r.call.name) && IndexOf(r.call) == k {
      if IsSubscription(r.call.name) && IndexOf(r.call) == k { assert IsSubscription([r.call][0].name); }
    }
  }

  lemma SameSubscribers(n: Net, n': Net)
    requires n'.subscriptions == n.subscriptions
    ensures forall k :: Subscribers(n', k) == Subscribers(n, k)
    ensures Distinct(n) <==> Distinct(n')
  {
    assert forall k :: Subscribers(n', k) == Subscribers(n, k);
  }

  lemma AskedSplit(calls: seq<Call>, k: Index)
    requires calls != []
    ensures AskedFor(calls, k) <==> AskedFor(calls[..|calls| - 1], k) || AskedFor([calls[|calls| - 1]], k)
  {
    var (most, last) := (calls[..|calls| - 1], [calls[|calls| - 1]]);
    if AskedFor(most, k) {
      var j :| 0 <= j < |most| && IsSubscription(most[j].name) && IndexOf(most[j]) == k;
      assert calls[j] == most[j];
    }
    if AskedFor(last, k) { assert calls[|calls| - 1] == last[0]; }
    if AskedFor(calls, k) {
      var j :| 0 <= j < |calls| && IsSubscription(calls[j].name) && IndexOf(calls[j]) == k;
      if j < |most| { assert most[j] == calls[j]; } else { assert last[0] == calls[j]; }
    }
  }

  lemma {:induction false} SendManyMeaning(n: Net, calls: seq<Call>, callback: Callback)
    requires Distinct(n)
    ensures var n' := SendMany(n, calls, callback).0; Distinct(n') && Grown(n, n') && n'.cache == n.cache && Lists(n, n', calls, callback)
  {
    if calls != [] {
      var (most, last) := (calls[..|calls| - 1], calls[|calls| - 1]);
      SendManyMeaning(n, most, callback);
      SendOneMeaning(SendMany(n, most, callback).0, Request(last, callback));
      forall k ensures AskedFor(calls, k) <==> AskedFor(most, k) || AskedFor([last], k) { AskedSplit(calls, k); }
    }
  }

  ghost predicate AskedIn(sends: seq<(seq<Call>, Callback)>, k: Index, cb: Callback) {
    exists i :: 0 <= i < |sends| && sends[i].1 == cb && AskedFor(sends[i].0, k)
  }

  lemma AskedInSplit(sends: seq<(seq<Call>, Callback)>, k: Index, cb: Callback)
    requires sends != []
    ensures AskedIn(sends, k, cb) <==>
      AskedIn(sends[..|sends| - 1], k, cb) || (sends[|sends| - 1].1 == cb && AskedFor(sends[|sends| - 1].0, k))
  {
    var most := sends[..|sends| - 1];
    if AskedIn(most, k, cb) {
      var i :| 0 <= i < |most| && most[i].1 == cb && AskedFor(most[i].0, k);
      assert sends[i] == most[i];
    }
    if AskedIn(sends, k, cb) {
      var i :| 0 <= i < |sends| && sends[i].1 == cb && AskedFor(sends[i].0, k);
      if i < |most| { assert most[i] == sends[i]; }
    }
  }

  lemma {:induction false} SendAllMeaning(n: Net, sends: seq<(seq<Call>, Callback)>)
    requires Distinct(n)
    ensures
      var n' := SendAll(n, sends).0;
      && Distinct(n') && Grown(n, n') && n'.cache == n.cache
      && forall k, cb :: cb in Subscribers(n', k) <==> cb in Subscribers(n, k) || AskedIn(sends, k, cb)
  {
    if sends != [] {
      var (most, last) := (sends[..|sends| - 1], sends[|sends| - 1]);
      SendAllMeaning(n, most);
      SendManyMeaning(SendAll(n, most).0, last.0, last.1);
      forall k, cb ensures AskedIn(sends, k, cb) <==> AskedIn(most, k, cb) || (last.1 == cb && AskedFor(last.0, k)) {
        AskedInSplit(sends, k, cb);
      }
    }
  }

  // ---------------------------------------------------------------- runs

  lemma {:induction false} RefileQuiet(n: Net, es: seq<Entry>)
    ensures Refile(n, es).subscriptions == n.subscriptions && Refile(n, es).cache == n.cache
  {
    if es != [] { RefileQuiet(n, es[..|es| - 1]); }
  }

  lemma {:induction false} OwnQuiet(n: Net, s: Server, cs: seq<Call>)
    ensures QueueAllOwn(n, s, cs).subscriptions == n.subscriptions && QueueAllOwn(n, s, cs).cache == n.cache
  {
    if cs != [] { OwnQuiet(n, s, cs[..|cs| - 1]); }
  }

  /** A switch keeps the subscriptions and, if it takes place, forgets the replies. */
  lemma SwitchForgets(n: Net, s: Server, own: seq<Call>)
    ensures Switch(n, s, own).subscriptions == n.subscriptions
    ensures Switch(n, s, own).cache == if s in n.connections && n.current != Some(s) then map[] else n.cache
  {
    if s in n.connections && n.current != Some(s) {
      var m := n.(current := Some(s), cache := map[], unanswered := []);
      RefileQuiet(m, n.unanswered);
      OwnQuiet(Refile(m, n.unanswered), s, own);
    }
  }

  /** The messages sent in a run asked to subscribe the callback for the key. */
  ghost predicate AskedByRun(n: Net, t: Throttle, acts: seq<Action>, k: Index, cb: Callback) {
    if acts == [] then false
    else
      var (most, n1) := (acts[..|acts| - 1], Run(n, t, acts[..|acts| - 1]).0);
      || AskedByRun(n, t, most, k, cb)
      || (acts[|acts| - 1].ProcessSends? && n1.current.Some? && AskedIn(n1.pending, k, cb))
  }

  lemma StepSubscribes(n: Net, t: Throttle, a: Action, k: Index, cb: Callback)
    requires Distinct(n)
    ensures Distinct(Step(n, t, a).0)
    ensures cb in Subscribers(Step(n, t, a).0, k) <==>
      cb in Subscribers(n, k) || (a.ProcessSends? && n.current.Some? && AskedIn(n.pending, k, cb))
  {
    match a
    case ProcessSends =>
      SameSubscribers(n, n.(pending := []));
      if n.current.Some? { SendAllMeaning(n.(pending := []), n.pending); }
    case SwitchTo(s, own) =>
      SwitchForgets(n, s, own);
      SameSubscribers(n, Step(n, t, a).0);
    case _ => SameSubscribers(n, Step(n, t, a).0);
  }

  /** Over every run from no subscriptions: a callback is listed for a key exactly when a message sent asked
      for it, and at most once. */
  lemma {:induction false} SubscribedExactly(n: Net, t: Throttle, acts: seq<Action>, k: Index, cb: Callback)
    requires n.subscriptions == map[]
    ensures Distinct(Run(n, t, acts).0)
    ensures cb in Subscribers(Run(n, t, acts).0, k) <==> AskedByRun(n, t, acts, k, cb)
  {
    if acts != [] {
      SubscribedExactly(n, t, acts[..|acts| - 1], k, cb);
      StepSubscribes(Run(n, t, acts[..|acts| - 1]).0, t, acts[|acts| - 1], k, cb);
    }
  }

  // ---------------------------------------------------------------- who is notified

  lemma {:induction false} NotifyCounts(cs: seq<Callback>, k: Index, response: Response, cb: Callback)
    requires NoRepeats(cs)
    ensures Count(NotifyAll(cs, k, response), Notified(cb, k, response)) == if cb in cs then 1 else 0
  {
    if cs != [] {
      var most := cs[..|cs| - 1];
      NotifyCounts(most, k, response, cb);
      assert cs == most + [cs[|cs| - 1]];
      CountAppend(NotifyAll(most, k, response), [Notified(cs[|cs| - 1], k, response)], Notified(cb, k, response));
      CountOne(Notified(cs[|cs| - 1], k, response), Notified(cb, k, response));
    }
  }

  /** A reply that no client waits for notifies every callback subscribed to its key, once each, and no
      other. */
  lemma ReplyNotifies(n: Net, s: Server, id: Id, response: Response, cb: Callback)
    requires Distinct(n) && s in n.connections && id in n.connections[s].unanswered && Find(n.unanswered, id).None?
    ensures
      var (es, k) := (Reply(n, s, id, response).1, IndexOf(n.connections[s].unanswered[id].call));
      Count(es, Notified(cb, k, response)) == if cb in Subscribers(n, k) then 1 else 0
  {
    var k := IndexOf(n.connections[s].unanswered[id].call);
    NotifyCounts(Subscribers(n, k), k, response, cb);
  }

  // ---------------------------------------------------------------- the cache

  /** The reply last received in a run for a subscription of the key, since the last switch that took place. */
  ghost function LastReply(n: Net, t: Throttle, acts: seq<Action>, k: Index): Option<Response> {
    if acts == [] then None
    else
      var (most, n1) := (acts[..|acts| - 1], Run(n, t, acts[..|acts| - 1]).0);
      match acts[|acts| - 1]
      case SwitchTo(s, _) => if s in n1.connections && n1.current != Some(s) then None else LastReply(n, t, most, k)
      case ReplyTo(s, id, response) =>
        if s in n1.connections && id in n1.connections[s].unanswered
           && IsSubscription(n1.connections[s].unanswered[id].call.name)
           && IndexOf(n1.connections[s].unanswered[id].call) == k
        then Some(response) else LastReply(n, t, most, k)
      case _ => LastReply(n, t, most, k)
  }

  lemma {:induction false} SendManyQuiet(n: Net, calls: seq<Call>, callback: Callback)
    ensures SendMany(n, calls, callback).0.cache == n.cache
  {
    if calls != [] { SendManyQuiet(n, calls[..|calls| - 1], callback); }
  }

  lemma {:induction false} SendAllQuiet(n: Net, sends: seq<(seq<Call>, Callback)>)
    ensures SendAll(n, sends).0.cache == n.cache
  {
    if sends != [] {
      SendAllQuiet(n, sends[..|sends| - 1]);
      SendManyQuiet(SendAll(n, sends[..|sends| - 1]).0, sends[|sends| - 1].0, sends[|sends| - 1].1);
    }
  }

  /** Over every run from an empty cache: what is cached for a key is the last reply to a subscription of it
      since the last switch, and nothing from before. */
  lemma {:induction false} CacheIsLastReply(n: Net, t: Throttle, acts: seq<Action>, k: Index)
    requires n.cache == map[]
    ensures var cache := Run(n, t, acts).0.cache;
            LastReply(n, t, acts, k) == if k in cache then Some(cache[k]) else None
  {
    if acts != [] {
      var (most, a) := (acts[..|acts| - 1], acts[|acts| - 1]);
      var n1 := Run(n, t, most).0;
      CacheIsLastReply(n, t, most, k);
      match a
      case SwitchTo(s, own) => SwitchForgets(n1, s, own);
      case ProcessSends => SendAllQuiet(n1.(pending := []), n1.pending);
      case _ =>
    }
  }

  /** A cached subscription is answered at once and not sent; every other message is filed and sent. */
  lemma AnsweredFromCache(n: Net, r: Request)
    ensures
      var (n', es) := SendOne(n, r);
      if IsSubscription(r.call.name) && IndexOf(r.call) in n.cache then
        es == [Notified(r.callback, IndexOf(r.call), n.cache[IndexOf(r.call)])] && n'.unanswered == n.unanswered && n'.connections == n.connections
      else es == [Issued(r)] && |n'.unanswered| == |n.unanswered| + 1 && n'.unanswered[|n.unanswered|] == Entry(n.nextId, r)
  {}
}
