/** What holds of client requests over every run of sends, switches, replies and cancellations. */
module RequestTracking {
  import opened RequestModel

  // ---------------------------------------------------------------- the state stays well formed

  ghost predicate SortedIds(es: seq<Entry>) {
    forall i, j :: 0 <= i < j < |es| ==> es[i].id < es[j].id
  }

  ghost predicate IdsBelow(es: seq<Entry>, bound: nat) {
    forall i :: 0 <= i < |es| ==> es[i].id < bound
  }

  /** Ids increase along the table, only connected servers are current, and only subscription calls
      have subscribers. */
  ghost predicate Valid(n: Net) {
    && SortedIds(n.unanswered) && IdsBelow(n.unanswered, n.nextId)
    && (n.current.Some? ==> n.current.value in n.connections)
    && (forall k :: k in n.subscriptions ==> IsSubscription(k.name))
  }

  /** What a step may do to the table's ids: nothing old comes back. */
  ghost predicate Advances(n: Net, n': Net) {
    && Valid(n') && n.nextId <= n'.nextId
    && forall id: Id :: id < n.nextId && Find(n'.unanswered, id).Some? ==> Find(n.unanswered, id).Some?
  }

  lemma FindSnoc(es: seq<Entry>, e: Entry, id: Id)
    ensures Find(es + [e], id) == if e.id == id then Some(e.request) else Find(es, id)
  {
    assert (es + [e])[..|es|] == es;
  }

  lemma FileOnAdvances(n: Net, r: Request, target: Option<Server>)
    requires Valid(n)
    ensures Advances(n, FileOn(n, r, target))
  {
    forall id { FindSnoc(n.unanswered, Entry(n.nextId, r), id); }
  }

  lemma AdvancesTrans(a: Net, b: Net, c: Net)
    requires Advances(a, b) && Advances(b, c)
    ensures Advances(a, c)
  {}

  lemma {:induction false} SendManyAdvances(n: Net, calls: seq<Call>, callback: Callback)
    requires Valid(n)
    ensures Advances(n, SendMany(n, calls, callback).0)
  {
    if calls != [] {
      var r := Request(calls[|calls| - 1], callback);
      var n1 := SendMany(n, calls[..|calls| - 1], callback).0;
      SendManyAdvances(n, calls[..|calls| - 1], callback);
      SendOneAdvances(n1, r);
      AdvancesTrans(n, n1, SendOne(n1, r).0);
    }
  }

  lemma SendOneAdvances(n: Net, r: Request)
    requires Valid(n)
    ensures Advances(n, SendOne(n, r).0)
  {
    var n' := if IsSubscription(r.call.name) then Subscribe(n, r) else n;
    FileOnAdvances(n', r, n'.current);
  }

  lemma {:induction false} SendAllAdvances(n: Net, sends: seq<(seq<Call>, Callback)>)
    requires Valid(n)
    ensures Advances(n, SendAll(n, sends).0)
  {
    if sends != [] {
      var (calls, callback) := sends[|sends| - 1];
      var n1 := SendAll(n, sends[..|sends| - 1]).0;
      SendAllAdvances(n, sends[..|sends| - 1]);
      SendManyAdvances(n1, calls, callback);
      AdvancesTrans(n, n1, SendMany(n1, calls, callback).0);
    }
  }

  // ---------------------------------------------------------------- switching servers

  /** The table after a switch: the same requests in the same order under consecutive new ids. */
  ghost function Renumbered(es: seq<Entry>, first: Id): (r: seq<Entry>)
    ensures |r| == |es|
  {
    seq(|es|, i requires 0 <= i < |es| => Entry(first + i, es[i].request))
  }

  ghost function Wires(es: seq<Entry>): (ws: seq<Wire>)
    ensures |ws| == |es|
  {
    seq(|es|, i requires 0 <= i < |es| => Wire(es[i].request.call, es[i].id))
  }

  lemma {:induction false} RefileMeaning(n: Net, es: seq<Entry>)
    requires n.current.Some? && n.current.value in n.connections && n.unanswered == []
    ensures
      var (s, n', new') := (n.current.value, Refile(n, es), Renumbered(es, n.nextId));
      && n'.unanswered == new' && n'.nextId == n.nextId + |es| && n'.current == n.current
      && n'.connections.Keys == n.connections.Keys && n'.subscriptions == n.subscriptions
      && n'.connections[s] == n.connections[s].(unsent := n.connections[s].unsent + Wires(new'))
      && (forall d :: d in n.connections && d != s ==> n'.connections[d] == n.connections[d])
  {
    var s := n.current.value;
    if es == [] {
      assert n.connections[s].unsent + [] == n.connections[s].unsent;
    } else {
      var h := es[..|es| - 1];
      RefileMeaning(n, h);
      var (a, b) := (Renumbered(h, n.nextId), Renumbered(es, n.nextId));
      assert b == a + [b[|es| - 1]];
      assert Wires(b) == Wires(a) + [Wires(b)[|es| - 1]];
      assert n.connections[s].unsent + Wires(b) == n.connections[s].unsent + Wires(a) + [Wires(b)[|es| - 1]];
    }
  }

  lemma {:induction false} QueueAllOwnMeaning(n: Net, s: Server, own: seq<Call>)
    requires s in n.connections
    ensures
      var n' := QueueAllOwn(n, s, own);
      && n'.unanswered == n.unanswered && n'.nextId == n.nextId + |own| && n'.current == n.current
      && n'.connections.Keys == n.connections.Keys && n'.subscriptions == n.subscriptions
      && n.connections[s].unsent <= n'.connections[s].unsent
      && n'.connections[s].unanswered == n.connections[s].unanswered
      && (forall d :: d in n.connections && d != s ==> n'.connections[d] == n.connections[d])
  {
    if own != [] { QueueAllOwnMeaning(n, s, own[..|own| - 1]); }
  }

  /** A switch files every unanswered request exactly once more, under one fresh id, and queues it on
      the new connection; nothing is filed under an old id any more. */
  lemma SwitchRefiles(n: Net, s: Server, own: seq<Call>)
    requires Valid(n) && s in n.connections && n.current != Some(s)
    ensures
      var (n', new') := (Switch(n, s, own), Renumbered(n.unanswered, n.nextId));
      && n'.unanswered == new' && n'.current == Some(s) && s in n'.connections
      && n.connections[s].unsent + Wires(new') <= n'.connections[s].unsent
      && n'.connections[s].unanswered == n.connections[s].unanswered
      && (forall d :: d in n.connections && d != s ==> d in n'.connections && n'.connections[d] == n.connections[d])
      && (forall id: Id :: id < n.nextId ==> Find(n'.unanswered, id).None?)
      && Advances(n, n')
  {
    var m := n.(current := Some(s), cache := map[], unanswered := []);
    RefileMeaning(m, n.unanswered);
    QueueAllOwnMeaning(Refile(m, n.unanswered), s, own);
  }

  // ---------------------------------------------------------------- every step advances

  lemma {:induction false} WithoutAbsent(es: seq<Entry>, id: Id)
    requires Find(es, id).None?
    ensures Without(es, id) == es
  {
    if es != [] {
      var h := es[..|es| - 1];
      assert forall i :: 0 <= i < |h| ==> h[i] == es[i];
      WithoutAbsent(h, id);
      assert es == h + [es[|es| - 1]];
    }
  }

  lemma FindIsMember(es: seq<Entry>, id: Id)
    ensures Find(es, id).Some? <==> exists e :: e in es && e.id == id
  {}

  lemma SnocSorted(w: seq<Entry>, e: Entry)
    requires SortedIds(w) && forall f :: f in w ==> f.id < e.id
    ensures SortedIds(w + [e])
  {}

  lemma WaitingSnoc(w: seq<Entry>, e: Entry, r: Request)
    ensures Waiting(w + [e], r) == Waiting(w, r) + (if e.request == r then 1 else 0)
  {
    assert (w + [e])[..|w|] == w;
  }

  lemma PrefixSorted(h: seq<Entry>, e: Entry)
    requires SortedIds(h + [e])
    ensures SortedIds(h) && forall f :: f in h ==> f.id < e.id
  {
    var es := h + [e];
    forall i, j | 0 <= i < j < |h| ensures h[i].id < h[j].id { assert es[i].id < es[j].id; }
    forall f | f in h ensures f.id < e.id { var i :| 0 <= i < |h| && h[i] == f; assert es[i].id < es[|h|].id; }
  }

  /** Ids are unique, so removing an id removes one entry, the one that is found. */
  lemma {:induction false} WithoutKeeps(es: seq<Entry>, id: Id)
    requires SortedIds(es)
    ensures SortedIds(Without(es, id))
    ensures forall e :: e in Without(es, id) <==> e in es && e.id != id
  {
    if es != [] {
      var (h, e) := (es[..|es| - 1], es[|es| - 1]);
      assert es == h + [e];
      PrefixSorted(h, e);
      WithoutKeeps(h, id);
      SnocSorted(Without(h, id), e);
    }
  }

  lemma {:induction false} WithoutWaiting(es: seq<Entry>, id: Id, r: Request)
    requires SortedIds(es)
    ensures Waiting(es, r) == Waiting(Without(es, id), r) + (if Find(es, id) == Some(r) then 1 else 0)
  {
    if es != [] {
      var (h, e) := (es[..|es| - 1], es[|es| - 1]);
      assert es == h + [e];
      PrefixSorted(h, e);
      if e.id == id {
        FindIsMember(h, id);
        WithoutAbsent(h, id);
      } else {
        WithoutWaiting(h, id, r);
        WaitingSnoc(Without(h, id), e, r);
      }
    }
  }

  /** A table with fewer entries finds nothing new. */
  lemma FewerEntries(n: Net, n': Net)
    requires Valid(n) && Valid(n') && n'.nextId == n.nextId
    requires forall e :: e in n'.unanswered ==> e in n.unanswered
    ensures Advances(n, n')
  {
    forall id: Id | Find(n'.unanswered, id).Some? ensures Find(n.unanswered, id).Some? {
      FindIsMember(n'.unanswered, id);
      FindIsMember(n.unanswered, id);
    }
  }

  lemma MembersBelow(es: seq<Entry>, w: seq<Entry>, bound: nat)
    requires IdsBelow(es, bound) && forall e :: e in w ==> e in es
    ensures IdsBelow(w, bound)
  {
    forall i | 0 <= i < |w| ensures w[i].id < bound { assert w[i] in es; }
  }

  lemma ReplyAdvances(n: Net, s: Server, id: Id, r: Response)
    requires Valid(n) && s in n.connections && id in n.connections[s].unanswered
    ensures Advances(n, Reply(n, s, id, r).0)
  {
    WithoutKeeps(n.unanswered, id);
    MembersBelow(n.unanswered, Without(n.unanswered, id), n.nextId);
    FewerEntries(n, Reply(n, s, id, r).0);
  }

  /** Kept entries stay in order. */
  lemma {:induction false} SelectedKeeps(es: seq<Entry>, callback: Callback, name: Option<string>, params: Option<Params>)
    requires SortedIds(es)
    ensures
      var kept := Selected(es, callback, name, params, false);
      SortedIds(kept) && (forall e :: e in kept <==> e in es && !Matches(e.request, callback, name, params))
  {
    if es != [] {
      var (h, e) := (es[..|es| - 1], es[|es| - 1]);
      assert es == h + [e];
      PrefixSorted(h, e);
      SelectedKeeps(h, callback, name, params);
      SnocSorted(Selected(h, callback, name, params, false), e);
    }
  }

  /** Removed and kept entries together are all entries. */
  lemma {:induction false} SelectedWaiting(es: seq<Entry>, callback: Callback, name: Option<string>, params: Option<Params>, r: Request)
    ensures Waiting(es, r) == Waiting(Selected(es, callback, name, params, false), r)
                            + Waiting(Selected(es, callback, name, params, true), r)
  {
    if es != [] {
      var (h, e) := (es[..|es| - 1], es[|es| - 1]);
      SelectedWaiting(h, callback, name, params, r);
      WaitingSnoc(Selected(h, callback, name, params, false), e, r);
      WaitingSnoc(Selected(h, callback, name, params, true), e, r);
    }
  }

  lemma CancelAdvances(n: Net, callback: Callback, name: Option<string>, params: Option<Params>)
    requires Valid(n)
    ensures Advances(n, Cancel(n, callback, name, params).0)
  {
    SelectedKeeps(n.unanswered, callback, name, params);
    MembersBelow(n.unanswered, Selected(n.unanswered, callback, name, params, false), n.nextId);
    FewerEntries(n, Cancel(n, callback, name, params).0);
  }

  lemma StepAdvances(n: Net, t: Throttle, a: Action)
    requires Valid(n)
    ensures Advances(n, Step(n, t, a).0)
  {
    match a
    case SwitchTo(s, own) =>
      if s in n.connections && n.current != Some(s) { SwitchRefiles(n, s, own); }
    case ProcessSends => SendAllAdvances(n.(pending := []), n.pending);
    case Direct(r, via, q) => FileOnAdvances(n, r, Target(n, via));
    case ReplyTo(s, id, r) =>
      if s in n.connections && id in n.connections[s].unanswered { ReplyAdvances(n, s, id, r); }
    case CancelAll(cb, name, params) => CancelAdvances(n, cb, name, params);
    case _ => TableKept(n, t, a);
  }

  lemma TableKept(n: Net, t: Throttle, a: Action)
    requires Valid(n) && (a.Connect? || a.Disconnect? || a.Queue? || a.OwnCall? || a.Transmit?)
    ensures Advances(n, Step(n, t, a).0) && Step(n, t, a).0.unanswered == n.unanswered
  {}

  lemma {:induction false} RunAdvances(n: Net, t: Throttle, acts: seq<Action>)
    requires Valid(n)
    ensures Advances(n, Run(n, t, acts).0)
  {
    if acts != [] {
      var n1 := Run(n, t, acts[..|acts| - 1]).0;
      RunAdvances(n, t, acts[..|acts| - 1]);
      StepAdvances(n1, t, acts[|acts| - 1]);
      AdvancesTrans(n, n1, Step(n1, t, acts[|acts| - 1]).0);
    }
  }

  // ---------------------------------------------------------------- conservation of requests

  /** How often an event occurs. */
  ghost function Count(es: seq<Event>, e: Event): nat {
    if es == [] then 0 else Count(es[..|es| - 1], e) + (if es[|es| - 1] == e then 1 else 0)
  }

  lemma {:induction false} CountAppend(a: seq<Event>, b: seq<Event>, e: Event)
    ensures Count(a + b, e) == Count(a, e) + Count(b, e)
  {
    if b == [] {
      assert a + b == a;
    } else {
      CountAppend(a, b[..|b| - 1], e);
      assert (a + b)[..|a + b| - 1] == a + b[..|b| - 1];
    }
  }

  lemma CountOne(f: Event, e: Event)
    ensures Count([f], e) == if f == e then 1 else 0
  {
    assert [f][..0] == [];
  }

  /** How often a request is answered, with whatever response. */
  ghost function Answers(es: seq<Event>, r: Request): nat {
    if es == [] then 0
    else Answers(es[..|es| - 1], r) + (if es[|es| - 1].Answered? && es[|es| - 1].request == r then 1 else 0)
  }

  lemma {:induction false} AnswersAppend(a: seq<Event>, b: seq<Event>, r: Request)
    ensures Answers(a + b, r) == Answers(a, r) + Answers(b, r)
  {
    if b == [] {
      assert a + b == a;
    } else {
      AnswersAppend(a, b[..|b| - 1], r);
      assert (a + b)[..|a + b| - 1] == a + b[..|b| - 1];
    }
  }

  /** What was waiting or newly issued is still waiting, or was answered, or was cancelled. */
  ghost predicate Conserves(n: Net, n': Net, es: seq<Event>, r: Request) {
    Waiting(n.unanswered, r) + Count(es, Issued(r))
      == Waiting(n'.unanswered, r) + Answers(es, r) + Count(es, Cancelled(r))
  }

  lemma ConservesTrans(a: Net, b: Net, c: Net, e1: seq<Event>, e2: seq<Event>, r: Request)
    requires Conserves(a, b, e1, r) && Conserves(b, c, e2, r)
    ensures Conserves(a, c, e1 + e2, r)
  {
    CountAppend(e1, e2, Issued(r));
    AnswersAppend(e1, e2, r);
    CountAppend(e1, e2, Cancelled(r));
  }

  /** Counts in a list of one event. */
  lemma TallyOne(e: Event, r: Request)
    ensures Count([e], Issued(r)) == if e == Issued(r) then 1 else 0
    ensures Answers([e], r) == if e.Answered? && e.request == r then 1 else 0
    ensures Count([e], Cancelled(r)) == if e == Cancelled(r) then 1 else 0
  {
    CountOne(e, Issued(r));
    assert [e][..0] == [];
    CountOne(e, Cancelled(r));
  }

  lemma FileOnConserves(n: Net, q: Request, target: Option<Server>, r: Request)
    ensures Conserves(n, FileOn(n, q, target), [Issued(q)], r)
  {
    TallyOne(Issued(q), r);
    WaitingSnoc(n.unanswered, Entry(n.nextId, q), r);
  }

  lemma SendOneConserves(n: Net, q: Request, r: Request)
    ensures Conserves(n, SendOne(n, q).0, SendOne(n, q).1, r)
  {
    if IndexOf(q.call) in n.cache { TallyOne(Notified(q.callback, IndexOf(q.call), n.cache[IndexOf(q.call)]), r); }
    FileOnConserves(if IsSubscription(q.call.name) then Subscribe(n, q) else n, q, n.current, r);
  }

  lemma {:induction false} SendManyConserves(n: Net, calls: seq<Call>, callback: Callback, r: Request)
    ensures Conserves(n, SendMany(n, calls, callback).0, SendMany(n, calls, callback).1, r)
  {
    if calls != [] {
      var q := Request(calls[|calls| - 1], callback);
      var (n1, e1) := SendMany(n, calls[..|calls| - 1], callback);
      SendManyConserves(n, calls[..|calls| - 1], callback, r);
      SendOneConserves(n1, q, r);
      ConservesTrans(n, n1, SendOne(n1, q).0, e1, SendOne(n1, q).1, r);
    }
  }

  lemma {:induction false} SendAllConserves(n: Net, sends: seq<(seq<Call>, Callback)>, r: Request)
    ensures Conserves(n, SendAll(n, sends).0, SendAll(n, sends).1, r)
  {
    if sends != [] {
      var (calls, callback) := sends[|sends| - 1];
      var (n1, e1) := SendAll(n, sends[..|sends| - 1]);
      SendAllConserves(n, sends[..|sends| - 1], r);
      SendManyConserves(n1, calls, callback, r);
      ConservesTrans(n, n1, SendMany(n1, calls, callback).0, e1, SendMany(n1, calls, callback).1, r);
    }
  }

  lemma {:induction false} RenumberedWaiting(es: seq<Entry>, first: Id, r: Request)
    ensures Waiting(Renumbered(es, first), r) == Waiting(es, r)
  {
    if es != [] {
      var h := es[..|es| - 1];
      RenumberedWaiting(h, first, r);
      assert Renumbered(es, first)[..|h|] == Renumbered(h, first);
    }
  }

  lemma {:induction false} NotifyTallies(cs: seq<Callback>, k: Index, response: Response, r: Request)
    ensures Count(NotifyAll(cs, k, response), Issued(r)) == Answers(NotifyAll(cs, k, response), r) == 0
    ensures Count(NotifyAll(cs, k, response), Cancelled(r)) == 0
  {
    if cs != [] {
      var (es, e) := (NotifyAll(cs[..|cs| - 1], k, response), Notified(cs[|cs| - 1], k, response));
      NotifyTallies(cs[..|cs| - 1], k, response, r);
      assert (es + [e])[..|es|] == es;
    }
  }

  lemma {:induction false} CancelTallies(es: seq<Entry>, r: Request)
    ensures Count(CancelEvents(es), Cancelled(r)) == Waiting(es, r)
    ensures Count(CancelEvents(es), Issued(r)) == Answers(CancelEvents(es), r) == 0
  {
    if es != [] {
      var (fs, e) := (CancelEvents(es[..|es| - 1]), Cancelled(es[|es| - 1].request));
      CancelTallies(es[..|es| - 1], r);
      assert (fs + [e])[..|fs|] == fs;
    }
  }

  lemma ReplyConserves(n: Net, s: Server, id: Id, response: Response, r: Request)
    requires Valid(n) && s in n.connections && id in n.connections[s].unanswered
    ensures Conserves(n, Reply(n, s, id, response).0, Reply(n, s, id, response).1, r)
  {
    WithoutWaiting(n.unanswered, id, r);
    var k := IndexOf(n.connections[s].unanswered[id].call);
    var client := Find(n.unanswered, id);
    if client.Some? { TallyOne(Answered(client.value, response), r); } else { NotifyTallies(Subscribers(n, k), k, response, r); }
  }

  lemma SwitchConserves(n: Net, s: Server, own: seq<Call>, r: Request)
    requires Valid(n)
    ensures Waiting(Switch(n, s, own).unanswered, r) == Waiting(n.unanswered, r)
  {
    if s in n.connections && n.current != Some(s) {
      SwitchRefiles(n, s, own);
      RenumberedWaiting(n.unanswered, n.nextId, r);
    }
  }

  lemma CancelConserves(n: Net, callback: Callback, name: Option<string>, params: Option<Params>, r: Request)
    ensures Conserves(n, Cancel(n, callback, name, params).0, Cancel(n, callback, name, params).1, r)
  {
    SelectedWaiting(n.unanswered, callback, name, params, r);
    CancelTallies(Selected(n.unanswered, callback, name, params, true), r);
  }

  lemma StepConserves(n: Net, t: Throttle, a: Action, r: Request)
    requires Valid(n)
    ensures Conserves(n, Step(n, t, a).0, Step(n, t, a).1, r)
  {
    match a
    case SwitchTo(s, own) => SwitchConserves(n, s, own, r);
    case ProcessSends => SendAllConserves(n.(pending := []), n.pending, r);
    case Direct(q, via, max) => FileOnConserves(n, q, Target(n, via), r);
    case ReplyTo(s, id, response) =>
      if s in n.connections && id in n.connections[s].unanswered { ReplyConserves(n, s, id, response, r); }
    case CancelAll(cb, name, params) => CancelConserves(n, cb, name, params, r);
    case _ =>
  }

  /** Over every run, requests are neither lost nor duplicated. */
  lemma {:induction false} RunConserves(n: Net, t: Throttle, acts: seq<Action>, r: Request)
    requires Valid(n)
    ensures Conserves(n, Run(n, t, acts).0, Run(n, t, acts).1, r)
  {
    if acts != [] {
      var (h, a) := (acts[..|acts| - 1], acts[|acts| - 1]);
      var (n1, e1) := Run(n, t, h);
      RunConserves(n, t, h, r);
      RunAdvances(n, t, h);
      StepConserves(n1, t, a, r);
      ConservesTrans(n, n1, Step(n1, t, a).0, e1, Step(n1, t, a).1, r);
    }
  }

  /** From an empty table, a callback is never called more often for a request than it was issued. */
  lemma AnsweredAtMostOnce(n: Net, t: Throttle, acts: seq<Action>, r: Request)
    requires Valid(n) && n.unanswered == []
    ensures Answers(Run(n, t, acts).1, r) + Count(Run(n, t, acts).1, Cancelled(r)) <= Count(Run(n, t, acts).1, Issued(r))
  {
    RunConserves(n, t, acts, r);
  }

  // ---------------------------------------------------------------- late replies

  /** An id that is not filed now is never filed again: a reply to it answers no client request, and
      calls only subscribers, which a call that is not a subscription does not have. */
  lemma LateReplySilent(n: Net, t: Throttle, acts: seq<Action>, s: Server, id: Id, response: Response)
    requires Valid(n) && id < n.nextId && Find(n.unanswered, id).None?
    requires s in Run(n, t, acts).0.connections && id in Run(n, t, acts).0.connections[s].unanswered
    ensures
      var n' := Run(n, t, acts).0;
      var (call, es) := (n'.connections[s].unanswered[id].call, Step(n', t, ReplyTo(s, id, response)).1);
      && es == NotifyAll(Subscribers(n', IndexOf(call)), IndexOf(call), response)
      && (!IsSubscription(call.name) ==> es == [])
  {
    RunAdvances(n, t, acts);
  }

  /** In particular after a switch no reply to any old id reaches a client. */
  lemma RepliesFromBeforeSwitchSilent(n: Net, t: Throttle, s: Server, own: seq<Call>, acts: seq<Action>, d: Server, id: Id, response: Response)
    requires Valid(n) && s in n.connections && n.current != Some(s) && id < n.nextId
    requires d in Run(Switch(n, s, own), t, acts).0.connections
    requires id in Run(Switch(n, s, own), t, acts).0.connections[d].unanswered
    requires !IsSubscription(Run(Switch(n, s, own), t, acts).0.connections[d].unanswered[id].call.name)
    ensures Step(Run(Switch(n, s, own), t, acts).0, t, ReplyTo(d, id, response)).1 == []
  {
    SwitchRefiles(n, s, own);
    LateReplySilent(Switch(n, s, own), t, acts, d, id, response);
  }

  // ---------------------------------------------------------------- nothing is forgotten

  /** The connection still has the id to send, or to be answered. */
  ghost predicate Carries(c: Connection, id: Id) {
    id in c.unanswered || exists i :: 0 <= i < |c.unsent| && c.unsent[i].id == id
  }

  lemma CarriesQueued(c: Connection, w: Wire, id: Id)
    ensures Carries(Queued(c, w), w.id)
    ensures Carries(c, id) ==> Carries(Queued(c, w), id)
  {
    assert Queued(c, w).unsent[|c.unsent|] == w;
    if i :| 0 <= i < |c.unsent| && c.unsent[i].id == id { assert Queued(c, w).unsent[i].id == id; }
  }

  lemma {:induction false} WithWiresMeaning(m: map<Id, Wire>, ws: seq<Wire>)
    ensures forall id :: id in m ==> id in WithWires(m, ws)
    ensures forall i :: 0 <= i < |ws| ==> ws[i].id in WithWires(m, ws)
    ensures |WithWires(m, ws)| <= |m| + |ws|
  {
    if ws != [] {
      WithWiresMeaning(m, ws[..|ws| - 1]);
      assert forall i :: 0 <= i < |ws| - 1 ==> ws[..|ws| - 1][i] == ws[i];
    }
  }

  lemma CarriesSent(c: Connection, t: Throttle, id: Id)
    requires Carries(c, id)
    ensures Carries(Sent(c, t), id)
  {
    var k := NumRequests(c, t);
    WithWiresMeaning(c.unanswered, c.unsent[..k]);
    if i :| 0 <= i < |c.unsent| && c.unsent[i].id == id {
      if i < k { assert c.unsent[..k][i].id == id; } else { assert c.unsent[k..][i - k].id == id; }
    }
  }

  /** Ids on the wire have been taken. */
  ghost predicate WiresBelow(n: Net) {
    forall s, id: Id :: s in n.connections && Carries(n.connections[s], id) ==> id < n.nextId
  }

  /** Both states have the same connections, and the id is carried by the same ones. */
  ghost predicate SameCarriage(n: Net, n': Net, id: Id) {
    && n'.connections.Keys == n.connections.Keys
    && forall s :: s in n.connections ==> (Carries(n'.connections[s], id) <==> Carries(n.connections[s], id))
  }

  ghost predicate OnlyOn(n: Net, target: Option<Server>, id: Id) {
    forall s :: s in n.connections ==> (Carries(n.connections[s], id) <==> target == Some(s))
  }

  /** Requests filed between two states are carried by the target and by nothing else; the carriage of the
      older ones is unchanged. */
  ghost predicate FiledOn(n: Net, n': Net, target: Option<Server>) {
    && n.nextId <= n'.nextId && n'.connections.Keys == n.connections.Keys && WiresBelow(n')
    && forall e :: e in n'.unanswered ==>
         if e.id < n.nextId then e in n.unanswered && SameCarriage(n, n', e.id) else OnlyOn(n', target, e.id)
  }

  lemma FiledTrans(a: Net, b: Net, c: Net, target: Option<Server>)
    requires FiledOn(a, b, target) && FiledOn(b, c, target)
    ensures FiledOn(a, c, target)
  {
    forall e | e in c.unanswered
      ensures if e.id < a.nextId then e in a.unanswered && SameCarriage(a, c, e.id) else OnlyOn(c, target, e.id)
    {
      if e.id < b.nextId {
        assert e in b.unanswered && SameCarriage(b, c, e.id);
      }
    }
  }

  lemma CarriesQueuedOnly(c: Connection, w: Wire, id: Id)
    ensures Carries(Queued(c, w), id) <==> Carries(c, id) || id == w.id
  {
    CarriesQueued(c, w, id);
    if i :| 0 <= i < |Queued(c, w).unsent| && Queued(c, w).unsent[i].id == id {
      if i < |c.unsent| { assert c.unsent[i].id == id; }
    }
  }

  /** A call queued under a fresh id adds that id to its connection only. */
  lemma FreshWire(n: Net, s: Server, call: Call)
    requires WiresBelow(n)
    ensures var n' := OnWire(n.(nextId := n.nextId + 1), s, Wire(call, n.nextId));
            && WiresBelow(n') && n'.connections.Keys == n.connections.Keys
            && (forall id: Id :: id < n.nextId ==> SameCarriage(n, n', id))
            && OnlyOn(n', if s in n.connections then Some(s) else None, n.nextId)
  {
    if s in n.connections {
      forall id: Id ensures Carries(Queued(n.connections[s], Wire(call, n.nextId)), id)
                       <==> Carries(n.connections[s], id) || id == n.nextId
      {
        CarriesQueuedOnly(n.connections[s], Wire(call, n.nextId), id);
      }
    }
  }

  lemma FileOnFiles(n: Net, r: Request, target: Option<Server>)
    requires Valid(n) && WiresBelow(n) && (target.Some? ==> target.value in n.connections)
    ensures FiledOn(n, FileOn(n, r, target), target)
  {
    NothingFiled(n, target);
    var n' := FileOn(n, r, target);
    if target.Some? {
      FreshWire(n, target.value, r.call);
      var m := OnWire(n.(nextId := n.nextId + 1), target.value, Wire(r.call, n.nextId));
      assert n'.connections == m.connections;
      forall e | e in n.unanswered ensures SameCarriage(n, n', e.id) { assert SameCarriage(n, m, e.id); }
    }
    forall e | e in n'.unanswered
      ensures if e.id < n.nextId then e in n.unanswered && SameCarriage(n, n', e.id) else OnlyOn(n', target, e.id)
    {
      if e != Entry(n.nextId, r) { assert e in n.unanswered; }
    }
  }

  lemma SubscribeFiles(n: Net, r: Request, target: Option<Server>)
    requires Valid(n) && WiresBelow(n)
    ensures FiledOn(n, Subscribe(n, r), target)
  {
    var n' := Subscribe(n, r);
    assert n'.connections == n.connections && n'.unanswered == n.unanswered && n'.nextId == n.nextId;
    forall e | e in n.unanswered ensures e.id < n.nextId {
      var i :| 0 <= i < |n.unanswered| && n.unanswered[i] == e;
    }
  }

  lemma SendOneFiles(n: Net, r: Request)
    requires Valid(n) && WiresBelow(n)
    ensures FiledOn(n, SendOne(n, r).0, n.current)
  {
    var n' := if IsSubscription(r.call.name) then Subscribe(n, r) else n;
    if IsSubscription(r.call.name) { SubscribeFiles(n, r, n.current); } else { NothingFiled(n, n.current); }
    FileOnFiles(n', r, n'.current);
    FiledTrans(n, n', FileClient(n', r), n.current);
    assert SendOne(n, r).0 == n' || SendOne(n, r).0 == FileClient(n', r);
  }

  lemma {:induction false} SendManyFiles(n: Net, calls: seq<Call>, callback: Callback)
    requires Valid(n) && WiresBelow(n)
    ensures FiledOn(n, SendMany(n, calls, callback).0, n.current) && SendMany(n, calls, callback).0.current == n.current
  {
    if calls == [] {
      NothingFiled(n, n.current);
    } else {
      var (most, r) := (calls[..|calls| - 1], Request(calls[|calls| - 1], callback));
      var n1 := SendMany(n, most, callback).0;
      SendManyFiles(n, most, callback);
      SendManyAdvances(n, most, callback);
      SendOneFiles(n1, r);
      FiledTrans(n, n1, SendOne(n1, r).0, n.current);
    }
  }

  lemma {:induction false} SendAllFiles(n: Net, sends: seq<(seq<Call>, Callback)>)
    requires Valid(n) && WiresBelow(n)
    ensures FiledOn(n, SendAll(n, sends).0, n.current) && SendAll(n, sends).0.current == n.current
  {
    if sends == [] {
      NothingFiled(n, n.current);
    } else {
      var (most, (calls, callback)) := (sends[..|sends| - 1], sends[|sends| - 1]);
      var n1 := SendAll(n, most).0;
      SendAllFiles(n, most);
      SendAllAdvances(n, most);
      SendManyFiles(n1, calls, callback);
      FiledTrans(n, n1, SendMany(n1, calls, callback).0, n.current);
    }
  }

  lemma NothingFiled(n: Net, target: Option<Server>)
    requires Valid(n) && WiresBelow(n)
    ensures FiledOn(n, n, target)
  {
    forall e | e in n.unanswered ensures e.id < n.nextId {
      var i :| 0 <= i < |n.unanswered| && n.unanswered[i] == e;
    }
  }

  lemma {:induction false} RefileFiles(n: Net, es: seq<Entry>)
    requires Valid(n) && WiresBelow(n)
    ensures FiledOn(n, Refile(n, es), n.current) && Refile(n, es).current == n.current && Valid(Refile(n, es))
  {
    if es == [] {
      NothingFiled(n, n.current);
    } else {
      var (n1, r) := (Refile(n, es[..|es| - 1]), es[|es| - 1].request);
      RefileFiles(n, es[..|es| - 1]);
      FileOnFiles(n1, r, n1.current);
      FileOnAdvances(n1, r, n1.current);
      FiledTrans(n, n1, FileClient(n1, r), n.current);
    }
  }

  lemma QueueOwnFiles(n: Net, s: Server, c: Call, target: Option<Server>)
    requires Valid(n) && WiresBelow(n)
    ensures FiledOn(n, QueueOwn(n, s, c), target) && Valid(QueueOwn(n, s, c))
  {
    FreshWire(n, s, c);
    NothingFiled(n, target);
  }

  lemma {:induction false} QueueAllOwnFiles(n: Net, s: Server, own: seq<Call>, target: Option<Server>)
    requires Valid(n) && WiresBelow(n)
    ensures FiledOn(n, QueueAllOwn(n, s, own), target) && Valid(QueueAllOwn(n, s, own))
  {
    if own == [] {
      NothingFiled(n, target);
    } else {
      var n1 := QueueAllOwn(n, s, own[..|own| - 1]);
      QueueAllOwnFiles(n, s, own[..|own| - 1], target);
      QueueOwnFiles(n1, s, own[|own| - 1], target);
      FiledTrans(n, n1, QueueOwn(n1, s, own[|own| - 1]), target);
    }
  }

  lemma SwitchFiles(n: Net, s: Server, own: seq<Call>)
    requires Valid(n) && WiresBelow(n) && s in n.connections && n.current != Some(s)
    ensures FiledOn(n, Switch(n, s, own), Some(s))
  {
    var m := n.(current := Some(s), cache := map[], unanswered := []);
    var m' := Refile(m, n.unanswered);
    RefileFiles(m, n.unanswered);
    QueueAllOwnFiles(m', s, own, Some(s));
    FiledTrans(n, m, m', Some(s));
    FiledTrans(n, m', Switch(n, s, own), Some(s));
  }

  lemma CarriesSentOnly(c: Connection, t: Throttle, id: Id)
    ensures Carries(Sent(c, t), id) <==> Carries(c, id)
  {
    var k := NumRequests(c, t);
    if Carries(c, id) { CarriesSent(c, t, id); }
    if id in Sent(c, t).unanswered { WithWiresOnly(c.unanswered, c.unsent[..k], id); }
    if i :| 0 <= i < |c.unsent[k..]| && c.unsent[k..][i].id == id { assert c.unsent[i + k].id == id; }
    if i :| 0 <= i < k && c.unsent[..k][i].id == id { assert c.unsent[i].id == id; }
  }

  lemma {:induction false} WithWiresOnly(m: map<Id, Wire>, ws: seq<Wire>, id: Id)
    requires id in WithWires(m, ws)
    ensures id in m || exists i :: 0 <= i < |ws| && ws[i].id == id
  {
    if ws != [] && ws[|ws| - 1].id != id {
      var most := ws[..|ws| - 1];
      WithWiresOnly(m, most, id);
      if i :| 0 <= i < |most| && most[i].id == id { assert ws[i].id == id; }
    }
  }

  lemma TransmitFiles(n: Net, t: Throttle, s: Server, target: Option<Server>)
    requires Valid(n) && WiresBelow(n)
    ensures FiledOn(n, Step(n, t, Transmit(s)).0, target)
  {
    NothingFiled(n, target);
    if s in n.connections {
      forall id: Id ensures Carries(Sent(n.connections[s], t), id) <==> Carries(n.connections[s], id) {
        CarriesSentOnly(n.connections[s], t, id);
      }
    }
  }

  lemma ReplyFiles(n: Net, s: Server, id: Id, response: Response, target: Option<Server>)
    requires Valid(n) && WiresBelow(n) && s in n.connections && id in n.connections[s].unanswered
    ensures FiledOn(n, Reply(n, s, id, response).0, target)
  {
    NothingFiled(n, target);
    WithoutKeeps(n.unanswered, id);
    var c := n.connections[s];
    assert forall d: Id :: d != id ==> (Carries(AnsweredOn(c, id), d) <==> Carries(c, d));
    assert forall d: Id :: Carries(AnsweredOn(c, id), d) ==> Carries(c, d);
  }

  lemma CancelFiles(n: Net, callback: Callback, name: Option<string>, params: Option<Params>, target: Option<Server>)
    requires Valid(n) && WiresBelow(n)
    ensures FiledOn(n, Cancel(n, callback, name, params).0, target)
  {
    NothingFiled(n, target);
    SelectedKeeps(n.unanswered, callback, name, params);
  }

  // ---------------------------------------------------------------- where each request was queued

  /** The connection on which a step queues the client requests it files, if it is up and if there are any. */
  function Filing(n: Net, a: Action): Option<Server> {
    match a
    case SwitchTo(s, _) => if s in n.connections then Some(s) else None
    case Direct(_, via, _) => Target(n, via)
    case _ => n.current
  }

  /** The server whose connection goes down in a step. */
  function GoesDown(n: Net, a: Action): Option<Server> {
    match a
    case Disconnect(s) => Some(s)
    case ReplyTo(s, id, _) => if s in n.connections && id in n.connections[s].unanswered then None else Some(s)
    case _ => None
  }

  /** Where requests were queued, by id, as long as that connection stays up: a connection that goes down
      takes its ids away, and a step that files requests adds theirs. */
  ghost function PlacesAfter(n: Net, n': Net, a: Action, places: map<Id, Server>): map<Id, Server> {
    var kept := map id | id in places && GoesDown(n, a) != Some(places[id]) :: places[id];
    match Filing(n, a)
    case None => kept
    case Some(s) => kept + map id | id in FiledSince(n, n') :: s
  }

  ghost function FiledSince(n: Net, n': Net): set<Id> { set e | e in n'.unanswered && e.id >= n.nextId :: e.id }

  ghost function Places(n: Net, t: Throttle, acts: seq<Action>): map<Id, Server> {
    if acts == [] then map[]
    else
      var n1 := Run(n, t, acts[..|acts| - 1]).0;
      PlacesAfter(n1, Step(n1, t, acts[|acts| - 1]).0, acts[|acts| - 1], Places(n, t, acts[..|acts| - 1]))
  }

  /** A waiting request is carried by the connection it is recorded for, and by no other. */
  ghost predicate Placed(n: Net, places: map<Id, Server>) {
    forall e :: e in n.unanswered ==>
      (e.id in places ==> places[e.id] in n.connections) &&
      forall s :: s in n.connections ==> (Carries(n.connections[s], e.id) <==> e.id in places && places[e.id] == s)
  }

  /** A step that files on one connection and takes none down. */
  lemma FiledPlaced(n: Net, n': Net, a: Action, places: map<Id, Server>)
    requires Placed(n, places) && FiledOn(n, n', Filing(n, a)) && GoesDown(n, a).None?
    requires Filing(n, a).Some? ==> Filing(n, a).value in n.connections
    requires forall id :: id in places ==> id < n.nextId
    ensures Placed(n', PlacesAfter(n, n', a, places))
  {
    var places' := PlacesAfter(n, n', a, places);
    forall e | e in n'.unanswered
      ensures e.id in places' ==> places'[e.id] in n'.connections
      ensures forall s :: s in n'.connections ==> (Carries(n'.connections[s], e.id) <==> e.id in places' && places'[e.id] == s)
    {
      if e.id < n.nextId {
        assert SameCarriage(n, n', e.id);
        assert e.id in places' <==> e.id in places;
      } else {
        assert OnlyOn(n', Filing(n, a), e.id);
      }
    }
  }

  lemma StepFiles(n: Net, t: Throttle, a: Action)
    requires Valid(n) && WiresBelow(n) && GoesDown(n, a).None? && !a.Connect?
    ensures FiledOn(n, Step(n, t, a).0, Filing(n, a))
    ensures Filing(n, a).Some? ==> Filing(n, a).value in n.connections
  {
    match a
    case SwitchTo(s, own) =>
      if s in n.connections && n.current != Some(s) { SwitchFiles(n, s, own); } else { NothingFiled(n, Filing(n, a)); }
    case ProcessSends =>
      NothingFiled(n, n.current);
      SendAllFiles(n.(pending := []), n.pending);
    case Direct(r, via, q) =>
      NothingFiled(n, Target(n, via));
      FileOnFiles(n, r, Target(n, via));
    case OwnCall(s, c) =>
      NothingFiled(n, n.current);
      QueueOwnFiles(n, s, c, n.current);
    case Transmit(s) => TransmitFiles(n, t, s, n.current);
    case ReplyTo(s, id, r) => ReplyFiles(n, s, id, r, n.current);
    case CancelAll(cb, name, params) => CancelFiles(n, cb, name, params, n.current);
    case Queue(_, _) => NothingFiled(n, n.current);
  }

  /** A connection that comes up is empty, and one that goes down takes its requests away. */
  lemma ConnectionPlaced(n: Net, t: Throttle, a: Action, places: map<Id, Server>)
    requires Valid(n) && WiresBelow(n) && Placed(n, places) && (GoesDown(n, a).Some? || a.Connect?)
    ensures var n' := Step(n, t, a).0; WiresBelow(n') && Placed(n', PlacesAfter(n, n', a, places)) && n'.nextId == n.nextId
  {
    var n' := Step(n, t, a).0;
    var places' := PlacesAfter(n, n', a, places);
    forall s, id: Id | s in n'.connections && Carries(n'.connections[s], id)
      ensures s in n.connections && Carries(n.connections[s], id)
    {}
    forall e | e in n'.unanswered
      ensures e.id in places' ==> places'[e.id] in n'.connections
      ensures forall s :: s in n'.connections ==> (Carries(n'.connections[s], e.id) <==> e.id in places' && places'[e.id] == s)
    {
      assert e in n.unanswered;
    }
  }

  lemma PlacesBelow(n: Net, n': Net, a: Action, places: map<Id, Server>)
    requires Valid(n') && n.nextId <= n'.nextId && forall id :: id in places ==> id < n.nextId
    ensures forall id :: id in PlacesAfter(n, n', a, places) ==> id < n'.nextId
  {
    forall e | e in n'.unanswered ensures e.id < n'.nextId {
      var i :| 0 <= i < |n'.unanswered| && n'.unanswered[i] == e;
    }
  }

  lemma StepPlaced(n: Net, t: Throttle, a: Action, places: map<Id, Server>)
    requires Valid(n) && WiresBelow(n) && Placed(n, places) && forall id :: id in places ==> id < n.nextId
    ensures var (n', places') := (Step(n, t, a).0, PlacesAfter(n, Step(n, t, a).0, a, places));
            WiresBelow(n') && Placed(n', places') && forall id :: id in places' ==> id < n'.nextId
  {
    StepAdvances(n, t, a);
    if GoesDown(n, a).None? && !a.Connect? {
      StepFiles(n, t, a);
      FiledPlaced(n, Step(n, t, a).0, a, places);
    } else {
      ConnectionPlaced(n, t, a, places);
    }
    PlacesBelow(n, Step(n, t, a).0, a, places);
  }

  /** Over every run that starts with nothing waiting: a waiting request is carried exactly by the
      connection it was last queued on, if that connection has not gone down since; if it has, or if there
      was none, no connection carries it. */
  lemma {:induction false} CarriedWhereQueued(n: Net, t: Throttle, acts: seq<Action>)
    requires Valid(n) && WiresBelow(n) && n.unanswered == []
    ensures var (n', places) := (Run(n, t, acts).0, Places(n, t, acts));
            Placed(n', places) && WiresBelow(n') && forall id :: id in places ==> id < n'.nextId
  {
    if acts != [] {
      var h := acts[..|acts| - 1];
      CarriedWhereQueued(n, t, h);
      RunAdvances(n, t, h);
      StepPlaced(Run(n, t, h).0, t, acts[|acts| - 1], Places(n, t, h));
    }
  }

  /** Some live connection still has the request to send or to be answered. */
  ghost predicate OnItsWay(n: Net, id: Id) {
    exists s :: s in n.connections && Carries(n.connections[s], id)
  }

  /** So a waiting request is on its way if and only if the connection it was last queued on is up. */
  lemma OnItsWayExactly(n: Net, t: Throttle, acts: seq<Action>, e: Entry)
    requires Valid(n) && WiresBelow(n) && n.unanswered == [] && e in Run(n, t, acts).0.unanswered
    ensures OnItsWay(Run(n, t, acts).0, e.id) <==> e.id in Places(n, t, acts)
  {
    CarriedWhereQueued(n, t, acts);
    var (n', places) := (Run(n, t, acts).0, Places(n, t, acts));
    if e.id in places { assert Carries(n'.connections[places[e.id]], e.id); }
  }

  /** Two servers, the second one current. A request is sent through the first, which goes down: it keeps
      waiting although nothing carries it and the current connection is idle. */
  lemma StrandedRequest(t: Throttle, r: Request)
    ensures var idle := map[0 := NEW_CONNECTION, 1 := NEW_CONNECTION];
            var n := Net(0, [], Some(1), idle, map[], map[], []);
            var n' := Run(n, t, [Direct(r, Through(0), None), Disconnect(0)]).0;
            && Valid(n) && WiresBelow(n)
            && n'.unanswered == [Entry(0, r)] && n'.current == Some(1) && n'.connections == map[1 := NEW_CONNECTION]
            && !OnItsWay(n', 0)
  {
    var idle := map[0 := NEW_CONNECTION, 1 := NEW_CONNECTION];
    var n := Net(0, [], Some(1), idle, map[], map[], []);
    var (a, b) := (Direct(r, Through(0), None), Disconnect(0));
    assert [a, b][..1] == [a] && [a][..0] == [];
    var n1 := Step(n, t, a).0;
    assert Run(n, t, []).0 == n && Run(n, t, [a]).0 == n1;
    assert n1.connections == idle[0 := Queued(NEW_CONNECTION, Wire(r.call, 0))];
    assert Run(n, t, [a, b]).0 == Disconnected(n1, 0);
  }

  // ---------------------------------------------------------------- the current connection

  /** Every waiting client request is on its way over the current connection. */
  ghost predicate Tracked(n: Net) {
    n.current.Some? ==>
      n.current.value in n.connections &&
      forall i :: 0 <= i < |n.unanswered| ==> Carries(n.connections[n.current.value], n.unanswered[i].id)
  }

  /** A switch to another connected server rescues every waiting request, wherever it was queued. */
  lemma SwitchRescues(n: Net, s: Server, own: seq<Call>)
    requires Valid(n) && s in n.connections && n.current != Some(s)
    ensures Tracked(Switch(n, s, own)) && Switch(n, s, own).current == Some(s)
  {
    SwitchRefiles(n, s, own);
    var (n', ws) := (Switch(n, s, own), Wires(Renumbered(n.unanswered, n.nextId)));
    var k := |n.connections[s].unsent|;
    forall i | 0 <= i < |n'.unanswered| ensures Carries(n'.connections[s], n'.unanswered[i].id) {
      assert (n.connections[s].unsent + ws)[k + i] == ws[i];
      assert n'.connections[s].unsent[k + i].id == n'.unanswered[i].id;
    }
  }

  /** Filing on the current connection and keeping the carriage of older requests keeps this. */
  lemma FiledTracked(n: Net, n': Net)
    requires Valid(n) && Tracked(n) && FiledOn(n, n', n.current) && n'.current == n.current
    ensures Tracked(n')
  {
    if n.current.Some? {
      forall i | 0 <= i < |n'.unanswered| ensures Carries(n'.connections[n.current.value], n'.unanswered[i].id) {
        var e := n'.unanswered[i];
        assert e in n'.unanswered;
        if e.id < n.nextId { assert e in n.unanswered && SameCarriage(n, n', e.id); }
      }
    }
  }

  /** Requests on chosen connections are left to the connections they were queued on. */
  predicate PrimaryOnly(a: Action) { a.Direct? ==> a.via.Primary? }

  lemma StepTracked(n: Net, t: Throttle, a: Action)
    requires Valid(n) && WiresBelow(n) && Tracked(n) && PrimaryOnly(a)
    ensures Tracked(Step(n, t, a).0)
  {
    if a.SwitchTo? && n.current != Some(a.server) {
      if a.server in n.connections { SwitchRescues(n, a.server, a.own); }
    } else if GoesDown(n, a).None? && !a.Connect? {
      StepFiles(n, t, a);
      KeepsCurrent(n, t, a);
      FiledTracked(n, Step(n, t, a).0);
    }
  }

  lemma KeepsCurrent(n: Net, t: Throttle, a: Action)
    requires Valid(n) && WiresBelow(n) && GoesDown(n, a).None? && (a.SwitchTo? ==> n.current == Some(a.server))
    ensures Step(n, t, a).0.current == n.current
  {
    if a.ProcessSends? { SendAllFiles(n.(pending := []), n.pending); }
  }

  /** Over every run that queues its client requests on the current connection, each waiting request is on
      its way over the current connection: once that one has nothing to send and nothing unanswered, no
      client request is waiting. */
  lemma {:induction false} NothingForgotten(n: Net, t: Throttle, acts: seq<Action>)
    requires Valid(n) && WiresBelow(n) && n.unanswered == [] && forall i :: 0 <= i < |acts| ==> PrimaryOnly(acts[i])
    ensures Tracked(Run(n, t, acts).0)
    ensures
      var n' := Run(n, t, acts).0;
      n'.current.Some? && n'.connections[n'.current.value] == NEW_CONNECTION ==> n'.unanswered == []
  {
    if acts != [] {
      var (h, a) := (acts[..|acts| - 1], acts[|acts| - 1]);
      assert forall i :: 0 <= i < |h| ==> h[i] == acts[i];
      NothingForgotten(n, t, h);
      RunAdvances(n, t, h);
      CarriedWhereQueued(n, t, h);
      StepTracked(Run(n, t, h).0, t, a);
    }
    var n' := Run(n, t, acts).0;
    if n'.current.Some? && n'.unanswered != [] { assert Carries(n'.connections[n'.current.value], n'.unanswered[0].id); }
  }

  // ---------------------------------------------------------------- the throttle

  function Ceiling(t: Throttle): nat { if t.limit == 0 then 0 else t.limit - 1 + t.chunkSize }

  ghost predicate Throttled(n: Net, t: Throttle) {
    forall s :: s in n.connections ==> |n.connections[s].unanswered| <= Ceiling(t)
  }

  lemma SentThrottled(c: Connection, t: Throttle)
    requires |c.unanswered| <= Ceiling(t)
    ensures |Sent(c, t).unanswered| <= Ceiling(t)
  {
    WithWiresMeaning(c.unanswered, c.unsent[..NumRequests(c, t)]);
  }

  lemma SmallerWithout(m: map<Id, Wire>, id: Id)
    ensures |m - {id}| <= |m|
  {
    assert (m - {id}).Keys == m.Keys - {id};
    assert |(m - {id}).Keys| <= |m.Keys|;
  }

  /** What has been sent without an answer is touched only by sending and by replies. */
  ghost predicate SameUnanswered(n: Net, n': Net) {
    forall s :: s in n'.connections ==> s in n.connections && n'.connections[s].unanswered == n.connections[s].unanswered
  }

  lemma {:induction false} SendManySame(n: Net, calls: seq<Call>, callback: Callback)
    ensures SameUnanswered(n, SendMany(n, calls, callback).0)
  {
    if calls != [] { SendManySame(n, calls[..|calls| - 1], callback); }
  }

  lemma {:induction false} SendAllSame(n: Net, sends: seq<(seq<Call>, Callback)>)
    ensures SameUnanswered(n, SendAll(n, sends).0)
  {
    if sends != [] {
      SendAllSame(n, sends[..|sends| - 1]);
      SendManySame(SendAll(n, sends[..|sends| - 1]).0, sends[|sends| - 1].0, sends[|sends| - 1].1);
    }
  }

  lemma SwitchSame(n: Net, s: Server, own: seq<Call>)
    requires Valid(n)
    ensures SameUnanswered(n, Switch(n, s, own))
  {
    if s in n.connections && n.current != Some(s) {
      SwitchRefiles(n, s, own);
      var m := n.(current := Some(s), cache := map[], unanswered := []);
      RefileMeaning(m, n.unanswered);
      QueueAllOwnMeaning(Refile(m, n.unanswered), s, own);
    }
  }

  lemma StepThrottled(n: Net, t: Throttle, a: Action)
    requires Valid(n) && Throttled(n, t)
    ensures Throttled(Step(n, t, a).0, t)
  {
    match a
    case SwitchTo(s, own) => SwitchSame(n, s, own);
    case ProcessSends => SendAllSame(n.(pending := []), n.pending);
    case Transmit(s) => if s in n.connections { SentThrottled(n.connections[s], t); }
    case ReplyTo(s, id, r) =>
      if s in n.connections && id in n.connections[s].unanswered { ReplyThrottled(n, t, s, id, r); }
    case Direct(_, _, _) => QuietStep(n, t, a);
    case OwnCall(_, _) => QuietStep(n, t, a);
    case _ =>
  }

  lemma ReplyThrottled(n: Net, t: Throttle, s: Server, id: Id, response: Response)
    requires Throttled(n, t) && s in n.connections && id in n.connections[s].unanswered
    ensures Throttled(Reply(n, s, id, response).0, t)
  {
    SmallerWithout(n.connections[s].unanswered, id);
  }

  lemma QuietStep(n: Net, t: Throttle, a: Action)
    requires a.Direct? || a.OwnCall?
    ensures SameUnanswered(n, Step(n, t, a).0)
  {}

  /** Over every run each connection keeps fewer than limit + chunkSize requests unanswered. */
  lemma {:induction false} RunThrottled(n: Net, t: Throttle, acts: seq<Action>)
    requires Valid(n) && Throttled(n, t)
    ensures Throttled(Run(n, t, acts).0, t)
  {
    if acts != [] {
      RunThrottled(n, t, acts[..|acts| - 1]);
      RunAdvances(n, t, acts[..|acts| - 1]);
      StepThrottled(Run(n, t, acts[..|acts| - 1]).0, t, acts[|acts| - 1]);
    }
  }

  // ---------------------------------------------------------------- queued sends

  function CallCount(cs: seq<Call>, c: Call): nat {
    if cs == [] then 0 else CallCount(cs[..|cs| - 1], c) + (if cs[|cs| - 1] == c then 1 else 0)
  }

  /** How often a request is queued for sending. */
  function PendingCount(ps: seq<(seq<Call>, Callback)>, r: Request): nat {
    if ps == [] then 0
    else
      var p := ps[|ps| - 1];
      PendingCount(ps[..|ps| - 1], r) + (if p.1 == r.callback then CallCount(p.0, r.call) else 0)
  }

  lemma CallSnoc(cs: seq<Call>, c: Call, d: Call)
    ensures CallCount(cs + [c], d) == CallCount(cs, d) + (if c == d then 1 else 0)
  {
    assert (cs + [c])[..|cs|] == cs;
  }

  lemma PendingSnoc(ps: seq<(seq<Call>, Callback)>, p: (seq<Call>, Callback), r: Request)
    ensures PendingCount(ps + [p], r) == PendingCount(ps, r) + (if p.1 == r.callback then CallCount(p.0, r.call) else 0)
  {
    assert (ps + [p])[..|ps|] == ps;
  }

  lemma {:induction false} KeptCalls(cs: seq<Call>, callback: Callback, name: Option<string>, params: Option<Params>, c: Call)
    ensures CallCount(KeepCalls(cs, name, params), c)
         == if Matches(Request(c, callback), callback, name, params) then 0 else CallCount(cs, c)
  {
    if cs != [] {
      KeptCalls(cs[..|cs| - 1], callback, name, params, c);
      CallSnoc(KeepCalls(cs[..|cs| - 1], name, params), cs[|cs| - 1], c);
    }
  }

  function CallsFor(p: (seq<Call>, Callback), r: Request): nat {
    if p.1 == r.callback then CallCount(p.0, r.call) else 0
  }

  /** What remains of one queued send adds what it had for a request that does not match. */
  lemma CancelOne(kept: seq<(seq<Call>, Callback)>, p: (seq<Call>, Callback), callback: Callback,
                  name: Option<string>, params: Option<Params>, r: Request)
    requires p.1 == callback && !(name.None? && params.None?)
    ensures
      var calls := KeepCalls(p.0, name, params);
      var left := if calls == [] then kept else kept + [(calls, p.1)];
      PendingCount(left, r) == PendingCount(kept, r) + (if Matches(r, callback, name, params) then 0 else CallsFor(p, r))
  {
    KeptCalls(p.0, callback, name, params, r.call);
    var calls := KeepCalls(p.0, name, params);
    PendingSnoc(kept, (calls, p.1), r);
    if calls == [] { assert CallCount(calls, r.call) == 0; }
  }

  lemma PendingLast(ps: seq<(seq<Call>, Callback)>, r: Request)
    requires ps != []
    ensures PendingCount(ps, r) == PendingCount(ps[..|ps| - 1], r) + CallsFor(ps[|ps| - 1], r)
  {}

  /** A cancellation removes every queued occurrence of a matching request, and no other. */
  lemma {:induction false} CancelledPending(ps: seq<(seq<Call>, Callback)>, callback: Callback,
                                            name: Option<string>, params: Option<Params>, r: Request)
    ensures PendingCount(KeepPending(ps, callback, name, params), r)
         == if Matches(r, callback, name, params) then 0 else PendingCount(ps, r)
  {
    if ps != [] {
      var (rest, p) := (ps[..|ps| - 1], ps[|ps| - 1]);
      CancelledPending(rest, callback, name, params, r);
      PendingLast(ps, r);
      var kept := KeepPending(rest, callback, name, params);
      if p.1 != callback {
        PendingSnoc(kept, p, r);
      } else if !(name.None? && params.None?) {
        CancelOne(kept, p, callback, name, params, r);
      }
    }
  }

  lemma {:induction false} SendManyIssues(n: Net, calls: seq<Call>, callback: Callback, r: Request)
    requires !IsSubscription(r.call.name)
    ensures Count(SendMany(n, calls, callback).1, Issued(r)) == if callback == r.callback then CallCount(calls, r.call) else 0
    ensures SendMany(n, calls, callback).0.pending == n.pending
  {
    if calls != [] {
      var most := calls[..|calls| - 1];
      SendManyIssues(n, most, callback, r);
      var (n1, e1) := SendMany(n, most, callback);
      var last := Request(calls[|calls| - 1], callback);
      CountAppend(e1, SendOne(n1, last).1, Issued(r));
      CountOne(SendOne(n1, last).1[0], Issued(r));
    }
  }

  lemma {:induction false} SendAllIssues(n: Net, sends: seq<(seq<Call>, Callback)>, r: Request)
    requires !IsSubscription(r.call.name)
    ensures Count(SendAll(n, sends).1, Issued(r)) == PendingCount(sends, r)
    ensures SendAll(n, sends).0.pending == n.pending
  {
    if sends != [] {
      var (most, last) := (sends[..|sends| - 1], sends[|sends| - 1]);
      SendAllIssues(n, most, r);
      var (n1, e1) := SendAll(n, most);
      SendManyIssues(n1, last.0, last.1, r);
      CountAppend(e1, SendMany(n1, last.0, last.1).1, Issued(r));
    }
  }

  /** With a connection, every queued request that is not a subscription is issued exactly as often as it
      was queued, and the queue is empty afterwards; without one the queue stays. */
  lemma PendingIssued(n: Net, r: Request)
    requires !IsSubscription(r.call.name)
    ensures var (n', es) := ProcessPending(n);
            if n.current.Some? then Count(es, Issued(r)) == PendingCount(n.pending, r) && n'.pending == []
            else Count(es, Issued(r)) == 0 && n' == n
  {
    if n.current.Some? { SendAllIssues(n.(pending := []), n.pending, r); }
  }
}
