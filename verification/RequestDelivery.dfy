/** Queued requests leave in order and in time (electronfittexxcoin/interface.py:382-423). */
module RequestDelivery {
  import opened Arith
  import opened RequestModel
  import opened RequestTracking

  // ---------------------------------------------------------------- one transmission

  ghost predicate DistinctIds(ws: seq<Wire>) {
    forall i, j :: 0 <= i < j < |ws| ==> ws[i].id != ws[j].id
  }

  lemma {:induction false} WiresFiled(m: map<Id, Wire>, ws: seq<Wire>)
    requires DistinctIds(ws)
    ensures forall i :: 0 <= i < |ws| ==> ws[i].id in WithWires(m, ws) && WithWires(m, ws)[ws[i].id] == ws[i]
    ensures forall id :: id in m && (forall i :: 0 <= i < |ws| ==> ws[i].id != id) ==> id in WithWires(m, ws) && WithWires(m, ws)[id] == m[id]
  {
    if ws != [] {
      var most := ws[..|ws| - 1];
      assert forall i :: 0 <= i < |most| ==> most[i] == ws[i];
      WiresFiled(m, most);
    }
  }

  /** The first n queued requests have been sent, in order; the others still wait. */
  ghost predicate Moved(c: Connection, c': Connection, n: nat) {
    && n <= |c.unsent| && c'.unsent == c.unsent[n..]
    && (forall id :: id in c.unanswered ==> id in c'.unanswered)
    && (forall i :: 0 <= i < n ==> c.unsent[i].id in c'.unanswered)
    && (DistinctIds(c.unsent) ==> forall i :: 0 <= i < n ==> c'.unanswered[c.unsent[i].id] == c.unsent[i])
  }

  /** At the limit nothing is sent; below it a full chunk, or all that is queued if that is less. */
  lemma TransmissionMoves(c: Connection, t: Throttle)
    ensures |c.unanswered| >= t.limit ==> Sent(c, t) == c
    ensures |c.unanswered| < t.limit ==>
              exists n: nat :: Moved(c, Sent(c, t), n) && (n == t.chunkSize || (n == |c.unsent| && n < t.chunkSize))
  {
    var n := NumRequests(c, t);
    WithWiresMeaning(c.unanswered, c.unsent[..n]);
    assert forall i :: 0 <= i < n ==> c.unsent[..n][i] == c.unsent[i];
    if DistinctIds(c.unsent) { WiresFiled(c.unanswered, c.unsent[..n]); }
    assert c.unsent[0..] == c.unsent;
    if |c.unanswered| < t.limit { assert Moved(c, Sent(c, t), n); }
  }

  // ---------------------------------------------------------------- what other steps do to a queue

  /** Every connection is still up, with what was queued at the front of its queue. */
  ghost predicate Extends(n: Net, n': Net) {
    forall s :: s in n.connections ==> s in n'.connections && n.connections[s].unsent <= n'.connections[s].unsent
  }

  lemma FileExtends(n: Net, r: Request, target: Option<Server>)
    ensures Extends(n, FileOn(n, r, target))
  {}

  lemma {:induction false} RefileExtends(n: Net, es: seq<Entry>)
    ensures Extends(n, Refile(n, es))
  {
    if es != [] {
      RefileExtends(n, es[..|es| - 1]);
      var m := Refile(n, es[..|es| - 1]);
      FileExtends(m, es[|es| - 1].request, m.current);
    }
  }

  lemma {:induction false} QueueAllOwnExtends(n: Net, s: Server, cs: seq<Call>)
    ensures Extends(n, QueueAllOwn(n, s, cs))
  {
    if cs != [] { QueueAllOwnExtends(n, s, cs[..|cs| - 1]); }
  }

  lemma SwitchExtends(n: Net, s: Server, own: seq<Call>)
    ensures Extends(n, Switch(n, s, own))
  {
    if s in n.connections && n.current != Some(s) {
      var m := n.(current := Some(s), cache := map[], unanswered := []);
      RefileExtends(m, n.unanswered);
      QueueAllOwnExtends(Refile(m, n.unanswered), s, own);
    }
  }

  lemma SendOneExtends(n: Net, r: Request)
    ensures Extends(n, SendOne(n, r).0)
  {}

  lemma {:induction false} SendManyExtends(n: Net, calls: seq<Call>, callback: Callback)
    ensures Extends(n, SendMany(n, calls, callback).0)
  {
    if calls != [] {
      SendManyExtends(n, calls[..|calls| - 1], callback);
      SendOneExtends(SendMany(n, calls[..|calls| - 1], callback).0, Request(calls[|calls| - 1], callback));
    }
  }

  lemma {:induction false} SendAllExtends(n: Net, sends: seq<(seq<Call>, Callback)>)
    ensures Extends(n, SendAll(n, sends).0)
  {
    if sends != [] {
      SendAllExtends(n, sends[..|sends| - 1]);
      SendManyExtends(SendAll(n, sends[..|sends| - 1]).0, sends[|sends| - 1].0, sends[|sends| - 1].1);
    }
  }

  /** Nothing but a transmission takes requests off the queue of a connection that stays up. */
  lemma StepExtends(n: Net, t: Throttle, a: Action, s: Server)
    requires s in n.connections && GoesDown(n, a) != Some(s) && a != Transmit(s)
    ensures var n' := Step(n, t, a).0;
            s in n'.connections && n.connections[s].unsent <= n'.connections[s].unsent
  {
    match a
    case SwitchTo(q, own) => SwitchExtends(n, q, own);
    case ProcessSends => SendAllExtends(n.(pending := []), n.pending);
    case Direct(r, via, q) => FileExtends(n, r, Target(n, via));
    case _ =>
  }

  // ---------------------------------------------------------------- runs

  /** The connection is up at the start and does not go down. */
  ghost predicate StaysUp(n: Net, t: Throttle, acts: seq<Action>, s: Server) {
    if acts == [] then s in n.connections
    else
      var most := acts[..|acts| - 1];
      StaysUp(n, t, most, s) && GoesDown(Run(n, t, most).0, acts[|acts| - 1]) != Some(s)
  }

  /** The transmission happens while the connection is below the limit. */
  ghost predicate Effective(n: Net, t: Throttle, a: Action, s: Server) {
    a == Transmit(s) && s in n.connections && |n.connections[s].unanswered| < t.limit
  }

  ghost function Transmissions(n: Net, t: Throttle, acts: seq<Action>, s: Server): nat {
    if acts == [] then 0
    else
      var most := acts[..|acts| - 1];
      Transmissions(n, t, most, s) + (if Effective(Run(n, t, most).0, t, acts[|acts| - 1], s) then 1 else 0)
  }

  ghost predicate OnTheWire(n: Net, s: Server, id: Id) { s in n.connections && id in n.connections[s].unanswered }

  /** The request has been sent at some time of the run. */
  ghost predicate WasSent(n: Net, t: Throttle, acts: seq<Action>, s: Server, id: Id) {
    exists j :: 0 <= j <= |acts| && OnTheWire(Run(n, t, acts[..j]).0, s, id)
  }

  lemma StillSent(n: Net, t: Throttle, acts: seq<Action>, a: Action, s: Server, id: Id)
    ensures WasSent(n, t, acts, s, id) ==> WasSent(n, t, acts + [a], s, id)
    ensures OnTheWire(Run(n, t, acts + [a]).0, s, id) ==> WasSent(n, t, acts + [a], s, id)
  {
    if j :| 0 <= j <= |acts| && OnTheWire(Run(n, t, acts[..j]).0, s, id) {
      assert (acts + [a])[..j] == acts[..j];
    }
    assert (acts + [a])[..|acts| + 1] == acts + [a];
  }

  /** The first d requests of the queue have been sent, and the others stand at the front of what is queued
      now. */
  ghost predicate Departed(n: Net, t: Throttle, acts: seq<Action>, s: Server, d: nat)
    requires s in n.connections
  {
    var (q, n') := (n.connections[s].unsent, Run(n, t, acts).0);
    && d <= |q| && s in n'.connections && q[d..] <= n'.connections[s].unsent
    && forall k :: 0 <= k < d ==> WasSent(n, t, acts, s, q[k].id)
  }

  lemma DepartsFurther(n: Net, t: Throttle, acts: seq<Action>, a: Action, s: Server, d: nat) returns (d': nat)
    requires s in n.connections && Departed(n, t, acts, s, d) && t.chunkSize > 0
    requires GoesDown(Run(n, t, acts).0, a) != Some(s)
    ensures Departed(n, t, acts + [a], s, d')
    ensures d' >= d && (Effective(Run(n, t, acts).0, t, a, s) && d < |n.connections[s].unsent| ==> d' >= d + 1)
  {
    var (q, n1) := (n.connections[s].unsent, Run(n, t, acts).0);
    var c := n1.connections[s];
    assert (acts + [a])[..|acts|] == acts;
    forall k | 0 <= k < d ensures WasSent(n, t, acts + [a], s, q[k].id) { StillSent(n, t, acts, a, s, q[k].id); }
    if Effective(n1, t, a, s) {
      TransmissionMoves(c, t);
      var m: nat :| Moved(c, Sent(c, t), m) && (m == t.chunkSize || (m == |c.unsent| && m < t.chunkSize));
      d' := Min(|q|, d + m);
      QueueFront(q, c.unsent, d, m);
      forall k | d <= k < d' ensures WasSent(n, t, acts + [a], s, q[k].id) {
        assert q[k] == c.unsent[k - d];
        StillSent(n, t, acts, a, s, q[k].id);
      }
    } else {
      d' := d;
      if a == Transmit(s) { TransmissionMoves(c, t); } else { StepExtends(n1, t, a, s); }
    }
  }

  lemma QueueFront(q: seq<Wire>, unsent: seq<Wire>, d: nat, m: nat)
    requires d <= |q| && q[d..] <= unsent && m <= |unsent|
    ensures q[Min(|q|, d + m)..] <= unsent[m..]
    ensures forall k :: d <= k < |q| ==> q[k] == unsent[k - d]
  {
    forall k | d <= k < |q| ensures q[k] == unsent[k - d] { assert q[d..][k - d] == q[k]; }
    if d + m < |q| { assert q[d + m..] == q[d..][m..]; }
  }

  lemma {:induction false} DepartsOverRuns(n: Net, t: Throttle, acts: seq<Action>, s: Server) returns (d: nat)
    requires StaysUp(n, t, acts, s) && t.chunkSize > 0
    ensures s in n.connections && Departed(n, t, acts, s, d)
    ensures d >= Min(Transmissions(n, t, acts, s), |n.connections[s].unsent|)
  {
    if acts == [] {
      d := 0;
      assert Run(n, t, acts).0 == n;
    } else {
      var (most, a) := (acts[..|acts| - 1], acts[|acts| - 1]);
      var d0 := DepartsOverRuns(n, t, most, s);
      assert acts == most + [a];
      d := DepartsFurther(n, t, most, a, s, d0);
    }
  }

  /** While its connection stays up, the request at place k of a queue has been sent after at most k + 1
      transmissions made below the limit, whatever else happens in between. */
  lemma QueuedIsSent(n: Net, t: Throttle, acts: seq<Action>, s: Server, k: nat)
    requires StaysUp(n, t, acts, s) && t.chunkSize > 0
    requires s in n.connections && k < |n.connections[s].unsent| && k < Transmissions(n, t, acts, s)
    ensures WasSent(n, t, acts, s, n.connections[s].unsent[k].id)
  {
    var d := DepartsOverRuns(n, t, acts, s);
  }

  // ---------------------------------------------------------------- which call an id stands for

  /** Every id stands for one call, on the wire and in the table of client requests. */
  ghost predicate Agrees(n: Net, calls: map<Id, Call>) {
    && (forall id :: id in calls ==> id < n.nextId)
    && (forall e :: e in n.unanswered ==> e.id in calls && calls[e.id] == e.request.call)
    && (forall s :: s in n.connections ==> WiresAgree(n.connections[s], calls))
  }

  ghost predicate WiresAgree(c: Connection, calls: map<Id, Call>) {
    && (forall i :: 0 <= i < |c.unsent| ==> c.unsent[i].id in calls && calls[c.unsent[i].id] == c.unsent[i].call)
    && (forall id :: id in c.unanswered ==> id in calls && calls[id] == c.unanswered[id].call && c.unanswered[id].id == id)
  }

  lemma FileAgrees(n: Net, r: Request, target: Option<Server>, calls: map<Id, Call>)
    requires Agrees(n, calls)
    ensures Agrees(FileOn(n, r, target), calls[n.nextId := r.call])
  {
    var (n', m) := (FileOn(n, r, target), calls[n.nextId := r.call]);
    forall s | s in n'.connections ensures WiresAgree(n'.connections[s], m) { assert WiresAgree(n.connections[s], calls); }
  }

  lemma OwnAgrees(n: Net, s: Server, c: Call, calls: map<Id, Call>)
    requires Agrees(n, calls)
    ensures Agrees(QueueOwn(n, s, c), calls[n.nextId := c])
  {
    var (n', m) := (QueueOwn(n, s, c), calls[n.nextId := c]);
    forall q | q in n'.connections ensures WiresAgree(n'.connections[q], m) { assert WiresAgree(n.connections[q], calls); }
  }

  lemma {:induction false} RefileAgrees(n: Net, es: seq<Entry>, calls: map<Id, Call>) returns (m: map<Id, Call>)
    requires Agrees(n, calls)
    ensures Agrees(Refile(n, es), m)
  {
    m := calls;
    if es != [] {
      m := RefileAgrees(n, es[..|es| - 1], calls);
      var n1 := Refile(n, es[..|es| - 1]);
      FileAgrees(n1, es[|es| - 1].request, n1.current, m);
      m := m[n1.nextId := es[|es| - 1].request.call];
    }
  }

  lemma {:induction false} QueueAllOwnAgrees(n: Net, s: Server, cs: seq<Call>, calls: map<Id, Call>) returns (m: map<Id, Call>)
    requires Agrees(n, calls)
    ensures Agrees(QueueAllOwn(n, s, cs), m)
  {
    m := calls;
    if cs != [] {
      m := QueueAllOwnAgrees(n, s, cs[..|cs| - 1], calls);
      var n1 := QueueAllOwn(n, s, cs[..|cs| - 1]);
      OwnAgrees(n1, s, cs[|cs| - 1], m);
      m := m[n1.nextId := cs[|cs| - 1]];
    }
  }

  lemma SwitchAgrees(n: Net, s: Server, own: seq<Call>, calls: map<Id, Call>) returns (m: map<Id, Call>)
    requires Agrees(n, calls)
    ensures Agrees(Switch(n, s, own), m)
  {
    m := calls;
    if s in n.connections && n.current != Some(s) {
      var n1 := n.(current := Some(s), cache := map[], unanswered := []);
      m := RefileAgrees(n1, n.unanswered, calls);
      m := QueueAllOwnAgrees(Refile(n1, n.unanswered), s, own, m);
    }
  }

  lemma SendOneAgrees(n: Net, r: Request, calls: map<Id, Call>) returns (m: map<Id, Call>)
    requires Agrees(n, calls)
    ensures Agrees(SendOne(n, r).0, m)
  {
    var n1 := if IsSubscription(r.call.name) then Subscribe(n, r) else n;
    assert Agrees(n1, calls);
    if IsSubscription(r.call.name) && IndexOf(r.call) in n.cache {
      m := calls;
    } else {
      FileAgrees(n1, r, n1.current, calls);
      m := calls[n1.nextId := r.call];
    }
  }

  lemma {:induction false} SendManyAgrees(n: Net, cs: seq<Call>, callback: Callback, calls: map<Id, Call>) returns (m: map<Id, Call>)
    requires Agrees(n, calls)
    ensures Agrees(SendMany(n, cs, callback).0, m)
  {
    m := calls;
    if cs != [] {
      m := SendManyAgrees(n, cs[..|cs| - 1], callback, calls);
      m := SendOneAgrees(SendMany(n, cs[..|cs| - 1], callback).0, Request(cs[|cs| - 1], callback), m);
    }
  }

  lemma {:induction false} SendAllAgrees(n: Net, sends: seq<(seq<Call>, Callback)>, calls: map<Id, Call>) returns (m: map<Id, Call>)
    requires Agrees(n, calls)
    ensures Agrees(SendAll(n, sends).0, m)
  {
    m := calls;
    if sends != [] {
      m := SendAllAgrees(n, sends[..|sends| - 1], calls);
      m := SendManyAgrees(SendAll(n, sends[..|sends| - 1]).0, sends[|sends| - 1].0, sends[|sends| - 1].1, m);
    }
  }

  lemma {:induction false} WithWiresAgree(m: map<Id, Wire>, ws: seq<Wire>, calls: map<Id, Call>)
    requires WiresAgree(Connection(ws, m), calls)
    ensures WiresAgree(Connection([], WithWires(m, ws)), calls)
  {
    if ws != [] {
      var most := ws[..|ws| - 1];
      assert forall i :: 0 <= i < |most| ==> most[i] == ws[i];
      WithWiresAgree(m, most, calls);
    }
  }

  lemma SentAgrees(c: Connection, t: Throttle, calls: map<Id, Call>)
    requires WiresAgree(c, calls)
    ensures WiresAgree(Sent(c, t), calls)
  {
    var k := NumRequests(c, t);
    assert forall i :: 0 <= i < k ==> c.unsent[..k][i] == c.unsent[i];
    assert forall i :: 0 <= i < |c.unsent| - k ==> c.unsent[k..][i] == c.unsent[k + i];
    WithWiresAgree(c.unanswered, c.unsent[..k], calls);
  }

  lemma {:induction false} FoundEntry(es: seq<Entry>, id: Id)
    ensures Find(es, id).Some? ==> Entry(id, Find(es, id).value) in es
    ensures forall e :: e in Without(es, id) ==> e in es
  {
    if es != [] {
      FoundEntry(es[..|es| - 1], id);
      assert forall e :: e in es[..|es| - 1] ==> e in es;
    }
  }

  lemma ConnectionsAgree(n: Net, n': Net, calls: map<Id, Call>)
    requires Agrees(n, calls) && n'.nextId == n.nextId && (forall e :: e in n'.unanswered ==> e in n.unanswered)
    requires forall s :: s in n'.connections ==> WiresAgree(n'.connections[s], calls)
    ensures Agrees(n', calls)
  {}

  lemma ReplyAgrees(n: Net, s: Server, id: Id, response: Response, calls: map<Id, Call>)
    requires Agrees(n, calls) && s in n.connections && id in n.connections[s].unanswered
    ensures Agrees(Reply(n, s, id, response).0, calls)
  {
    var n' := Reply(n, s, id, response).0;
    FoundEntry(n.unanswered, id);
    forall q | q in n'.connections ensures WiresAgree(n'.connections[q], calls) { assert WiresAgree(n.connections[q], calls); }
    ConnectionsAgree(n, n', calls);
  }

  lemma StepAgrees(n: Net, t: Throttle, a: Action, calls: map<Id, Call>) returns (m: map<Id, Call>)
    requires Agrees(n, calls)
    ensures Agrees(Step(n, t, a).0, m)
  {
    m := calls;
    match a
    case SwitchTo(s, own) => m := SwitchAgrees(n, s, own, calls);
    case ProcessSends => if n.current.Some? { m := SendAllAgrees(n.(pending := []), n.pending, calls); }
    case Direct(r, via, q) =>
      if QueueClient(n, r, via, q).1.Some? {
        FileAgrees(n, r, Target(n, via), calls);
        m := calls[n.nextId := r.call];
      }
    case OwnCall(s, c) =>
      if s in n.connections {
        OwnAgrees(n, s, c, calls);
        m := calls[n.nextId := c];
      }
    case Transmit(s) => TransmitAgrees(n, t, s, calls);
    case ReplyTo(s, id, r) =>
      if s in n.connections && id in n.connections[s].unanswered { ReplyAgrees(n, s, id, r, calls); }
    case CancelAll(cb, name, params) => SelectedPart(n.unanswered, cb, name, params);
    case _ =>
  }

  lemma TransmitAgrees(n: Net, t: Throttle, s: Server, calls: map<Id, Call>)
    requires Agrees(n, calls)
    ensures Agrees(Step(n, t, Transmit(s)).0, calls)
  {
    if s in n.connections {
      var n' := Step(n, t, Transmit(s)).0;
      SentAgrees(n.connections[s], t, calls);
      forall q | q in n'.connections ensures WiresAgree(n'.connections[q], calls) { assert WiresAgree(n.connections[q], calls); }
      ConnectionsAgree(n, n', calls);
    }
  }

  lemma {:induction false} SelectedPart(es: seq<Entry>, callback: Callback, name: Option<string>, params: Option<Params>)
    ensures forall e :: e in Selected(es, callback, name, params, false) ==> e in es
  {
    if es != [] {
      SelectedPart(es[..|es| - 1], callback, name, params);
      assert forall e :: e in es[..|es| - 1] ==> e in es;
    }
  }

  lemma {:induction false} RunAgrees(n: Net, t: Throttle, acts: seq<Action>, calls: map<Id, Call>) returns (m: map<Id, Call>)
    requires Agrees(n, calls)
    ensures Agrees(Run(n, t, acts).0, m)
  {
    m := calls;
    if acts != [] {
      m := RunAgrees(n, t, acts[..|acts| - 1], calls);
      m := StepAgrees(Run(n, t, acts[..|acts| - 1]).0, t, acts[|acts| - 1], m);
    }
  }

  /** Over every run from the start: a reply that is handed to a client answers the very call this client
      made, and the client gets that reply. */
  lemma RightAnswer(t: Throttle, acts: seq<Action>, s: Server, id: Id, response: Response)
    requires var n := Run(Net(0, [], None, map[], map[], map[], []), t, acts).0;
             s in n.connections && id in n.connections[s].unanswered && Find(n.unanswered, id).Some?
    ensures
      var n := Run(Net(0, [], None, map[], map[], map[], []), t, acts).0;
      var r := Find(n.unanswered, id).value;
      && n.connections[s].unanswered[id] == Wire(r.call, id)
      && Step(n, t, ReplyTo(s, id, response)).1 == [Answered(r, response)]
  {
    var m := RunAgrees(Net(0, [], None, map[], map[], map[], []), t, acts, map[]);
    var n := Run(Net(0, [], None, map[], map[], map[], []), t, acts).0;
    FoundEntry(n.unanswered, id);
    assert WiresAgree(n.connections[s], m);
  }

  // ---------------------------------------------------------------- queued messages

  lemma {:induction false} RefilePending(n: Net, es: seq<Entry>)
    ensures Refile(n, es).pending == n.pending
  {
    if es != [] { RefilePending(n, es[..|es| - 1]); }
  }

  lemma {:induction false} OwnPending(n: Net, s: Server, cs: seq<Call>)
    ensures QueueAllOwn(n, s, cs).pending == n.pending
  {
    if cs != [] { OwnPending(n, s, cs[..|cs| - 1]); }
  }

  lemma SwitchPending(n: Net, s: Server, own: seq<Call>)
    ensures Switch(n, s, own).pending == n.pending
  {
    if s in n.connections && n.current != Some(s) {
      var m := n.(current := Some(s), cache := map[], unanswered := []);
      RefilePending(m, n.unanswered);
      OwnPending(Refile(m, n.unanswered), s, own);
    }
  }

  /** How often clients have handed in the request as a message. */
  ghost function HandedIn(acts: seq<Action>, r: Request): nat {
    if acts == [] then 0
    else
      HandedIn(acts[..|acts| - 1], r) +
      match acts[|acts| - 1]
      case Queue(calls, callback) => CallsFor((calls, callback), r)
      case _ => 0
  }

  /** How often it has been issued from the queue, or cancelled while it was queued. */
  ghost function TakenOut(n: Net, t: Throttle, acts: seq<Action>, r: Request): nat {
    if acts == [] then 0
    else
      var n1 := Run(n, t, acts[..|acts| - 1]).0;
      TakenOut(n, t, acts[..|acts| - 1], r) +
      match acts[|acts| - 1]
      case ProcessSends => Count(Step(n1, t, ProcessSends).1, Issued(r))
      case CancelAll(callback, name, params) => if Matches(r, callback, name, params) then PendingCount(n1.pending, r) else 0
      case _ => 0
  }

  lemma StepPending(n: Net, t: Throttle, a: Action, r: Request)
    requires !IsSubscription(r.call.name)
    ensures
      PendingCount(n.pending, r) + (if a.Queue? then CallsFor((a.calls, a.callback), r) else 0)
      == PendingCount(Step(n, t, a).0.pending, r) +
         (if a.ProcessSends? then Count(Step(n, t, a).1, Issued(r))
          else if a.CancelAll? && Matches(r, a.callback, a.name, a.params) then PendingCount(n.pending, r) else 0)
  {
    match a
    case Queue(calls, callback) =>
      if calls == [] { assert CallsFor((calls, callback), r) == 0; } else { PendingSnoc(n.pending, (calls, callback), r); }
    case ProcessSends => PendingIssued(n, r);
    case SwitchTo(s, own) => SwitchPending(n, s, own);
    case CancelAll(callback, name, params) => CancelledPending(n.pending, callback, name, params, r);
    case _ =>
  }

  /** Over every run: the messages queued at the start and those handed in since are still queued, or have
      been issued, or were cancelled. */
  lemma {:induction false} MessagesConserved(n: Net, t: Throttle, acts: seq<Action>, r: Request)
    requires !IsSubscription(r.call.name)
    ensures PendingCount(n.pending, r) + HandedIn(acts, r)
         == PendingCount(Run(n, t, acts).0.pending, r) + TakenOut(n, t, acts, r)
  {
    if acts != [] {
      MessagesConserved(n, t, acts[..|acts| - 1], r);
      StepPending(Run(n, t, acts[..|acts| - 1]).0, t, acts[|acts| - 1], r);
    }
  }
}
