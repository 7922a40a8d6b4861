/** Client requests across connections (electronfittexxcoin/network.py:448-521 and 868-1074,
    electronfittexxcoin/interface.py:353-423): what each step does to the tables, as functions. */
module RequestModel {
  import opened Arith

  datatype Option<T> = None | Some(value: T)

  type Id = nat
  type Callback = nat
  type Server = nat
  type Response = nat
  type Params = seq<string>

  datatype Call = Call(name: string, params: Params)

  /** Subscriptions and cached replies are looked up by name and first parameter. */
  datatype Index = Index(name: string, first: Option<string>)

  function IndexOf(c: Call): Index {
    Index(c.name, if c.params == [] then None else Some(c.params[0]))
  }

  predicate IsSubscription(name: string) {
    var suffix := ".subscribe";
    |name| >= |suffix| && name[|name| - |suffix|..] == suffix
  }

  datatype Request = Request(call: Call, callback: Callback)

  datatype Entry = Entry(id: Id, request: Request)

  datatype Wire = Wire(call: Call, id: Id)

  /** One connection: queued requests, and requests sent but not answered. */
  datatype Connection = Connection(unsent: seq<Wire>, unanswered: map<Id, Wire>)

  const NEW_CONNECTION := Connection([], map[])

  /** When to stop sending, and how much to send at a time. */
  datatype Throttle = Throttle(limit: nat, chunkSize: nat)

  /** The tables of the network; `unanswered` is in the insertion order of the source's dictionary. */
  datatype Net = Net(
    nextId: Id,
    unanswered: seq<Entry>,
    current: Option<Server>,
    connections: map<Server, Connection>,
    subscriptions: map<Index, seq<Callback>>,
    cache: map<Index, Response>,
    pending: seq<(seq<Call>, Callback)>)

  datatype Event =
    | Issued(request: Request)
    | Answered(request: Request, response: Response)
    | Cancelled(request: Request)
    | Notified(callback: Callback, index: Index, response: Response)

  // ---------------------------------------------------------------- one connection

  function Queued(c: Connection, w: Wire): Connection {
    c.(unsent := c.unsent + [w])
  }

  function NumRequests(c: Connection, t: Throttle): nat {
    if |c.unanswered| >= t.limit then 0 else Min(t.chunkSize, |c.unsent|)
  }

  function WithWires(m: map<Id, Wire>, ws: seq<Wire>): map<Id, Wire> {
    if ws == [] then m else WithWires(m, ws[..|ws| - 1])[ws[|ws| - 1].id := ws[|ws| - 1]]
  }

  function Sent(c: Connection, t: Throttle): Connection {
    var n := NumRequests(c, t);
    Connection(c.unsent[n..], WithWires(c.unanswered, c.unsent[..n]))
  }

  function AnsweredOn(c: Connection, id: Id): Connection {
    c.(unanswered := c.unanswered - {id})
  }

  // ---------------------------------------------------------------- the table of client requests

  /** How often a request is waiting for its answer. */
  function Waiting(es: seq<Entry>, r: Request): nat {
    if es == [] then 0 else Waiting(es[..|es| - 1], r) + (if es[|es| - 1].request == r then 1 else 0)
  }

  function Find(es: seq<Entry>, id: Id): (r: Option<Request>)
    ensures r.Some? <==> exists i :: 0 <= i < |es| && es[i].id == id
  {
    if es == [] then None
    else if es[|es| - 1].id == id then Some(es[|es| - 1].request)
    else
      assert forall i :: 0 <= i < |es| - 1 ==> es[..|es| - 1][i] == es[i];
      Find(es[..|es| - 1], id)
  }

  function Without(es: seq<Entry>, id: Id): seq<Entry> {
    if es == [] then []
    else if es[|es| - 1].id == id then Without(es[..|es| - 1], id)
    else Without(es[..|es| - 1], id) + [es[|es| - 1]]
  }

  predicate Matches(r: Request, callback: Callback, name: Option<string>, params: Option<Params>) {
    && r.callback == callback
    && (name.Some? ==> r.call.name == name.value)
    && (params.Some? ==> r.call.params == params.value)
  }

  /** The entries that a cancellation removes, or those it keeps. */
  function Selected(es: seq<Entry>, callback: Callback, name: Option<string>, params: Option<Params>, hit: bool): seq<Entry> {
    if es == [] then []
    else
      var rest := Selected(es[..|es| - 1], callback, name, params, hit);
      if Matches(es[|es| - 1].request, callback, name, params) == hit then rest + [es[|es| - 1]] else rest
  }

  // ---------------------------------------------------------------- filing requests

  /** Which connection carries a client request: the current one, or a chosen one. A random choice is a
      choice among the connected servers, and the current one (that is, none) when there are none. A chosen
      connection may have gone down since; then nothing carries the request. */
  datatype Via = Primary | Through(server: Server)

  function Target(n: Net, via: Via): Option<Server> {
    match via
    case Primary => n.current
    case Through(s) => if s in n.connections then Some(s) else None
  }

  /** A new id is taken, the client request is filed under it, and the call is queued on the target
      connection if there is one. */
  function FileOn(n: Net, r: Request, target: Option<Server>): Net {
    var n' := n.(nextId := n.nextId + 1, unanswered := n.unanswered + [Entry(n.nextId, r)]);
    if target.Some? then OnWire(n', target.value, Wire(r.call, n.nextId)) else n'
  }

  /** Filing on the current connection. */
  function FileClient(n: Net, r: Request): Net { FileOn(n, r, n.current) }

  function OnWire(n: Net, s: Server, w: Wire): Net {
    if s in n.connections then n.(connections := n.connections[s := Queued(n.connections[s], w)]) else n
  }

  /** `queue_request` with a callback: None when the queue is too full; the id is spent either way. */
  function QueueClient(n: Net, r: Request, via: Via, maxQueue: Option<nat>): (Net, Option<Id>) {
    if maxQueue.Some? && maxQueue.value != 0 && |n.unanswered| >= maxQueue.value then
      (n.(nextId := n.nextId + 1), None)
    else (FileOn(n, r, Target(n, via)), Some(n.nextId))
  }

  /** `queue_request` without a callback, on a given connection. */
  function QueueOwn(n: Net, s: Server, c: Call): Net {
    OnWire(n.(nextId := n.nextId + 1), s, Wire(c, n.nextId))
  }

  function QueueAllOwn(n: Net, s: Server, cs: seq<Call>): Net {
    if cs == [] then n else QueueOwn(QueueAllOwn(n, s, cs[..|cs| - 1]), s, cs[|cs| - 1])
  }

  /** Every old request is filed again, in order. */
  function Refile(n: Net, es: seq<Entry>): Net {
    if es == [] then n else FileClient(Refile(n, es[..|es| - 1]), es[|es| - 1].request)
  }

  /** A connected server becomes the current one: the unanswered requests are filed anew on it,
      followed by the network's own calls. */
  function Switch(n: Net, s: Server, own: seq<Call>): Net {
    if s !in n.connections then n.(current := None)
    else if n.current == Some(s) then n
    else QueueAllOwn(Refile(n.(current := Some(s), cache := map[], unanswered := []), n.unanswered), s, own)
  }

  // ---------------------------------------------------------------- sending, replies, cancelling

  function Subscribe(n: Net, r: Request): Net {
    var k := IndexOf(r.call);
    var l := if k in n.subscriptions then n.subscriptions[k] else [];
    n.(subscriptions := n.subscriptions[k := if r.callback in l then l else l + [r.callback]])
  }

  /** One queued message: subscriptions are recorded and may be answered from the cache. */
  function SendOne(n: Net, r: Request): (Net, seq<Event>) {
    var k := IndexOf(r.call);
    var n' := if IsSubscription(r.call.name) then Subscribe(n, r) else n;
    if IsSubscription(r.call.name) && k in n.cache then (n', [Notified(r.callback, k, n.cache[k])])
    else (FileClient(n', r), [Issued(r)])
  }

  function SendMany(n: Net, calls: seq<Call>, callback: Callback): (Net, seq<Event>) {
    if calls == [] then (n, [])
    else
      var (n1, e1) := SendMany(n, calls[..|calls| - 1], callback);
      var (n2, e2) := SendOne(n1, Request(calls[|calls| - 1], callback));
      (n2, e1 + e2)
  }

  function SendAll(n: Net, sends: seq<(seq<Call>, Callback)>): (Net, seq<Event>) {
    if sends == [] then (n, [])
    else
      var (n1, e1) := SendAll(n, sends[..|sends| - 1]);
      var (n2, e2) := SendMany(n1, sends[|sends| - 1].0, sends[|sends| - 1].1);
      (n2, e1 + e2)
  }

  /** Nothing is sent without a current connection. */
  function ProcessPending(n: Net): (Net, seq<Event>) {
    if n.current.None? then (n, []) else SendAll(n.(pending := []), n.pending)
  }

  function Subscribers(n: Net, k: Index): seq<Callback> {
    if k in n.subscriptions then n.subscriptions[k] else []
  }

  function NotifyAll(cs: seq<Callback>, k: Index, response: Response): (es: seq<Event>)
    ensures |es| == |cs|
  {
    if cs == [] then [] else NotifyAll(cs[..|cs| - 1], k, response) + [Notified(cs[|cs| - 1], k, response)]
  }

  function Cached(n: Net, c: Call, response: Response): Net {
    if IsSubscription(c.name) then n.(cache := n.cache[IndexOf(c) := response]) else n
  }

  /** A reply on a connection: the client request filed under the id, or else the subscribers. */
  function Reply(n: Net, s: Server, id: Id, response: Response): (Net, seq<Event>)
    requires s in n.connections && id in n.connections[s].unanswered
  {
    var call := n.connections[s].unanswered[id].call;
    var client := Find(n.unanswered, id);
    var n' := Cached(n.(connections := n.connections[s := AnsweredOn(n.connections[s], id)],
                        unanswered := Without(n.unanswered, id)), call, response);
    (n', if client.Some? then [Answered(client.value, response)]
         else NotifyAll(Subscribers(n, IndexOf(call)), IndexOf(call), response))
  }

  function CancelEvents(es: seq<Entry>): seq<Event> {
    if es == [] then [] else CancelEvents(es[..|es| - 1]) + [Cancelled(es[|es| - 1].request)]
  }

  function KeepCalls(cs: seq<Call>, name: Option<string>, params: Option<Params>): seq<Call> {
    if cs == [] then []
    else
      var rest := KeepCalls(cs[..|cs| - 1], name, params);
      var c := cs[|cs| - 1];
      if (name.Some? ==> c.name == name.value) && (params.Some? ==> c.params == params.value) then rest else rest + [c]
  }

  /** Queued sends of the callback lose the matching messages, and go when none is left. */
  function KeepPending(ps: seq<(seq<Call>, Callback)>, callback: Callback, name: Option<string>, params: Option<Params>)
    : seq<(seq<Call>, Callback)>
  {
    if ps == [] then []
    else
      var rest := KeepPending(ps[..|ps| - 1], callback, name, params);
      var p := ps[|ps| - 1];
      if p.1 != callback then rest + [p]
      else if name.None? && params.None? then rest
      else
        var kept := KeepCalls(p.0, name, params);
        if kept == [] then rest else rest + [(kept, p.1)]
  }

  function Cancel(n: Net, callback: Callback, name: Option<string>, params: Option<Params>): (Net, seq<Event>) {
    (n.(unanswered := Selected(n.unanswered, callback, name, params, false),
        pending := KeepPending(n.pending, callback, name, params)),
     CancelEvents(Selected(n.unanswered, callback, name, params, true)))
  }

  // ---------------------------------------------------------------- runs

  datatype Action =
    | Connect(server: Server)
    | Disconnect(server: Server)
    | SwitchTo(server: Server, own: seq<Call>)
    | Queue(calls: seq<Call>, callback: Callback)
    | ProcessSends
    | Direct(request: Request, via: Via, maxQueue: Option<nat>)
    | OwnCall(server: Server, call: Call)
    | Transmit(server: Server)
    | ReplyTo(server: Server, id: Id, response: Response)
    | CancelAll(callback: Callback, name: Option<string>, params: Option<Params>)

  function Disconnected(n: Net, s: Server): Net {
    n.(connections := n.connections - {s}, current := if n.current == Some(s) then None else n.current)
  }

  /** Steps on servers that are not connected do nothing; a reply with an unknown id drops the server. */
  function Step(n: Net, t: Throttle, a: Action): (Net, seq<Event>) {
    match a
    case Connect(s) =>
      (if s in n.connections then n else n.(connections := n.connections[s := NEW_CONNECTION]), [])
    case Disconnect(s) => (Disconnected(n, s), [])
    case SwitchTo(s, own) => (Switch(n, s, own), [])
    case Queue(cs, cb) => (if cs == [] then n else n.(pending := n.pending + [(cs, cb)]), [])
    case ProcessSends => ProcessPending(n)
    case Direct(r, via, q) =>
      var (n', id) := QueueClient(n, r, via, q);
      (n', if id.Some? then [Issued(r)] else [])
    case OwnCall(s, c) => (if s in n.connections then QueueOwn(n, s, c) else n, [])
    case Transmit(s) =>
      (if s in n.connections then n.(connections := n.connections[s := Sent(n.connections[s], t)]) else n, [])
    case ReplyTo(s, id, r) =>
      if s in n.connections && id in n.connections[s].unanswered then Reply(n, s, id, r) else (Disconnected(n, s), [])
    case CancelAll(cb, name, params) => Cancel(n, cb, name, params)
  }

  function Run(n: Net, t: Throttle, acts: seq<Action>): (Net, seq<Event>) {
    if acts == [] then (n, [])
    else
      var (n1, e1) := Run(n, t, acts[..|acts| - 1]);
      var (n2, e2) := Step(n1, t, acts[|acts| - 1]);
      (n2, e1 + e2)
  }
}
