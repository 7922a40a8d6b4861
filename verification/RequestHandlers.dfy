/** The handlers that update the request tables in place, proved against RequestModel
    (electronfittexxcoin/interface.py:353-423, electronfittexxcoin/network.py:448-521, 873-996, 1053-1074). */
module RequestHandlers {
  import opened RequestModel

  class Interface {
    var unsent: seq<Wire>
    var unanswered: map<Id, Wire>

    ghost function View(): Connection
      reads this
    {
      Connection(unsent, unanswered)
    }

    method QueueRequest(w: Wire)
      modifies this
      ensures View() == Queued(old(View()), w)
    {
      unsent := unsent + [w];
    }

    method SendRequests(t: Throttle)
      modifies this
      ensures View() == Sent(old(View()), t)
    {
      var n := NumRequests(Connection(unsent, unanswered), t);
      var wires := unsent[..n];
      unsent := unsent[n..];
      for i := 0 to |wires|
        invariant unsent == old(unsent)[n..]
        invariant unanswered == WithWires(old(unanswered), wires[..i])
      {
        assert wires[..i + 1][..i] == wires[..i];
        unanswered := unanswered[wires[i].id := wires[i]];
      }
      assert wires[..|wires|] == wires;
    }

    /** The request a reply belongs to, or None when the id is unknown on this connection. */
    method TakeReply(id: Id) returns (w: Option<Wire>)
      modifies this
      ensures id in old(unanswered) ==> w == Some(old(unanswered)[id]) && View() == AnsweredOn(old(View()), id)
      ensures id !in old(unanswered) ==> w == None && View() == old(View())
    {
      if id !in unanswered { return None; }
      w := Some(unanswered[id]);
      unanswered := unanswered - {id};
    }
  }

  class Network {
    var nextId: Id
    var unanswered: seq<Entry>
    var current: Option<Server>
    var connections: map<Server, Connection>
    var subscriptions: map<Index, seq<Callback>>
    var cache: map<Index, Response>
    var pending: seq<(seq<Call>, Callback)>

    ghost function View(): Net
      reads this
    {
      Net(nextId, unanswered, current, connections, subscriptions, cache, pending)
    }

    method Transmitted(s: Server, w: Wire)
      modifies this`connections
      ensures View() == OnWire(old(View()), s, w)
    {
      if s in connections { connections := connections[s := Queued(connections[s], w)]; }
    }

    /** `queue_request` for a client, on the current or a chosen connection. */
    method QueueRequest(r: Request, via: Via, maxQueue: Option<nat>) returns (id: Option<Id>)
      modifies this
      ensures (View(), id) == QueueClient(old(View()), r, via, maxQueue)
    {
      var interface := current;
      if via.Through? { interface := if via.server in connections then Some(via.server) else None; }
      var messageId := nextId;
      nextId := nextId + 1;
      if maxQueue.Some? && maxQueue.value != 0 && |unanswered| >= maxQueue.value { return None; }
      unanswered := unanswered + [Entry(messageId, r)];
      if interface.Some? { Transmitted(interface.value, Wire(r.call, messageId)); }
      return Some(messageId);
    }

    method QueueOwnRequest(s: Server, c: Call)
      modifies this
      ensures View() == QueueOwn(old(View()), s, c)
    {
      var messageId := nextId;
      nextId := nextId + 1;
      Transmitted(s, Wire(c, messageId));
    }

    /** Resends what is unanswered under new ids, then the network's own calls. */
    method SendSubscriptions(s: Server, own: seq<Call>)
      requires current == Some(s)
      modifies this
      ensures View() == QueueAllOwn(Refile(old(View()).(cache := map[], unanswered := []), old(unanswered)), s, own)
    {
      cache := map[];
      var oldRequests := unanswered;
      unanswered := [];
      ghost var start := View();
      for i := 0 to |oldRequests|
        invariant View() == Refile(start, oldRequests[..i])
      {
        assert oldRequests[..i + 1][..i] == oldRequests[..i];
        var id := QueueRequest(oldRequests[i].request, Primary, None);
      }
      assert oldRequests[..|oldRequests|] == oldRequests;
      ghost var refiled := View();
      for i := 0 to |own|
        invariant View() == QueueAllOwn(refiled, s, own[..i])
      {
        assert own[..i + 1][..i] == own[..i];
        QueueOwnRequest(s, own[i]);
      }
      assert own[..|own|] == own;
    }

    method SwitchToInterface(s: Server, own: seq<Call>)
      modifies this
      ensures View() == Switch(old(View()), s, own)
    {
      if s !in connections {
        current := None;
      } else if current != Some(s) {
        current := Some(s);
        SendSubscriptions(s, own);
      }
    }

    /** One message of a pending send; the events are the callbacks made. */
    method SendMessage(r: Request) returns (es: seq<Event>)
      modifies this
      ensures (View(), es) == SendOne(old(View()), r)
    {
      var k := IndexOf(r.call);
      if IsSubscription(r.call.name) {
        var l := if k in subscriptions then subscriptions[k] else [];
        subscriptions := subscriptions[k := if r.callback in l then l else l + [r.callback]];
        if k in cache { return [Notified(r.callback, k, cache[k])]; }
      }
      var id := QueueRequest(r, Primary, None);
      return [Issued(r)];
    }

    method SendMessages(calls: seq<Call>, callback: Callback) returns (es: seq<Event>)
      modifies this
      ensures (View(), es) == SendMany(old(View()), calls, callback)
    {
      es := [];
      for i := 0 to |calls|
        invariant (View(), es) == SendMany(old(View()), calls[..i], callback)
      {
        assert calls[..i + 1][..i] == calls[..i];
        var e := SendMessage(Request(calls[i], callback));
        es := es + e;
      }
      assert calls[..|calls|] == calls;
    }

    method ProcessPendingSends() returns (es: seq<Event>)
      modifies this
      ensures (View(), es) == ProcessPending(old(View()))
    {
      es := [];
      if current.None? { return; }
      var sends := pending;
      pending := [];
      ghost var start := View();
      for i := 0 to |sends|
        invariant (View(), es) == SendAll(start, sends[..i])
      {
        assert sends[..i + 1][..i] == sends[..i];
        var e := SendMessages(sends[i].0, sends[i].1);
        es := es + e;
      }
      assert sends[..|sends|] == sends;
    }

    /** A reply that its connection matched to a request it had sent. */
    method ProcessReply(s: Server, id: Id, response: Response) returns (es: seq<Event>)
      requires s in connections && id in connections[s].unanswered
      modifies this
      ensures (View(), es) == Reply(old(View()), s, id, response)
    {
      var call := connections[s].unanswered[id].call;
      connections := connections[s := AnsweredOn(connections[s], id)];
      var k := IndexOf(call);
      var client := Find(unanswered, id);
      unanswered := Without(unanswered, id);
      var callbacks := if k in subscriptions then subscriptions[k] else [];
      if IsSubscription(call.name) { cache := cache[k := response]; }
      es := if client.Some? then [Answered(client.value, response)] else NotifyAll(callbacks, k, response);
    }

    /** Scans a copy of the table and drops the matching entries. */
    method CancelRequests(callback: Callback, name: Option<string>, params: Option<Params>) returns (es: seq<Event>)
      modifies this
      ensures (View(), es) == Cancel(old(View()), callback, name, params)
    {
      var copy := unanswered;
      var kept, gone := [], [];
      for i := 0 to |copy|
        invariant kept == Selected(copy[..i], callback, name, params, false)
        invariant gone == Selected(copy[..i], callback, name, params, true)
      {
        assert copy[..i + 1][..i] == copy[..i];
        if Matches(copy[i].request, callback, name, params) {
          gone := gone + [copy[i]];
        } else {
          kept := kept + [copy[i]];
        }
      }
      assert copy[..|copy|] == copy;
      unanswered := kept;
      pending := KeepPending(pending, callback, name, params);
      es := CancelEvents(gone);
    }
  }
}
