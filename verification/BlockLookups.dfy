/** Callback pairs waiting for a block, served by one lookup race per block
    (electronfittexxcoin/cashacct.py:1317-1357), and the race's own locked sections as methods. */
module BlockLookups {
  import opened LookupRace

  /** A registered pair of callbacks: the block number it asked for, and which registration it was. */
  datatype Pair = Pair(number: nat, registration: nat)

  datatype Event = Registered(pair: Pair) | CalledSuccess(pair: Pair) | CalledError(pair: Pair)

  /** One started lookup. */
  datatype Lookup = Lookup(number: nat, race: Race)

  datatype State = State(inFlight: map<nat, seq<Pair>>, lookups: seq<Lookup>)

  /** `verify_block_asynch`: only the first pair for a block starts a lookup. */
  function Verify(s: State, p: Pair, servers: nat): State {
    var k := p.number;
    if k in s.inFlight then s.(inFlight := s.inFlight[k := s.inFlight[k] + [p]])
    else s.(inFlight := s.inFlight[k := [p]], lookups := s.lookups + [Lookup(k, NewRace(servers))])
  }

  function CallAll(ps: seq<Pair>, success: bool): (es: seq<Event>)
    ensures |es| == |ps|
  {
    seq(|ps|, i requires 0 <= i < |ps| => if success then CalledSuccess(ps[i]) else CalledError(ps[i]))
  }

  /** The outcome of a lookup: the block's pairs are popped and all called. A successful lookup whose
      result does not verify counts as an error. */
  function Resolve(s: State, k: nat, success: bool): (State, seq<Event>) {
    (s.(inFlight := s.inFlight - {k}), if k in s.inFlight then CallAll(s.inFlight[k], success) else [])
  }

  /** A move of lookup j; `verified` is what checking a successful result says. */
  function Advance(s: State, j: nat, m: Move, verified: bool): (State, seq<Event>)
    requires j < |s.lookups| && Possible(s.lookups[j].race, m)
  {
    var l := s.lookups[j];
    var s' := s.(lookups := s.lookups[j := l.(race := Step(l.race, m))]);
    if m.CallBack? then Resolve(s', l.number, verified && l.race.workers[m.i] == CallingSuccess) else (s', [])
  }

  datatype Action = Ask(pair: Pair) | Proceed(j: nat, move: Move, verified: bool)

  predicate Enabled(s: State, a: Action) {
    a.Proceed? ==> a.j < |s.lookups| && Possible(s.lookups[a.j].race, a.move)
  }

  function Act(s: State, servers: nat, a: Action): (State, seq<Event>)
    requires Enabled(s, a)
  {
    match a
    case Ask(p) => (Verify(s, p, servers), [Registered(p)])
    case Proceed(j, m, v) => Advance(s, j, m, v)
  }

  ghost predicate IsHistory(s: State, servers: nat, acts: seq<Action>)
    decreases |acts|
  {
    acts == [] || (Enabled(s, acts[0]) && IsHistory(Act(s, servers, acts[0]).0, servers, acts[1..]))
  }

  ghost function History(s: State, servers: nat, acts: seq<Action>): (State, seq<Event>)
    requires IsHistory(s, servers, acts)
    decreases |acts|
  {
    if acts == [] then (s, [])
    else
      var (s1, e1) := Act(s, servers, acts[0]);
      var (s2, e2) := History(s1, servers, acts[1..]);
      (s2, e1 + e2)
  }

  // ---------------------------------------------------------------- the invariant

  ghost predicate LiveFor(ls: seq<Lookup>, j: nat, k: nat)
    requires j < |ls|
  {
    ls[j].race.calls == [] && ls[j].number == k
  }

  /** Some lookup for the block has yet to report. */
  ghost predicate Served(ls: seq<Lookup>, k: nat) {
    exists j :: 0 <= j < |ls| && LiveFor(ls, j, k)
  }

  ghost predicate WellRun(ls: seq<Lookup>) {
    && (forall j :: 0 <= j < |ls| ==> LookupRace.Invariant(ls[j].race))
    && (forall i, j, k :: 0 <= i < j < |ls| && LiveFor(ls, i, k) ==> !LiveFor(ls, j, k))
  }

  /** A block is in flight exactly while one lookup for it has yet to report. */
  ghost predicate Consistent(s: State) {
    && WellRun(s.lookups)
    && (forall k :: k in s.inFlight <==> Served(s.lookups, k))
    && (forall k, i :: k in s.inFlight && 0 <= i < |s.inFlight[k]| ==> s.inFlight[k][i].number == k)
  }

  lemma StartedLookup(ls: seq<Lookup>, k: nat, servers: nat)
    requires WellRun(ls) && !Served(ls, k) && 0 < servers
    ensures
      var ls' := ls + [Lookup(k, NewRace(servers))];
      WellRun(ls') && forall q :: Served(ls', q) <==> Served(ls, q) || q == k
  {
    var ls' := ls + [Lookup(k, NewRace(servers))];
    InitialInvariant(servers);
    forall j, q | 0 <= j < |ls| ensures LiveFor(ls', j, q) <==> LiveFor(ls, j, q) {}
    forall q ensures Served(ls', q) <==> Served(ls, q) || q == k {
      if Served(ls, q) { var j :| 0 <= j < |ls| && LiveFor(ls, j, q); assert LiveFor(ls', j, q); }
      if q == k { assert LiveFor(ls', |ls|, q); }
    }
  }

  /** A lookup that moves on without reporting serves the same block. */
  lemma QuietLookup(ls: seq<Lookup>, j: nat, r: Race)
    requires WellRun(ls) && j < |ls| && LookupRace.Invariant(r) && r.calls == ls[j].race.calls
    ensures
      var ls' := ls[j := ls[j].(race := r)];
      WellRun(ls') && forall q :: Served(ls', q) <==> Served(ls, q)
  {
    var ls' := ls[j := ls[j].(race := r)];
    forall i, q | 0 <= i < |ls| ensures LiveFor(ls', i, q) <==> LiveFor(ls, i, q) {}
    forall q ensures Served(ls', q) <==> Served(ls, q) {
      if Served(ls, q) { var i :| 0 <= i < |ls| && LiveFor(ls, i, q); assert LiveFor(ls', i, q); }
    }
  }

  /** A lookup that reports was the one serving its block, which no lookup serves afterwards. */
  lemma ReportingLookup(ls: seq<Lookup>, j: nat, r: Race)
    requires WellRun(ls) && j < |ls| && LookupRace.Invariant(r) && ls[j].race.calls == [] && r.calls != []
    ensures
      var ls' := ls[j := ls[j].(race := r)];
      && WellRun(ls') && Served(ls, ls[j].number)
      && forall q :: Served(ls', q) <==> Served(ls, q) && q != ls[j].number
  {
    var (ls', k) := (ls[j := ls[j].(race := r)], ls[j].number);
    assert LiveFor(ls, j, k);
    forall i, q | 0 <= i < |ls| ensures LiveFor(ls', i, q) <==> LiveFor(ls, i, q) && i != j {}
    forall q ensures Served(ls', q) <==> Served(ls, q) && q != k {
      if Served(ls, q) && q != k { var i :| 0 <= i < |ls| && LiveFor(ls, i, q); assert LiveFor(ls', i, q); }
    }
  }

  lemma VerifyConsistent(s: State, p: Pair, servers: nat)
    requires Consistent(s) && 0 < servers
    ensures Consistent(Verify(s, p, servers))
  {
    if p.number !in s.inFlight { StartedLookup(s.lookups, p.number, servers); }
  }

  /** Only a lookup that has not reported yet can report. */
  lemma ReportsOnce(r: Race, i: nat)
    requires LookupRace.Invariant(r) && Possible(r, CallBack(i))
    ensures r.calls == [] && Step(r, CallBack(i)).calls != []
  {
    RunningCounted(r.workers, i, r.workers[i]);
  }

  lemma AdvanceConsistent(s: State, j: nat, m: Move, verified: bool)
    requires Consistent(s) && j < |s.lookups| && Possible(s.lookups[j].race, m)
    ensures Consistent(Advance(s, j, m, verified).0)
  {
    var r := s.lookups[j].race;
    StepInvariant(r, m);
    if m.CallBack? {
      ReportsOnce(r, m.i);
      ReportingLookup(s.lookups, j, Step(r, m));
    } else {
      QuietLookup(s.lookups, j, Step(r, m));
    }
  }

  lemma ActConsistent(s: State, servers: nat, a: Action)
    requires Consistent(s) && 0 < servers && Enabled(s, a)
    ensures Consistent(Act(s, servers, a).0)
  {
    match a
    case Ask(p) => VerifyConsistent(s, p, servers);
    case Proceed(j, m, v) => AdvanceConsistent(s, j, m, v);
  }

  // ---------------------------------------------------------------- every pair is called exactly once

  function CountPairs(ps: seq<Pair>, p: Pair): nat {
    if ps == [] then 0 else (if ps[0] == p then 1 else 0) + CountPairs(ps[1..], p)
  }

  ghost function Waiting(s: State, p: Pair): nat {
    if p.number in s.inFlight then CountPairs(s.inFlight[p.number], p) else 0
  }

  function Registrations(es: seq<Event>, p: Pair): nat {
    if es == [] then 0 else (if es[0] == Registered(p) then 1 else 0) + Registrations(es[1..], p)
  }

  /** Calls of either callback of the pair. */
  function Calls(es: seq<Event>, p: Pair): nat {
    if es == [] then 0
    else (if es[0] == CalledSuccess(p) || es[0] == CalledError(p) then 1 else 0) + Calls(es[1..], p)
  }

  lemma {:induction false} CountsAppend(a: seq<Event>, b: seq<Event>, p: Pair)
    ensures Registrations(a + b, p) == Registrations(a, p) + Registrations(b, p)
    ensures Calls(a + b, p) == Calls(a, p) + Calls(b, p)
  {
    if a == [] {
      assert a + b == b;
    } else {
      assert (a + b)[1..] == a[1..] + b;
      CountsAppend(a[1..], b, p);
    }
  }

  lemma {:induction false} PairsSnoc(ps: seq<Pair>, q: Pair, p: Pair)
    ensures CountPairs(ps + [q], p) == CountPairs(ps, p) + (if q == p then 1 else 0)
  {
    if ps == [] {
      assert ps + [q] == [q] && [q][1..] == [];
    } else {
      assert (ps + [q])[1..] == ps[1..] + [q];
      PairsSnoc(ps[1..], q, p);
    }
  }

  lemma {:induction false} CallAllCounts(ps: seq<Pair>, success: bool, p: Pair)
    ensures Calls(CallAll(ps, success), p) == CountPairs(ps, p) && Registrations(CallAll(ps, success), p) == 0
  {
    if ps != [] {
      assert CallAll(ps, success)[1..] == CallAll(ps[1..], success);
      CallAllCounts(ps[1..], success, p);
    }
  }

  lemma {:induction false} NoForeignPairs(ps: seq<Pair>, k: nat, p: Pair)
    requires p.number != k && forall i :: 0 <= i < |ps| ==> ps[i].number == k
    ensures CountPairs(ps, p) == 0
  {
    if ps != [] { NoForeignPairs(ps[1..], k, p); }
  }

  lemma ResolveConserves(s: State, k: nat, success: bool, p: Pair)
    requires forall i :: k in s.inFlight && 0 <= i < |s.inFlight[k]| ==> s.inFlight[k][i].number == k
    ensures
      var (s', es) := Resolve(s, k, success);
      Registrations(es, p) == 0 && Waiting(s, p) == Waiting(s', p) + Calls(es, p)
  {
    if k in s.inFlight {
      CallAllCounts(s.inFlight[k], success, p);
      if p.number != k { NoForeignPairs(s.inFlight[k], k, p); }
    }
  }

  /** A pair that was waiting or newly registered is still waiting or has been called. */
  lemma ActConserves(s: State, servers: nat, a: Action, p: Pair)
    requires Consistent(s) && Enabled(s, a)
    ensures
      var (s', es) := Act(s, servers, a);
      Waiting(s, p) + Registrations(es, p) == Waiting(s', p) + Calls(es, p)
  {
    match a
    case Ask(q) =>
      assert [Registered(q)][1..] == [];
      if q.number in s.inFlight { PairsSnoc(s.inFlight[q.number], q, p); } else { PairsSnoc([], q, p); assert [] + [q] == [q]; }
    case Proceed(j, m, v) =>
      var l := s.lookups[j];
      if m.CallBack? {
        var s' := s.(lookups := s.lookups[j := l.(race := Step(l.race, m))]);
        ResolveConserves(s', l.number, v && l.race.workers[m.i] == CallingSuccess, p);
      }
  }

  lemma {:induction false} HistoryConserves(s: State, servers: nat, acts: seq<Action>, p: Pair)
    requires Consistent(s) && 0 < servers && IsHistory(s, servers, acts)
    ensures
      var (s', es) := History(s, servers, acts);
      Consistent(s') && Waiting(s, p) + Registrations(es, p) == Waiting(s', p) + Calls(es, p)
    decreases |acts|
  {
    if acts != [] {
      var (s1, e1) := Act(s, servers, acts[0]);
      ActConsistent(s, servers, acts[0]);
      ActConserves(s, servers, acts[0], p);
      HistoryConserves(s1, servers, acts[1..], p);
      CountsAppend(e1, History(s1, servers, acts[1..]).1, p);
    }
  }

  /** From the start, in any order of registrations and thread moves: no pair is called more often
      than it was registered, and once no lookup can move every registration has been called. */
  lemma EachPairCalledOnce(servers: nat, acts: seq<Action>, p: Pair)
    requires 0 < servers && IsHistory(State(map[], []), servers, acts)
    ensures
      var (s, es) := History(State(map[], []), servers, acts);
      && Calls(es, p) <= Registrations(es, p)
      && ((forall j :: 0 <= j < |s.lookups| ==> Quiescent(s.lookups[j].race)) ==>
            s.inFlight == map[] && Calls(es, p) == Registrations(es, p))
  {
    HistoryConserves(State(map[], []), servers, acts, p);
    var (s, es) := History(State(map[], []), servers, acts);
    if forall j :: 0 <= j < |s.lookups| ==> Quiescent(s.lookups[j].race) {
      forall k | k in s.inFlight ensures false {
        var j :| 0 <= j < |s.lookups| && LiveFor(s.lookups, j, k);
        ExactlyOneCallback(s.lookups[j].race);
      }
    }
  }

  // ---------------------------------------------------------------- which callback is called

  function Occurrences(es: seq<Event>, e: Event): nat {
    if es == [] then 0 else (if es[0] == e then 1 else 0) + Occurrences(es[1..], e)
  }

  /** The move by which a lookup for the block reports. */
  predicate Reports(s: State, a: Action, number: nat)
    requires Enabled(s, a)
  {
    a.Proceed? && a.move.CallBack? && s.lookups[a.j].number == number
  }

  /** It reports a success that verifies. */
  predicate ReportsVerified(s: State, a: Action)
    requires Enabled(s, a)
  {
    a.Proceed? && a.move.CallBack? && s.lookups[a.j].race.workers[a.move.i] == CallingSuccess && a.verified
  }

  /** How often the pair was waiting when a lookup for its block reported a success that verified, or
      anything else. */
  ghost function Due(s: State, servers: nat, acts: seq<Action>, p: Pair, verified: bool): nat
    requires IsHistory(s, servers, acts)
    decreases |acts|
  {
    if acts == [] then 0
    else
      (if Reports(s, acts[0], p.number) && ReportsVerified(s, acts[0]) == verified then Waiting(s, p) else 0)
      + Due(Act(s, servers, acts[0]).0, servers, acts[1..], p, verified)
  }

  lemma {:induction false} OccurrencesAppend(a: seq<Event>, b: seq<Event>, e: Event)
    ensures Occurrences(a + b, e) == Occurrences(a, e) + Occurrences(b, e)
  {
    if a == [] {
      assert a + b == b;
    } else {
      assert (a + b)[1..] == a[1..] + b;
      OccurrencesAppend(a[1..], b, e);
    }
  }

  lemma {:induction false} CallAllOccurrences(ps: seq<Pair>, success: bool, p: Pair)
    ensures Occurrences(CallAll(ps, success), CalledSuccess(p)) == if success then CountPairs(ps, p) else 0
    ensures Occurrences(CallAll(ps, success), CalledError(p)) == if success then 0 else CountPairs(ps, p)
  {
    if ps != [] {
      assert CallAll(ps, success)[1..] == CallAll(ps[1..], success);
      CallAllOccurrences(ps[1..], success, p);
    }
  }

  lemma ActCalls(s: State, servers: nat, a: Action, p: Pair)
    requires Consistent(s) && Enabled(s, a)
    ensures
      var (due, ok) := (if Reports(s, a, p.number) then Waiting(s, p) else 0, ReportsVerified(s, a));
      && Occurrences(Act(s, servers, a).1, CalledSuccess(p)) == (if ok then due else 0)
      && Occurrences(Act(s, servers, a).1, CalledError(p)) == (if ok then 0 else due)
  {
    match a
    case Ask(q) => assert [Registered(q)][1..] == [];
    case Proceed(j, m, v) =>
      var k := s.lookups[j].number;
      if m.CallBack? && k in s.inFlight {
        CallAllOccurrences(s.inFlight[k], ReportsVerified(s, a), p);
        if p.number != k { NoForeignPairs(s.inFlight[k], k, p); }
      }
  }

  /** Over every history a pair's success callback is called exactly as often as the pair was waiting when a
      lookup for its block reported a success that verified, and its error callback exactly as often as it
      was waiting when one reported anything else. */
  lemma {:induction false} RightCallback(s: State, servers: nat, acts: seq<Action>, p: Pair)
    requires Consistent(s) && 0 < servers && IsHistory(s, servers, acts)
    ensures
      var es := History(s, servers, acts).1;
      && Occurrences(es, CalledSuccess(p)) == Due(s, servers, acts, p, true)
      && Occurrences(es, CalledError(p)) == Due(s, servers, acts, p, false)
    decreases |acts|
  {
    if acts != [] {
      var (s1, e1) := Act(s, servers, acts[0]);
      var e2 := History(s1, servers, acts[1..]).1;
      ActConsistent(s, servers, acts[0]);
      ActCalls(s, servers, acts[0], p);
      RightCallback(s1, servers, acts[1..], p);
      OccurrencesAppend(e1, e2, CalledSuccess(p));
      OccurrencesAppend(e1, e2, CalledError(p));
    }
  }

  /** Every report of the history is a success that verifies. */
  ghost predicate AllVerified(s: State, servers: nat, acts: seq<Action>)
    requires IsHistory(s, servers, acts)
    decreases |acts|
  {
    acts == [] ||
    ((forall k :: Reports(s, acts[0], k) ==> ReportsVerified(s, acts[0]))
     && AllVerified(Act(s, servers, acts[0]).0, servers, acts[1..]))
  }

  lemma {:induction false} NothingDue(s: State, servers: nat, acts: seq<Action>, p: Pair)
    requires IsHistory(s, servers, acts) && AllVerified(s, servers, acts)
    ensures Due(s, servers, acts, p, false) == 0
    decreases |acts|
  {
    if acts != [] { NothingDue(Act(s, servers, acts[0]).0, servers, acts[1..], p); }
  }

  /** When every lookup that reports succeeds and verifies, no error callback is called. */
  lemma NoErrorCalls(servers: nat, acts: seq<Action>, p: Pair)
    requires 0 < servers && IsHistory(State(map[], []), servers, acts) && AllVerified(State(map[], []), servers, acts)
    ensures CalledError(p) !in History(State(map[], []), servers, acts).1
  {
    RightCallback(State(map[], []), servers, acts, p);
    NothingDue(State(map[], []), servers, acts, p);
    NoOccurrence(History(State(map[], []), servers, acts).1, CalledError(p));
  }

  lemma {:induction false} NoOccurrence(es: seq<Event>, e: Event)
    requires Occurrences(es, e) == 0
    ensures e !in es
  {
    if es != [] { NoOccurrence(es[1..], e); }
  }

  // ---------------------------------------------------------------- the closures and the dictionary

  /** The variables shared by the closures of `lookup_asynch_all`. */
  class SharedCounters {
    var workers: seq<Worker>
    var next: nat
    var starter: Starter
    var ok: nat
    var err: nat
    var calls: seq<Outcome>

    ghost function View(): Race
      reads this
    {
      Race(workers, next, starter, ok, err, calls)
    }

    /** The locked section of `on_succ`; tells whether the success callback is to be called. */
    method SuccessSection(i: nat) returns (call: bool)
      requires i < |workers|
      modifies this
      ensures View() == OnSuccess(old(View()), i) && (call <==> workers[i] == CallingSuccess)
    {
      if ok != 0 {
        workers := workers[i := Finished];
        return false;
      }
      ok := ok + 1;
      workers := workers[i := CallingSuccess];
      return true;
    }

    /** The locked section of `on_err`; tells whether the error callback is to be called. */
    method ErrorSection(i: nat) returns (call: bool)
      requires i < |workers|
      modifies this
      ensures View() == OnFailure(old(View()), i) && (call <==> workers[i] == CallingError)
    {
      workers := workers[i := Finished];
      if ok != 0 { return false; }
      err := err + 1;
      if err < |workers| { return false; }
      workers := workers[i := CallingError];
      return true;
    }
  }

  class Verifier {
    var inFlight: map<nat, seq<Pair>>
    var lookups: seq<Lookup>

    ghost function View(): State
      reads this
    {
      State(inFlight, lookups)
    }

    method VerifyBlock(p: Pair, servers: nat)
      modifies this
      ensures View() == Verify(old(View()), p, servers)
    {
      var l := (if p.number in inFlight then inFlight[p.number] else []) + [p];
      assert p.number !in inFlight ==> l == [p];
      var first := p.number !in inFlight;
      inFlight := inFlight[p.number := l];
      if first { lookups := lookups + [Lookup(p.number, NewRace(servers))]; }
    }

    /** Pops the block's pairs and calls each of them. */
    method OnOutcome(k: nat, success: bool) returns (es: seq<Event>)
      modifies this`inFlight
      ensures (View(), es) == Resolve(old(View()), k, success)
    {
      var l := if k in inFlight then inFlight[k] else [];
      inFlight := inFlight - {k};
      es := [];
      for i := 0 to |l|
        invariant es == CallAll(l[..i], success)
      {
        assert CallAll(l[..i + 1], success) == CallAll(l[..i], success) + [if success then CalledSuccess(l[i]) else CalledError(l[i])];
        es := es + [if success then CalledSuccess(l[i]) else CalledError(l[i])];
      }
      assert l[..|l|] == l;
    }
  }
}
