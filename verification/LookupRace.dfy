/** The race between lookup servers and the callbacks waiting for its outcome
    (electronfittexxcoin/cashacct.py:690-749 and 1317-1357), as steps of the threads involved. */
module LookupRace {

  /** A server's thread: not started, looking up, about to call back, or finished. */
  datatype Worker = Idle | Running | CallingSuccess | CallingError | Finished

  /** The starting thread: about to start the next server, sleeping after a start, or returned. */
  datatype Starter = Starting | Sleeping | Returned

  datatype Outcome = Success(server: nat) | Failure(server: nat)

  datatype Race = Race(workers: seq<Worker>, next: nat, starter: Starter, ok: nat, err: nat, calls: seq<Outcome>)

  function NewRace(n: nat): Race {
    Race(seq(n, _ => Idle), 0, Starting, 0, 0, [])
  }

  datatype Move =
    | Start
    | Wake
    | LookupOk(i: nat)
    | LookupFailed(i: nat)
    | CallBack(i: nat)

  predicate Possible(r: Race, m: Move) {
    match m
    case Start => r.starter == Starting && r.next < |r.workers|
    case Wake => r.starter == Sleeping
    case LookupOk(i) => i < |r.workers| && r.workers[i] == Running
    case LookupFailed(i) => i < |r.workers| && r.workers[i] == Running
    case CallBack(i) => i < |r.workers| && (r.workers[i] == CallingSuccess || r.workers[i] == CallingError)
  }

  /** The locked section of `on_succ`: only the first success goes on to call back. */
  function OnSuccess(r: Race, i: nat): Race
    requires i < |r.workers|
  {
    if r.ok != 0 then r.(workers := r.workers[i := Finished])
    else r.(workers := r.workers[i := CallingSuccess], ok := r.ok + 1)
  }

  /** The locked section of `on_err`: only the last of all failures goes on to call back. */
  function OnFailure(r: Race, i: nat): Race
    requires i < |r.workers|
  {
    if r.ok != 0 then r.(workers := r.workers[i := Finished])
    else if r.err + 1 < |r.workers| then r.(workers := r.workers[i := Finished], err := r.err + 1)
    else r.(workers := r.workers[i := CallingError], err := r.err + 1)
  }

  function Step(r: Race, m: Move): Race
    requires Possible(r, m)
  {
    match m
    case Start => r.(workers := r.workers[r.next := Running], next := r.next + 1, starter := Sleeping)
    case Wake => r.(starter := if r.ok != 0 || r.next == |r.workers| then Returned else Starting)
    case LookupOk(i) => OnSuccess(r, i)
    case LookupFailed(i) => OnFailure(r, i)
    case CallBack(i) =>
      r.(workers := r.workers[i := Finished],
         calls := r.calls + [if r.workers[i] == CallingSuccess then Success(i) else Failure(i)])
  }

  /** No thread can move. */
  ghost predicate Quiescent(r: Race) {
    forall m :: !Possible(r, m)
  }

  // ---------------------------------------------------------------- counting workers

  function Count(ws: seq<Worker>, w: Worker): nat {
    if ws == [] then 0 else Count(ws[..|ws| - 1], w) + (if ws[|ws| - 1] == w then 1 else 0)
  }

  lemma {:induction false} CountUpdate(ws: seq<Worker>, i: nat, w: Worker, x: Worker)
    requires i < |ws|
    ensures Count(ws[i := w], x) == Count(ws, x) - (if ws[i] == x then 1 else 0) + (if w == x then 1 else 0)
  {
    var last := |ws| - 1;
    if i == last {
      assert ws[i := w][..last] == ws[..last];
    } else {
      CountUpdate(ws[..last], i, w, x);
      assert ws[i := w][..last] == ws[..last][i := w];
    }
  }

  lemma {:induction false} CountNone(ws: seq<Worker>, x: Worker)
    requires forall i :: 0 <= i < |ws| ==> ws[i] != x
    ensures Count(ws, x) == 0
  {
    if ws != [] { CountNone(ws[..|ws| - 1], x); }
  }

  lemma {:induction false} CountAll(ws: seq<Worker>, x: Worker)
    requires forall i :: 0 <= i < |ws| ==> ws[i] == x
    ensures Count(ws, x) == |ws|
  {
    if ws != [] { CountAll(ws[..|ws| - 1], x); }
  }

  // ---------------------------------------------------------------- the invariant

  /** Whether some thread has been chosen to call back. */
  ghost predicate Decided(r: Race) { r.ok == 1 || r.err == |r.workers| }

  ghost predicate Invariant(r: Race) {
    var (s, e, f) := (Count(r.workers, CallingSuccess), Count(r.workers, CallingError), Count(r.workers, Finished));
    && 0 < |r.workers| && r.next <= |r.workers| && r.ok <= 1
    && (forall i :: r.next <= i < |r.workers| ==> r.workers[i] == Idle)
    && (forall i :: 0 <= i < r.next ==> r.workers[i] != Idle)
    && (r.starter == Returned ==> r.ok == 1 || r.next == |r.workers|)
    && (r.starter == Starting ==> r.next < |r.workers|)
    // while nobody succeeded, the failures are the workers that are done
    && (r.ok == 0 ==> s == 0 && r.err == e + f)
    && (r.ok == 1 ==> e == 0 && r.err < |r.workers|)
    && |r.calls| + s + e == (if Decided(r) then 1 else 0)
    && (forall i :: 0 <= i < |r.calls| ==> (r.calls[i].Success? <==> r.ok == 1))
  }

  lemma InitialInvariant(n: nat)
    requires 0 < n
    ensures Invariant(NewRace(n))
  {
    var r := NewRace(n);
    CountNone(r.workers, CallingSuccess);
    CountNone(r.workers, CallingError);
    CountNone(r.workers, Finished);
  }

  lemma CountsAfter(ws: seq<Worker>, i: nat, w: Worker)
    requires i < |ws|
    ensures forall x :: Count(ws[i := w], x) == Count(ws, x) - (if ws[i] == x then 1 else 0) + (if w == x then 1 else 0)
  {
    forall x ensures Count(ws[i := w], x) == Count(ws, x) - (if ws[i] == x then 1 else 0) + (if w == x then 1 else 0) {
      CountUpdate(ws, i, w, x);
    }
  }

  lemma {:induction false} CountBound(ws: seq<Worker>)
    ensures Count(ws, CallingError) + Count(ws, Finished) + Count(ws, Running) <= |ws|
  {
    if ws != [] { CountBound(ws[..|ws| - 1]); }
  }

  lemma SuccessInvariant(r: Race, i: nat)
    requires Invariant(r) && Possible(r, LookupOk(i))
    ensures Invariant(OnSuccess(r, i))
  {
    CountBound(r.workers);
    CountsAfter(r.workers, i, Finished);
    CountsAfter(r.workers, i, CallingSuccess);
    RunningCounted(r.workers, i, Running);
  }

  lemma FailureInvariant(r: Race, i: nat)
    requires Invariant(r) && Possible(r, LookupFailed(i))
    ensures Invariant(OnFailure(r, i))
  {
    CountBound(r.workers);
    CountsAfter(r.workers, i, Finished);
    CountsAfter(r.workers, i, CallingError);
    RunningCounted(r.workers, i, Running);
  }

  lemma CallBackInvariant(r: Race, i: nat)
    requires Invariant(r) && Possible(r, CallBack(i))
    ensures Invariant(Step(r, CallBack(i)))
  {
    CountsAfter(r.workers, i, Finished);
    RunningCounted(r.workers, i, r.workers[i]);
  }

  /** Every move of every interleaving keeps the invariant. */
  lemma StepInvariant(r: Race, m: Move)
    requires Invariant(r) && Possible(r, m)
    ensures Invariant(Step(r, m))
  {
    match m
    case Start => CountsAfter(r.workers, r.next, Running);
    case Wake =>
    case LookupOk(i) => SuccessInvariant(r, i);
    case LookupFailed(i) => FailureInvariant(r, i);
    case CallBack(i) => CallBackInvariant(r, i);
  }

  lemma RunningCounted(ws: seq<Worker>, i: nat, x: Worker)
    requires i < |ws| && ws[i] == x
    ensures 1 <= Count(ws, x)
  {
    CountUpdate(ws, i, x, x);
    CountUpdate(ws, i, if x == Idle then Running else Idle, x);
  }

  /** When no thread can move, exactly one callback has been made: of success if any lookup succeeded
      before all failed, and otherwise of failure. */
  lemma ExactlyOneCallback(r: Race)
    requires Invariant(r) && Quiescent(r)
    ensures |r.calls| == 1 && (r.calls[0].Success? <==> r.ok == 1)
  {
    assert !Possible(r, Wake) && !Possible(r, Start);
    forall i | 0 <= i < |r.workers| ensures r.workers[i] == Idle || r.workers[i] == Finished {
      assert !Possible(r, LookupOk(i)) && !Possible(r, CallBack(i));
    }
    CountNone(r.workers, CallingSuccess);
    CountNone(r.workers, CallingError);
    if r.ok == 0 { CountAll(r.workers, Finished); }
  }

  // ---------------------------------------------------------------- every race ends

  /** Moves still possible: each server is started, slept on, answered and may call back once. */
  ghost function MovesLeft(r: Race): nat
    requires Invariant(r)
  {
    4 * (|r.workers| - r.next) + (if r.starter == Sleeping then 1 else 0)
    + 2 * Count(r.workers, Running) + Count(r.workers, CallingSuccess) + Count(r.workers, CallingError)
  }

  lemma MovesFall(r: Race, m: Move)
    requires Invariant(r) && Possible(r, m)
    ensures Invariant(Step(r, m)) && MovesLeft(Step(r, m)) < MovesLeft(r)
  {
    StepInvariant(r, m);
    match m
    case Start => CountsAfter(r.workers, r.next, Running);
    case Wake =>
    case LookupOk(i) =>
      CountsAfter(r.workers, i, Finished);
      CountsAfter(r.workers, i, CallingSuccess);
    case LookupFailed(i) =>
      CountsAfter(r.workers, i, Finished);
      CountsAfter(r.workers, i, CallingError);
    case CallBack(i) =>
      CountsAfter(r.workers, i, Finished);
  }

  /** A run of moves, each possible where it is made. */
  ghost predicate IsRun(r: Race, ms: seq<Move>)
    decreases |ms|
  {
    ms == [] || (Possible(r, ms[0]) && IsRun(Step(r, ms[0]), ms[1..]))
  }

  ghost function AfterRun(r: Race, ms: seq<Move>): Race
    requires IsRun(r, ms)
    decreases |ms|
  {
    if ms == [] then r else AfterRun(Step(r, ms[0]), ms[1..])
  }

  lemma {:induction false} RunInvariant(r: Race, ms: seq<Move>)
    requires Invariant(r) && IsRun(r, ms)
    ensures Invariant(AfterRun(r, ms)) && |ms| + MovesLeft(AfterRun(r, ms)) <= MovesLeft(r)
    decreases |ms|
  {
    if ms != [] {
      MovesFall(r, ms[0]);
      RunInvariant(Step(r, ms[0]), ms[1..]);
    }
  }

  /** Any interleaving of any number of servers makes at most 4n moves, never more than one callback,
      and exactly one when it can go no further. */
  lemma AnyInterleaving(n: nat, ms: seq<Move>)
    requires 0 < n && IsRun(NewRace(n), ms)
    ensures |ms| <= 4 * n
    ensures |AfterRun(NewRace(n), ms).calls| <= 1
    ensures Quiescent(AfterRun(NewRace(n), ms)) ==> |AfterRun(NewRace(n), ms).calls| == 1
  {
    var r := NewRace(n);
    InitialInvariant(n);
    CountNone(r.workers, Running);
    RunInvariant(r, ms);
    if Quiescent(AfterRun(r, ms)) { ExactlyOneCallback(AfterRun(r, ms)); }
  }
}
