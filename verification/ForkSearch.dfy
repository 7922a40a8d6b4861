/** Locating the fork point of a server's chain (electronfittexxcoin/network.py:1378-1492). The
    server's headers and the stored chains are fixed during a search; the tip may rise. */
module ForkSearch {
  import opened Arith

  datatype Option<T> = None | Some(value: T)

  /** Chains are named by their base height. */
  type ChainId = nat

  /** What the stored chains answer about the server's header at a height. */
  datatype World = World(
    chains: seq<ChainId>,
    holds: (ChainId, nat) -> bool,
    top: ChainId -> int,
    parent: ChainId -> ChainId,
    canConnect: (ChainId, nat) -> bool,
    catchingUp: ChainId -> bool,
    checkpoint: nat)

  /** There is a checkpoint above 0, and a chain holds nothing above its top. */
  ghost predicate Consistent(w: World) {
    && 0 < w.checkpoint
    && (forall c: ChainId, h: nat :: w.holds(c, h) ==> h <= w.top(c))
  }

  datatype Mode = Backward | Binary | CatchUp | Default

  datatype State = State(
    mode: Mode,
    good: nat,
    bad: nat,
    chain: Option<ChainId>,
    tip: nat,
    up: bool,
    request: Option<nat>)

  /** The first stored chain that holds the header, as `check_header` finds it. */
  function FindChain(w: World, chains: seq<ChainId>, height: nat): (c: Option<ChainId>)
    ensures c.Some? ==> c.value in chains && w.holds(c.value, height)
    ensures c.None? <==> forall i :: 0 <= i < |chains| ==> !w.holds(chains[i], height)
  {
    if chains == [] then None
    else if w.holds(chains[0], height) then Some(chains[0])
    else FindChain(w, chains[1..], height)
  }

  function CheckHeader(w: World, height: nat): Option<ChainId> { FindChain(w, w.chains, height) }

  /** One header reply in backward or binary mode, up to the decision whether the fork point is
      located: then no request is left. */
  function SearchStep(w: World, s: State, height: nat): State {
    var chain := CheckHeader(w, height);
    match s.mode
    case Backward =>
      if chain.Some? then
        s.(mode := Binary, chain := chain, good := height, request := Some((s.bad + height) / 2))
      else if height <= w.checkpoint then
        s.(up := false, mode := Default, request := None)
      else
        var delta := s.tip - height;
        s.(bad := height, request := Some(Max(w.checkpoint, s.tip - 2 * delta)))
    case Binary =>
      var s' := if chain.Some? then s.(good := height, chain := chain) else s.(bad := height);
      s'.(request := if s'.bad != s'.good + 1 then Some((s'.bad + s'.good) / 2) else None)
    case _ => s
  }

  predicate Located(s: State) {
    s.mode == Binary && s.request.None?
  }

  /** What is done once the fork point is known; `height` is that of the last header received. */
  function Finish(w: World, s: State, height: nat): State
    requires s.chain.Some?
  {
    var c := s.chain.value;
    var stop := s.(mode := Default, request := None);
    if !w.canConnect(c, s.bad) then stop.(up := false)
    else if s.bad in w.chains then
      if w.holds(s.bad, s.bad) then stop
      else if w.holds(w.parent(s.bad), height) then stop.(chain := Some(w.parent(s.bad)))
      else s.(mode := CatchUp, chain := Some(s.bad), request := Some(s.bad + 1))
    else if w.top(c) > s.good then
      if !w.holds(c, s.bad) then s.(mode := CatchUp, chain := Some(s.bad), request := Some(s.bad + 1))
      else stop
    else if !w.catchingUp(c) && w.top(c) < s.tip && w.top(c) >= 0 then
      s.(mode := CatchUp, request := Some((w.top(c) + 1) as nat))
    else stop
  }

  function OnHeader(w: World, s: State, height: nat): State {
    var s' := SearchStep(w, s, height);
    if s.mode == Binary && Located(s') && s'.chain.Some? then Finish(w, s', height) else s'
  }

  // ---------------------------------------------------------------- what every reply keeps

  /** The wanted header lies below the bad one; in binary mode the good one is held by the interface's
      chain. */
  ghost predicate Invariant(w: World, s: State) {
    && s.up && s.request.Some?
    && w.checkpoint <= s.request.value < s.bad <= s.tip
    && match s.mode
       case Backward => true
       case Binary => s.chain.Some? && s.good <= s.request.value && w.checkpoint <= s.good < s.bad
                      && CheckHeader(w, s.good) == s.chain && s.request.value == (s.bad + s.good) / 2
       case _ => false
  }

  /** The search is over: the bad header follows the good one, which the interface's chain holds. */
  ghost predicate AtForkPoint(w: World, s: State) {
    && s.up && s.bad == s.good + 1
    && s.chain.Some? && CheckHeader(w, s.good) == s.chain
  }

  ghost predicate DroppedAtCheckpoint(w: World, s: State) {
    !s.up && CheckHeader(w, w.checkpoint).None?
  }

  /** Phase, then distance still to cover; it does not depend on the tip. */
  ghost function Phase(s: State): nat { if s.mode == Backward then 1 else 0 }

  ghost function Distance(s: State): nat {
    if s.mode == Backward then (if s.request.Some? then s.request.value else 0)
    else if s.bad >= s.good then s.bad - s.good else 0
  }

  ghost predicate Searching(s: State) {
    (s.mode == Backward || s.mode == Binary) && s.request.Some?
  }

  /** A reply either ends the search, in one of the two intended ways, or keeps the invariant and
      brings it closer to its end. A new bad header is one that no stored chain holds. */
  lemma SearchStepProgress(w: World, s: State)
    requires Invariant(w, s)
    ensures
      var s' := SearchStep(w, s, s.request.value);
      && s'.tip == s.tip && (s'.bad == s.bad || CheckHeader(w, s'.bad).None?)
      && (if Searching(s') then
            Invariant(w, s') && (Phase(s') < Phase(s) || (Phase(s') == Phase(s) && Distance(s') < Distance(s)))
          else if Located(s') then AtForkPoint(w, s')
          else DroppedAtCheckpoint(w, s'))
  {}

  /** The tip reported by the server may rise at any time without disturbing the search. */
  lemma TipRises(w: World, s: State, tip: nat)
    requires Invariant(w, s) && s.tip <= tip
    ensures Invariant(w, s.(tip := tip)) && Phase(s.(tip := tip)) == Phase(s)
    ensures Distance(s.(tip := tip)) == Distance(s)
  {}

  // ---------------------------------------------------------------- whole searches

  /** Tips before the i-th reply, as increments. */
  type Rises = nat -> nat

  function Risen(s: State, rises: Rises, i: nat): State { s.(tip := s.tip + rises(i)) }

  /** The state when the search is over, whatever the tip does in between. */
  ghost function SearchResult(w: World, s: State, rises: Rises, i: nat): (r: State)
    requires Invariant(w, s)
    ensures if Located(r) then AtForkPoint(w, r) else DroppedAtCheckpoint(w, r)
    ensures r.bad == s.bad || CheckHeader(w, r.bad).None?
    decreases Phase(s), Distance(s)
  {
    var risen := Risen(s, rises, i);
    TipRises(w, s, risen.tip);
    SearchStepProgress(w, risen);
    var s' := SearchStep(w, risen, risen.request.value);
    if Searching(s') then SearchResult(w, s', rises, i + 1) else s'
  }

  /** A chain that holds the server's header at a height holds those below it, down to the checkpoint. */
  ghost predicate ConnectedDown(w: World) {
    forall c: ChainId, h: nat :: w.checkpoint <= h && w.holds(c, h + 1) ==> w.holds(c, h)
  }

  lemma {:induction false} HeldBelow(w: World, c: ChainId, high: nat, low: nat)
    requires ConnectedDown(w) && w.checkpoint <= low <= high && w.holds(c, high)
    ensures w.holds(c, low)
    decreases high
  {
    if low < high {
      var h: nat := high - 1;
      assert w.holds(c, h + 1);
      HeldBelow(w, c, h, low);
    }
  }

  lemma FoundBelow(w: World, high: nat, low: nat)
    requires ConnectedDown(w) && w.checkpoint <= low <= high && CheckHeader(w, high).Some?
    ensures CheckHeader(w, low).Some?
  {
    var c := CheckHeader(w, high).value;
    HeldBelow(w, c, high, low);
    var i :| 0 <= i < |w.chains| && w.chains[i] == c;
  }

  /** A search whose bad header is held by a chain never moves it and never drops the server. */
  lemma {:induction false} HeldBadStays(w: World, s: State, rises: Rises, i: nat)
    requires Invariant(w, s) && ConnectedDown(w) && CheckHeader(w, s.bad).Some?
    ensures var r := SearchResult(w, s, rises, i); Located(r) && r.bad == s.bad
    decreases Phase(s), Distance(s)
  {
    var risen := Risen(s, rises, i);
    TipRises(w, s, risen.tip);
    SearchStepProgress(w, risen);
    FoundBelow(w, s.bad, s.request.value);
    var s' := SearchStep(w, risen, risen.request.value);
    if Searching(s') { HeldBadStays(w, s', rises, i + 1); }
  }

  /** Every search that is not dropped ends with a bad header on no chain if and only if it started with
      one. */
  lemma BadHeaderIsNew(w: World, s: State, rises: Rises, i: nat)
    requires Invariant(w, s) && ConnectedDown(w)
    ensures var r := SearchResult(w, s, rises, i);
            Located(r) ==> (CheckHeader(w, r.bad).None? <==> CheckHeader(w, s.bad).None?)
  {
    if CheckHeader(w, s.bad).Some? { HeldBadStays(w, s, rises, i); }
  }

  // ---------------------------------------------------------------- how long a search takes

  /** Replies still to come, measured from a tip that was once reported: in backward mode the distance to
      it at least doubles, in binary mode the gap halves. */
  ghost function RepliesLeft(w: World, s: State, tip: nat): nat
    requires Invariant(w, s) && s.bad <= tip
  {
    if s.mode == Backward then
      var span := tip - w.checkpoint;
      DivBounds(span - 1, tip - s.request.value, 0);
      BitLength((span - 1) / (tip - s.request.value)) + BitLength(span - 1) + 2
    else BitLength(s.bad - s.good - 1) + 1
  }

  lemma QuotientFalls(n: nat, d: nat, d': nat)
    requires 0 < d <= d'
    ensures 0 <= n / d' <= n / d
  {
    DivBounds(n, d', 0);
    var q := n / d';
    DivBounds(n, d', q);
    MulMonotone(q, d, d');
    DivBounds(n, d, q);
  }

  lemma BackwardHalves(span: nat, d: nat, d': nat)
    requires 1 <= d < span && Min(span, 2 * d) <= d'
    ensures 0 <= (span - 1) / d' && 0 <= (span - 1) / d && BitLength((span - 1) / d') < BitLength((span - 1) / d)
  {
    var least := Min(span, 2 * d);
    var q := (span - 1) / d;
    DivBounds(span - 1, d, 1);
    QuotientFalls(span - 1, least, d');
    if 2 * d <= span { DivDiv(span - 1, d, 2); } else { ModSmall(span - 1, span); }
    BitLengthMonotone((span - 1) / d', q / 2);
  }

  /** Every reply that does not end the search leaves strictly fewer to come. */
  lemma RepliesFall(w: World, s: State, tip: nat)
    requires Invariant(w, s) && s.bad <= tip <= s.tip
    ensures Searching(SearchStep(w, s, s.request.value)) ==> Nearer(w, s, SearchStep(w, s, s.request.value), tip)
  {
    var s' := SearchStep(w, s, s.request.value);
    if Searching(s') {
      if s'.mode == Backward { StillBackward(w, s, tip); }
      else if s.mode == Backward { TurnsBinary(w, s, tip); }
      else { StaysBinary(w, s, tip); }
    }
  }

  ghost predicate Nearer(w: World, s: State, s': State, tip: nat)
    requires Invariant(w, s) && s.bad <= tip
  {
    Invariant(w, s') && s'.bad <= tip && RepliesLeft(w, s', tip) < RepliesLeft(w, s, tip)
  }

  lemma StillBackward(w: World, s: State, tip: nat)
    requires Invariant(w, s) && s.bad <= tip <= s.tip
    requires SearchStep(w, s, s.request.value).mode == Backward
    ensures Nearer(w, s, SearchStep(w, s, s.request.value), tip)
  {
    var s' := SearchStep(w, s, s.request.value);
    BackwardHalves(tip - w.checkpoint, tip - s.request.value, tip - s'.request.value);
  }

  lemma TurnsBinary(w: World, s: State, tip: nat)
    requires Invariant(w, s) && s.bad <= tip <= s.tip && s.mode == Backward
    requires SearchStep(w, s, s.request.value).mode == Binary
    ensures Nearer(w, s, SearchStep(w, s, s.request.value), tip)
  {
    var s' := SearchStep(w, s, s.request.value);
    assert Invariant(w, s') && s'.bad == s.bad by { SearchStepProgress(w, s); }
    BitLengthMonotone(s'.bad - s'.good - 1, tip - w.checkpoint - 1);
  }

  lemma StaysBinary(w: World, s: State, tip: nat)
    requires Invariant(w, s) && s.bad <= tip <= s.tip && s.mode == Binary
    requires Searching(SearchStep(w, s, s.request.value))
    ensures Nearer(w, s, SearchStep(w, s, s.request.value), tip)
  {
    var s' := SearchStep(w, s, s.request.value);
    GapHalves(s.bad - s.good - 1, s'.bad - s'.good - 1);
  }

  lemma GapHalves(gap: nat, gap': nat)
    requires 0 < gap && gap' <= gap / 2
    ensures BitLength(gap') < BitLength(gap)
  {
    BitLengthMonotone(gap', gap / 2);
  }

  /** How many replies the search takes. */
  ghost function Replies(w: World, s: State, rises: Rises, i: nat): (n: nat)
    requires Invariant(w, s)
    decreases Phase(s), Distance(s)
  {
    var risen := Risen(s, rises, i);
    TipRises(w, s, risen.tip);
    SearchStepProgress(w, risen);
    var s' := SearchStep(w, risen, risen.request.value);
    if Searching(s') then 1 + Replies(w, s', rises, i + 1) else 1
  }

  lemma {:induction false} RepliesBounded(w: World, s: State, rises: Rises, i: nat, tip: nat)
    requires Invariant(w, s) && s.bad <= tip <= s.tip
    ensures 1 <= Replies(w, s, rises, i) <= RepliesLeft(w, s, tip)
    decreases Phase(s), Distance(s)
  {
    var risen := Risen(s, rises, i);
    TipRises(w, s, risen.tip);
    SearchStepProgress(w, risen);
    RepliesFall(w, risen, tip);
    LeftIgnoresTip(w, s, risen, tip);
    var s' := SearchStep(w, risen, risen.request.value);
    if Searching(s') { RepliesBounded(w, s', rises, i + 1, tip); }
  }

  lemma LeftIgnoresTip(w: World, s: State, risen: State, tip: nat)
    requires Invariant(w, s) && Invariant(w, risen) && s.bad <= tip && risen == s.(tip := risen.tip)
    ensures 1 <= RepliesLeft(w, s, tip) == RepliesLeft(w, risen, tip)
  {}

  lemma BackwardLeft(w: World, s: State)
    requires Invariant(w, s) && s.mode == Backward
    ensures RepliesLeft(w, s, s.tip) <= 2 * BitLength(s.tip - w.checkpoint - 1) + 2
  {
    var (span, d) := (s.tip - w.checkpoint, s.tip - s.request.value);
    QuotientAtMost(span - 1, d);
    BitLengthMonotone((span - 1) / d, span - 1);
  }

  /** However the tip rises meanwhile, a backward search takes a number of requests that is logarithmic in
      the distance between the checkpoint and the tip it started with. */
  lemma SearchIsShort(w: World, s: State, rises: Rises)
    requires Invariant(w, s) && s.mode == Backward
    ensures Replies(w, s, rises, 0) <= 2 * BitLength(s.tip - w.checkpoint - 1) + 2
  {
    RepliesBounded(w, s, rises, 0, s.tip);
    BackwardLeft(w, s);
  }

  lemma QuotientAtMost(n: nat, d: nat)
    requires 0 < d
    ensures 0 <= n / d <= n
  {
    DivBounds(n, d, 0);
    DivBounds(n, d, n + 1);
    MulMonotone(n + 1, 1, d);
  }

  // ---------------------------------------------------------------- entering and leaving the search

  /** A server whose tip is on no chain, with local chains above the checkpoint: the first request. */
  function StartFromTip(w: World, s: State, localTip: nat): State
    requires 0 < s.tip
  {
    s.(mode := Backward, bad := s.tip, request := Some(Min(localTip, s.tip - 1)))
  }

  /** During catch-up a header is saved only if it follows the chain's top and connects to it. */
  predicate ConnectsNext(w: World, c: ChainId, height: nat) { w.top(c) == height - 1 && w.canConnect(c, height) }

  /** Any other header sends the search backward, whether or not a chain already holds it. */
  function GoBack(s: State, height: nat): State
    requires 0 < height
  {
    s.(mode := Backward, bad := height, request := Some(height - 1))
  }

  lemma EntriesEstablishInvariant(w: World, s: State, localTip: nat, height: nat)
    requires s.up
    ensures w.checkpoint < s.tip && w.checkpoint < localTip ==> Invariant(w, StartFromTip(w, s, localTip))
    ensures w.checkpoint < height <= s.tip ==> Invariant(w, GoBack(s, height))
  {}

  /** A header just above the reported tip, whose notification is still under way: if the chain does not
      hold the header at the tip either, the same request is repeated until the tip rises, and then the
      search goes on as usual. */
  lemma AheadOfTip(w: World, s: State, rise: nat)
    requires s.up && w.checkpoint < s.tip && 0 < rise
    ensures
      var first := SearchStep(w, GoBack(s, s.tip + 1), s.tip);
      if CheckHeader(w, s.tip).Some? then Located(SearchStep(w, first, s.tip)) && AtForkPoint(w, SearchStep(w, first, s.tip))
      else
        && first.request == Some(s.tip) && SearchStep(w, first, s.tip) == first
        && Invariant(w, SearchStep(w, first.(tip := s.tip + rise), s.tip))
  {}

  /** The state after n replies, or when the search is over. */
  ghost function Replied(w: World, s: State, rises: Rises, i: nat, n: nat): State
    decreases n
  {
    if n == 0 || !Searching(s) then s
    else Replied(w, SearchStep(w, Risen(s, rises, i), s.request.value), rises, i + 1, n - 1)
  }

  /** A search from the invariant ends after some number of replies. */
  lemma {:induction false} SearchEnds(w: World, s: State, rises: Rises, i: nat) returns (n: nat)
    requires Invariant(w, s)
    ensures Replied(w, s, rises, i, n) == SearchResult(w, s, rises, i) && !Searching(Replied(w, s, rises, i, n))
    decreases Phase(s), Distance(s)
  {
    var risen := Risen(s, rises, i);
    TipRises(w, s, risen.tip);
    SearchStepProgress(w, risen);
    var s' := SearchStep(w, risen, risen.request.value);
    var m := 0;
    if Searching(s') { m := SearchEnds(w, s', rises, i + 1); }
    ReplyFirst(w, s, rises, i, m);
    ResultFirst(w, s, rises, i);
    n := m + 1;
  }

  lemma ReplyFirst(w: World, s: State, rises: Rises, i: nat, n: nat)
    requires Searching(s)
    ensures Replied(w, s, rises, i, n + 1)
         == Replied(w, SearchStep(w, Risen(s, rises, i), s.request.value), rises, i + 1, n)
  {}

  lemma ResultFirst(w: World, s: State, rises: Rises, i: nat)
    requires Invariant(w, s)
    ensures
      var s' := SearchStep(w, Risen(s, rises, i), s.request.value);
      if Searching(s') then Invariant(w, s') && SearchResult(w, s, rises, i) == SearchResult(w, s', rises, i + 1)
      else SearchResult(w, s, rises, i) == s'
  {
    SearchStepProgress(w, Risen(s, rises, i));
  }

  /** The search comes to an end. */
  ghost predicate Ends(w: World, s: State, rises: Rises) {
    exists n :: !Searching(Replied(w, s, rises, 0, n))
  }

  /** The header at the reported tip is wanted, is on no chain, and is wanted again after the reply. */
  ghost predicate Waiting(w: World, s: State) {
    && s.up && s.mode == Backward && s.request == Some(s.tip)
    && w.checkpoint < s.tip <= s.bad && CheckHeader(w, s.tip).None?
  }

  /** The later request is p times as far from the tip as the earlier one, down to the checkpoint. */
  ghost predicate Reaches(w: World, s: State, later: State, p: nat) {
    s.request.Some? && later.request.Some? && later.request.value == Max(w.checkpoint, s.tip - p * (s.tip - s.request.value))
  }

  /** As long as no reply finds the server's header on a chain and the tip stays, request n reaches back
      2^n times as far from the tip as the first one, down to the checkpoint. */
  lemma {:induction false} ReachDoubles(w: World, s: State, rises: Rises, i: nat, n: nat)
    requires Invariant(w, s) && s.mode == Backward && (forall k :: rises(k) == 0)
    requires Replied(w, s, rises, i, n).mode == Backward
    ensures 0 <= Pow(2, n) && Reaches(w, s, Replied(w, s, rises, i, n), Pow(2, n))
    decreases n
  {
    PowPositive(2, n);
    if n != 0 {
      var s' := SearchStep(w, s, s.request.value);
      BackwardFirst(w, s, rises, i, n);
      ReachesBack(w, s);
      ReachDoubles(w, s', rises, i + 1, n - 1);
      PowPositive(2, n - 1);
      ReachesFurther(w, s, s', Replied(w, s', rises, i + 1, n - 1), Pow(2, n - 1));
    } else {
      assert Pow(2, 0) == 1;
    }
  }

  lemma BackwardFirst(w: World, s: State, rises: Rises, i: nat, n: nat)
    requires Searching(s) && rises(i) == 0 && n != 0 && Replied(w, s, rises, i, n).mode == Backward
    ensures
      var s' := SearchStep(w, s, s.request.value);
      s'.mode == Backward && Replied(w, s, rises, i, n) == Replied(w, s', rises, i + 1, n - 1)
  {
    var s' := SearchStep(w, s, s.request.value);
    assert Risen(s, rises, i) == s;
    ReplyFirst(w, s, rises, i, n - 1);
    if s'.mode != Backward { StaysBackward(w, s', rises, i + 1, n - 1); }
  }

  lemma ReachesFurther(w: World, s: State, s': State, later: State, p: nat)
    requires Invariant(w, s) && s'.tip == s.tip && 1 <= p && Reaches(w, s, s', 2) && Reaches(w, s', later, p)
    ensures Reaches(w, s, later, 2 * p)
  {
    var d := s.tip - s.request.value;
    assert s'.tip - s'.request.value == Min(s.tip - w.checkpoint, 2 * d);
    ReachStep(s.tip, w.checkpoint, d, p);
  }

  lemma ReachesBack(w: World, s: State)
    requires Invariant(w, s) && s.mode == Backward && SearchStep(w, s, s.request.value).mode == Backward
    ensures
      var s' := SearchStep(w, s, s.request.value);
      Invariant(w, s') && s'.tip == s.tip && Reaches(w, s, s', 2)
  {}

  lemma ReachStep(tip: int, checkpoint: int, d: nat, p: nat)
    requires checkpoint <= tip && 1 <= p
    ensures Max(checkpoint, tip - p * Min(tip - checkpoint, 2 * d)) == Max(checkpoint, tip - 2 * p * d)
  {
    if 2 * d <= tip - checkpoint {
      assert p * (2 * d) == 2 * p * d;
    } else {
      MulMonotone(tip - checkpoint, 1, p);
      MulMonotone(p, tip - checkpoint, 2 * d);
      assert p * (2 * d) == 2 * p * d;
    }
  }

  /** A search that is backward after some replies has been so all the time. */
  lemma {:induction false} StaysBackward(w: World, s: State, rises: Rises, i: nat, n: nat)
    requires s.mode != Backward
    ensures Replied(w, s, rises, i, n).mode != Backward
    decreases n
  {
    if n != 0 && Searching(s) {
      StaysBackward(w, SearchStep(w, Risen(s, rises, i), s.request.value), rises, i + 1, n - 1);
    }
  }

  lemma WaitingStep(w: World, s: State, rises: Rises, i: nat)
    requires Waiting(w, s)
    ensures var s' := SearchStep(w, Risen(s, rises, i), s.tip);
            if rises(i) == 0 then Waiting(w, s') && s'.tip == s.tip else Invariant(w, s')
  {}

  lemma {:induction false} WaitsOn(w: World, s: State, rises: Rises, i: nat, n: nat)
    requires Waiting(w, s) && forall k :: rises(k) == 0
    ensures Searching(Replied(w, s, rises, i, n))
    decreases n
  {
    if n != 0 {
      WaitingStep(w, s, rises, i);
      WaitsOn(w, SearchStep(w, Risen(s, rises, i), s.tip), rises, i + 1, n - 1);
    }
  }

  lemma {:induction false} WaitEnds(w: World, s: State, rises: Rises, i: nat, k: nat) returns (n: nat)
    requires Waiting(w, s) && i <= k && rises(k) > 0
    ensures !Searching(Replied(w, s, rises, i, n))
    decreases k - i
  {
    WaitingStep(w, s, rises, i);
    var s' := SearchStep(w, Risen(s, rises, i), s.tip);
    if rises(i) > 0 { n := SearchEnds(w, s', rises, i + 1); } else { n := WaitEnds(w, s', rises, i + 1, k); }
    n := n + 1;
  }

  /** A whole search that goes back from just above the reported tip ends if and only if a chain holds the
      header at the tip or the tip rises some time. */
  lemma AheadOfTipEnds(w: World, s: State, rises: Rises)
    requires s.up && w.checkpoint < s.tip
    ensures Ends(w, GoBack(s, s.tip + 1), rises) <==> CheckHeader(w, s.tip).Some? || exists k :: rises(k) > 0
  {
    var back := GoBack(s, s.tip + 1);
    if CheckHeader(w, s.tip).Some? {
      HeldTipEnds(w, s, rises);
    } else if k :| rises(k) > 0 {
      var n := WaitEnds(w, back, rises, 0, k);
    } else {
      forall n ensures Searching(Replied(w, back, rises, 0, n)) { WaitsOn(w, back, rises, 0, n); }
    }
  }

  lemma HeldTipEnds(w: World, s: State, rises: Rises)
    requires s.up && w.checkpoint < s.tip && CheckHeader(w, s.tip).Some?
    ensures !Searching(Replied(w, GoBack(s, s.tip + 1), rises, 0, 2))
  {
    var back := GoBack(s, s.tip + 1);
    var first := SearchStep(w, Risen(back, rises, 0), s.tip);
    assert first.request == Some(s.tip);
    assert Located(SearchStep(w, Risen(first, rises, 1), s.tip));
  }

  /** What follows at the fork point. The interface's chain reaches the good header, as the source asserts,
      and passes it if it holds the bad one. A bad header on no chain leads to a reorganisation, to
      rewriting the fork based at it, to a new fork, or to catching up. One that the chain of its own
      height or the interface's chain holds already is left alone. */
  lemma FinishCases(w: World, s: State, height: nat)
    requires Consistent(w) && AtForkPoint(w, s) && s.mode == Binary
    ensures
      var (c, r) := (s.chain.value, Finish(w, s, height));
      && s.good <= w.top(c) && (w.holds(c, s.bad) ==> s.good < w.top(c))
      && (r.up <==> w.canConnect(c, s.bad))
      && (r.up && s.bad in w.chains && w.holds(s.bad, s.bad) ==> r == s.(mode := Default, request := None))
      && (r.up && s.bad in w.chains && !w.holds(s.bad, s.bad) ==>
            (if w.holds(w.parent(s.bad), height) then r.mode == Default && r.chain == Some(w.parent(s.bad))
             else r.mode == CatchUp && r.chain == Some(s.bad) && r.request == Some(s.bad + 1)))
      && (r.up && s.bad !in w.chains && w.holds(c, s.bad) ==> r == s.(mode := Default, request := None))
      && (r.up && s.bad !in w.chains && !w.holds(c, s.bad) && w.top(c) > s.good ==>
            r.mode == CatchUp && r.chain == Some(s.bad) && r.request == Some(s.bad + 1))
      && (r.up && s.bad !in w.chains && w.top(c) <= s.good ==>
            w.top(c) == s.good && r.chain == s.chain &&
            (r.mode == CatchUp <==> !w.catchingUp(c) && s.good < s.tip) &&
            (r.mode == CatchUp ==> r.request == Some(s.bad)))
  {
    assert w.holds(s.chain.value, s.good);
  }

  /** A whole search for a new header ends in one of five ways: the server is dropped, at the checkpoint
      or because the header does not connect; the interface joins the parent of a fork of that height; it
      rests on a chain that ends at the good header, which another one extends or which is all the server
      has; or it catches up, either behind that end or behind the bad header on a chain based at it. It
      never stops because a chain holds the bad header. */
  lemma NewHeaderFinish(w: World, s: State, rises: Rises, i: nat, height: nat)
    requires Consistent(w) && Invariant(w, s) && CheckHeader(w, s.bad).None?
    requires Located(SearchResult(w, s, rises, i)) && Finish(w, SearchResult(w, s, rises, i), height).up
    ensures
      var at := SearchResult(w, s, rises, i);
      var (c, r) := (at.chain.value, Finish(w, at, height));
      || (r.mode == Default && at.bad in w.chains && w.holds(w.parent(at.bad), height) && r.chain == Some(w.parent(at.bad)))
      || (r.mode == Default && w.top(c) == at.good && r.chain == at.chain && (w.catchingUp(c) || at.tip <= at.good))
      || (r.mode == CatchUp && w.top(c) == at.good && r.chain == at.chain && r.request == Some(at.bad))
      || (r.mode == CatchUp && (at.bad in w.chains || at.good < w.top(c)) && r.chain == Some(at.bad)
          && r.request == Some(at.bad + 1))
  {
    var at := SearchResult(w, s, rises, i);
    assert w.holds(at.chain.value, at.good);
    NotHeld(w, at.chain.value, at.bad);
    if at.bad in w.chains { NotHeld(w, at.bad, at.bad); }
  }

  lemma NotHeld(w: World, c: ChainId, height: nat)
    requires c in w.chains && CheckHeader(w, height).None?
    ensures !w.holds(c, height)
  {}

  /** One chain with headers up to 10, above a checkpoint at 5. */
  function SharedTip(): World {
    World([0], (c, h) => c == 0 && h <= 10, _ => 10, _ => 0, (c, h) => h <= 11, _ => true, 5)
  }

  /** The server catches up on the chain, but another server's notification stored header 10 there first:
      the reply for height 10 no longer follows the top and sends the search backward from a header that
      the chain holds. Two replies later the search stops quietly with that bad header still on the chain. */
  lemma CatchUpFromHeldHeader()
    ensures
      var (w, s) := (SharedTip(), State(CatchUp, 0, 0, Some(0), 10, true, Some(10)));
      && Consistent(w) && ConnectedDown(w) && !ConnectsNext(w, 0, 10) && Invariant(w, GoBack(s, 10))
      && var s1 := OnHeader(w, GoBack(s, 10), 9);
         var s2 := OnHeader(w, s1, 9);
         && s1.request == Some(9)
         && s2 == State(Default, 9, 10, Some(0), 10, true, None)
         && CheckHeader(w, s2.bad) == Some(0)
  {
    var w := SharedTip();
    assert w.chains[1..] == [];
  }

  // ---------------------------------------------------------------- the handler

  class Interface {
    var mode: Mode
    var good: nat
    var bad: nat
    var chain: Option<ChainId>
    var tip: nat
    var up: bool
    var request: Option<nat>

    ghost function View(): State
      reads this
    {
      State(mode, good, bad, chain, tip, up, request)
    }

    /** The reply to the outstanding header request. */
    method OnHeaderReply(w: World)
      requires Consistent(w) && Invariant(w, View())
      modifies this
      ensures View() == OnHeader(w, old(View()), old(request.value))
    {
      var height := request.value;
      var found := CheckHeader(w, height);
      SearchStepProgress(w, View());
      if mode == Backward {
        if found.Some? {
          mode, chain, good := Binary, found, height;
          request := Some((bad + good) / 2);
        } else if height <= w.checkpoint {
          up, mode, request := false, Default, None;
        } else {
          bad := height;
          var delta := tip - height;
          request := Some(Max(w.checkpoint, tip - 2 * delta));
        }
      } else {
        if found.Some? {
          good, chain := height, found;
        } else {
          bad := height;
        }
        if bad != good + 1 {
          request := Some((bad + good) / 2);
        } else {
          EndSearch(w, height);
        }
      }
    }

    /** The fork point is known: join, reorganise, fork, or continue after the top. */
    method EndSearch(w: World, height: nat)
      requires chain.Some? && mode == Binary && w.holds(chain.value, good) && Consistent(w)
      modifies this
      ensures View() == Finish(w, old(View()).(request := None), height)
    {
      request := None;
      var c := chain.value;
      if !w.canConnect(c, bad) {
        up := false;
      } else if bad in w.chains {
        if w.holds(bad, bad) {
        } else if w.holds(w.parent(bad), height) {
          chain := Some(w.parent(bad));
        } else {
          mode, chain, request := CatchUp, Some(bad), Some(bad + 1);
        }
      } else if w.top(c) > good {
        if !w.holds(c, bad) {
          mode, chain, request := CatchUp, Some(bad), Some(bad + 1);
        }
      } else {
        assert w.top(c) == good;
        if !w.catchingUp(c) && w.top(c) < tip {
          mode, request := CatchUp, Some(good + 1);
        }
      }
      if request.None? { mode := Default; }
    }
  }
}
