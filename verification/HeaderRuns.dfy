/** Whole histories of the header store: headers saved, chunks written and forks opened, in any order
    (electronfittexxcoin/blockchain.py:274-380). */
module HeaderRuns {
  import opened HeaderTree
  import opened HeaderStore

  datatype Step =
    | Save(base: nat, record: Record)
    | Chunk(base: nat, start: nat, chunk: seq<Record>, checkpoint: nat)
    | Branch(parent: nat, base: nat, record: Record)

  /** The chain written to exists; a fork is opened at a height that its parent holds and that is free. */
  ghost predicate Enabled(v: Tree, step: Step)
    requires Linked(v)
  {
    match step
    case Save(b, _) => b in v
    case Chunk(b, _, _, _) => b in v
    case Branch(p, s, _) => p in v && p < s < p + |v[p].records| && s !in v
  }

  /** The tree after the write of a step, before chains change places. */
  ghost function Wrote(v: Tree, step: Step): (w: Tree)
    requires Linked(v) && Enabled(v, step)
    ensures Linked(w) && step.base in w && (step.base in v ==> (Covered(v, step.base) <==> Covered(w, step.base)))
  {
    match step
    case Save(b, r) => Appended(v, b, r)
    case Chunk(b, start, chunk, checkpoint) => ChunkOverlaid(v, b, start, chunk, checkpoint)
    case Branch(p, s, r) => Forked(v, p, s, r)
  }

  ghost function After(v: Tree, step: Step): (w: Tree)
    requires Linked(v) && Enabled(v, step)
    ensures Linked(w)
  {
    SwapResult(Wrote(v, step), step.base)
  }

  /** The swap after a write fails when the parent ends below the fork point; the write stays. */
  ghost predicate Refused(v: Tree, step: Step)
    requires Linked(v) && Enabled(v, step)
  {
    !Covered(Wrote(v, step), step.base)
  }

  /** What has to hold before a step for every chain to reach its fork point after it: a chunk must not
      end below a fork of its chain, and a fork of a chain that moves up must lie within the branch that
      the chain receives. */
  ghost predicate Guard(v: Tree, step: Step)
    requires Linked(v) && Enabled(v, step)
  {
    var w := Wrote(v, step);
    && (step.Chunk? ==> ChildrenWithin(v, step.base, |w[step.base].records|))
    && (Swaps(w, step.base) ==> ChildrenWithin(w, step.base, ParentBranch(w, step.base)))
  }

  lemma OverlaidCovered(v: Tree, s: nat, data: seq<Record>, offset: nat, truncate: bool)
    requires Linked(v) && s in v && AllCovered(v)
    ensures var w := Overlaid(v, s, data, offset, truncate);
            AllCovered(w) <==> ChildrenWithin(v, s, |w[s].records|)
  {
    var w := Overlaid(v, s, data, offset, truncate);
    SameForks(v, w, s, |w[s].records|);
    forall q | q in v && q != s ensures ChildrenWithin(w, q, |w[q].records|) {
      CoveredBySize(v);
      SameForks(v, w, q, |v[q].records|);
    }
    CoveredBySize(w);
  }

  lemma ForkedCovered(v: Tree, p: nat, s: nat, r: Record)
    requires Linked(v) && AllCovered(v) && p in v && p < s < p + |v[p].records| && s !in v
    ensures AllCovered(Forked(v, p, s, r))
  {
    var w := Forked(v, p, s, r);
    forall k | k in w ensures Covered(w, k) {
      if k != s { assert Covered(v, k); }
    }
  }

  /** Writing leaves every chain reaching its fork point unless a chunk ends below a fork. */
  lemma WroteCovered(v: Tree, step: Step)
    requires Linked(v) && AllCovered(v) && Enabled(v, step)
    ensures Covered(Wrote(v, step), step.base)
    ensures AllCovered(Wrote(v, step)) <==>
      (step.Chunk? ==> ChildrenWithin(v, step.base, |Wrote(v, step)[step.base].records|))
  {
    match step
    case Save(b, r) => AppendedWell(v, b, r);
    case Chunk(b, start, chunk, checkpoint) =>
      assert Covered(v, b);
      var data := ChunkData(b, start, chunk);
      OverlaidCovered(v, b, data, ChunkOffset(b, start), start + |data| - 1 > checkpoint);
    case Branch(p, s, r) => ForkedCovered(v, p, s, r);
  }

  /** An exchange never makes up for a fork left hanging above the chain that moves up. */
  lemma SwapNeedsCovered(w: Tree, s: nat)
    requires Linked(w) && s in w && Covered(w, s) && AllCovered(SwapResult(w, s))
    requires forall k :: k in w && w[k].parent != Some(s) ==> Covered(w, k)
    ensures AllCovered(w)
  {
    if Swaps(w, s) {
      var x := Exchanged(w, s);
      ExchangedSizes(w, s);
      forall k | k in w ensures Covered(w, k) {
        assert Covered(x, k) && x[k].parent == w[k].parent;
      }
    }
  }

  /** A write leaves the forks of all other chains in reach. */
  lemma WroteElsewhere(v: Tree, step: Step)
    requires Linked(v) && AllCovered(v) && Enabled(v, step)
    ensures forall k :: k in Wrote(v, step) && Wrote(v, step)[k].parent != Some(step.base) ==> Covered(Wrote(v, step), k)
  {
    var w := Wrote(v, step);
    forall k | k in w && w[k].parent != Some(step.base) ensures Covered(w, k) {
      if k in v { assert Covered(v, k); }
    }
  }

  /** A step from a store in which every chain reaches its fork point leads to such a store exactly when
      its guard holds. */
  lemma StepCovered(v: Tree, step: Step)
    requires Linked(v) && AllCovered(v) && Enabled(v, step)
    ensures !Refused(v, step)
    ensures AllCovered(After(v, step)) <==> Guard(v, step)
  {
    WroteCovered(v, step);
    var w := Wrote(v, step);
    WroteElsewhere(v, step);
    if AllCovered(After(v, step)) { SwapNeedsCovered(w, step.base); }
    if AllCovered(w) { SwapCovered(w, step.base); }
  }

  lemma BranchStays(v: Tree, step: Step)
    requires Linked(v) && Enabled(v, step) && step.Branch?
    ensures After(v, step) == Forked(v, step.parent, step.base, step.record) && !Refused(v, step)
  {}

  // ---------------------------------------------------------------- histories

  /** Every step is enabled where it is taken; a history goes on after a refused swap. */
  ghost predicate Possible(v: Tree, steps: seq<Step>)
    requires Linked(v)
    decreases |steps|
  {
    steps == [] || (Enabled(v, steps[0]) && Possible(After(v, steps[0]), steps[1..]))
  }

  /** The tree at the end of a history. */
  ghost function Last(v: Tree, steps: seq<Step>): (w: Tree)
    requires Linked(v) && Possible(v, steps)
    ensures Linked(w)
    decreases |steps|
  {
    if steps == [] then v else Last(After(v, steps[0]), steps[1..])
  }

  /** Every chain reaches its fork point, from first to last, and no swap is refused. */
  ghost predicate CoveredThroughout(v: Tree, steps: seq<Step>)
    requires Linked(v) && Possible(v, steps)
    decreases |steps|
  {
    && AllCovered(v)
    && (steps == [] || (!Refused(v, steps[0]) && CoveredThroughout(After(v, steps[0]), steps[1..])))
  }

  ghost predicate Guarded(v: Tree, steps: seq<Step>)
    requires Linked(v) && Possible(v, steps)
    decreases |steps|
  {
    steps == [] || (Guard(v, steps[0]) && Guarded(After(v, steps[0]), steps[1..]))
  }

  /** Over every history of saves, chunks and forks every chain reaches its fork point throughout, with no
      swap refused, exactly when each step's guard holds where the step is taken. */
  lemma {:induction false} RunCovered(v: Tree, steps: seq<Step>)
    requires Linked(v) && AllCovered(v) && Possible(v, steps)
    ensures CoveredThroughout(v, steps) <==> Guarded(v, steps)
    decreases |steps|
  {
    if steps != [] {
      StepCovered(v, steps[0]);
      if Guard(v, steps[0]) { RunCovered(After(v, steps[0]), steps[1..]); }
    }
  }

  /** Chains at 0, 1 and 3, each hung below the one before; they hold 5, 4 and 2 headers. */
  ghost function Start(): (v: Tree)
    ensures Linked(v) && 3 in v
  {
    map[0 := Chain(0, None, [10, 11, 12, 13, 14]),
        1 := Chain(1, Some(0), [21, 22, 23, 24]),
        3 := Chain(3, Some(1), [33, 34])]
  }

  lemma StartCovered()
    ensures AllCovered(Start())
  {}

  /** The chain at 3 becomes longer than its parent's branch, and the chain at 1 ends at 7 afterwards. */
  lemma ChunkSwaps()
    ensures
      var w := After(Start(), Chunk(3, 5, [35, 36, 37], 0));
      && 0 in w && 1 in w && 6 !in w
      && |w[0].records| == 5 && w[1].parent == Some(0) && |w[1].records| == 7
  {
    assert Written([33, 34], [35, 36, 37], 2, true) == [33, 34, 35, 36, 37];
    ExchangedSizes(Wrote(Start(), Chunk(3, 5, [35, 36, 37], 0)), 3);
  }

  /** The chain at 1 takes the root's place, and the fork at 6 hangs from the chain that now ends at 4. */
  lemma SaveSwaps(v: Tree)
    requires Linked(v) && 1 in v && 6 in v && |v[0].records| == 5 && v[1].parent == Some(0) && |v[1].records| == 7
    requires v[6].parent == Some(1)
    ensures
      var w := After(v, Save(1, 28));
      6 in w && w[6] == v[6] && |w[1].records| == 4
  {
    ExchangedSizes(Wrote(v, Save(1, 28)), 1);
  }

  /** One step before a history. */
  lemma StepFirst(v: Tree, step: Step, steps: seq<Step>)
    requires Linked(v) && Enabled(v, step) && Possible(After(v, step), steps)
    ensures Possible(v, [step] + steps) && Last(v, [step] + steps) == Last(After(v, step), steps)
  {
    assert ([step] + steps)[1..] == steps;
  }

  function ThreeSteps(): seq<Step> { [Chunk(3, 5, [35, 36, 37], 0)] + ([Branch(1, 6, 46)] + ([Save(1, 28)] + [])) }

  /** A history from covered chains to a refused swap: the header of the fork is stored, but the chain
      below it ends two headers below the fork point. */
  lemma RefusedSwap()
    ensures AllCovered(Start()) && Possible(Start(), ThreeSteps())
    ensures
      var w := Last(Start(), ThreeSteps());
      && 6 in w && ParentBranch(w, 6) == -1
      && Refused(w, Save(6, 47)) && After(w, Save(6, 47)) == Appended(w, 6, 47)
  {
    StartCovered();
    ChunkSwaps();
    var (a, b, c) := (Chunk(3, 5, [35, 36, 37], 0), Branch(1, 6, 46), Save(1, 28));
    var v1 := After(Start(), a);
    BranchStays(v1, b);
    var v2 := After(v1, b);
    SaveSwaps(v2);
    StepFirst(v2, c, []);
    StepFirst(v1, b, [c] + []);
    StepFirst(Start(), a, [b] + ([c] + []));
  }

  // ---------------------------------------------------------------- headers along a history

  /** A write changes no header that is there and cuts none off. */
  ghost predicate Agrees(file: seq<Record>, data: seq<Record>, offset: nat, truncate: bool) {
    forall i :: 0 <= i < |file| && file[i] != NULL ==>
      && (offset <= i < offset + |data| ==> data[i - offset] == file[i])
      && (truncate && offset != |file| ==> i < offset + |data|)
  }

  ghost predicate HeadersStay(file: seq<Record>, now: seq<Record>) {
    forall i :: 0 <= i < |file| && file[i] != NULL ==> i < |now| && now[i] == file[i]
  }

  /** That is exactly what it takes for the headers of a file to survive a write; what is written behind
      the last record always agrees. */
  lemma WriteKeepsHeaders(file: seq<Record>, data: seq<Record>, offset: nat, truncate: bool)
    ensures HeadersStay(file, Written(file, data, offset, truncate)) <==> Agrees(file, data, offset, truncate)
    ensures offset == |file| ==> Agrees(file, data, offset, truncate)
  {
    if data != [] {
      forall i | 0 <= i < |file|
        ensures file[i] != NULL ==>
          ((i < |Written(file, data, offset, truncate)| && Written(file, data, offset, truncate)[i] == file[i]) <==>
            && (offset <= i < offset + |data| ==> data[i - offset] == file[i])
            && (truncate && offset != |file| ==> i < offset + |data|))
      {
        WrittenMeaning(file, data, offset, truncate, i);
      }
    }
  }

  /** A step that writes over no header, and swaps no branches on which a third chain hangs. */
  ghost predicate Undisturbed(v: Tree, step: Step)
    requires Linked(v) && Enabled(v, step)
  {
    && (step.Chunk? ==>
          var data := ChunkData(step.base, step.start, step.chunk);
          Agrees(v[step.base].records, data, ChunkOffset(step.base, step.start), step.start + |data| - 1 > step.checkpoint))
    && (Swaps(Wrote(v, step), step.base) ==> NoThirdFork(Wrote(v, step), step.base))
  }

  ghost predicate AllUndisturbed(v: Tree, steps: seq<Step>)
    requires Linked(v) && Possible(v, steps)
    decreases |steps|
  {
    steps == [] || (Undisturbed(v, steps[0]) && AllUndisturbed(After(v, steps[0]), steps[1..]))
  }

  /** Where a chain is based at the end of a history. */
  ghost function Place(v: Tree, steps: seq<Step>, k: nat): (place: nat)
    requires Linked(v) && Possible(v, steps) && k in v
    ensures place in Last(v, steps)
    decreases |steps|
  {
    if steps == [] then k
    else Place(After(v, steps[0]), steps[1..], PlaceAfterSwap(Wrote(v, steps[0]), steps[0].base, k))
  }

  /** Headers that stay in one chain's file stay readable through every chain. */
  lemma {:induction false} FileKeepsHeaders(v: Tree, w: Tree, b: nat, k: nat, height: int)
    requires Linked(v) && Linked(w) && b in v && k in v && v.Keys == w.Keys
    requires forall q :: q in v ==> w[q].parent == v[q].parent && (q != b ==> w[q] == v[q])
    requires HeadersStay(v[b].records, w[b].records) && ReadAt(v, k, height).Some?
    ensures ReadAt(w, k, height) == ReadAt(v, k, height)
    decreases k
  {
    if height < k {
      FileKeepsHeaders(v, w, b, v[k].parent.value, height);
    } else {
      ReadOwn(v, k, height);
      ReadOwn(w, k, height);
    }
  }

  lemma WroteKeepsHeaders(v: Tree, step: Step, k: nat, height: int)
    requires Linked(v) && Enabled(v, step) && Undisturbed(v, step) && k in v && ReadAt(v, k, height).Some?
    ensures k in Wrote(v, step) && ReadAt(Wrote(v, step), k, height) == ReadAt(v, k, height)
  {
    match step
    case Save(b, r) => FileKeepsHeaders(v, Wrote(v, step), b, k, height);
    case Chunk(b, start, chunk, checkpoint) =>
      var data := ChunkData(b, start, chunk);
      WriteKeepsHeaders(v[b].records, data, ChunkOffset(b, start), start + |data| - 1 > checkpoint);
      FileKeepsHeaders(v, Wrote(v, step), b, k, height);
    case Branch(p, s, r) => ForkMeaning(v, p, s, r, k, height);
  }

  lemma SwapKeepsHeaders(w: Tree, s: nat, k: nat, height: int)
    requires Linked(w) && s in w && k in w && (Swaps(w, s) ==> NoThirdFork(w, s))
    ensures PlaceAfterSwap(w, s, k) in SwapResult(w, s)
    ensures ReadAt(SwapResult(w, s), PlaceAfterSwap(w, s, k), height) == ReadAt(w, k, height)
  {
    if Swaps(w, s) {
      ExchangeKeepsMeaning(w, s);
      assert KeepsReading(w, s, k);
    }
  }

  /** Over every undisturbed history, whatever swaps are refused, each chain, followed to where it is
      based at the end, still gives every header it once gave. */
  lemma {:induction false} RunKeepsHeaders(v: Tree, steps: seq<Step>, k: nat, height: int)
    requires Linked(v) && Possible(v, steps) && AllUndisturbed(v, steps)
    requires k in v && ReadAt(v, k, height).Some?
    ensures ReadAt(Last(v, steps), Place(v, steps, k), height) == ReadAt(v, k, height)
    decreases |steps|
  {
    if steps != [] {
      WroteKeepsHeaders(v, steps[0], k, height);
      SwapKeepsHeaders(Wrote(v, steps[0]), steps[0].base, k, height);
      RunKeepsHeaders(After(v, steps[0]), steps[1..], PlaceAfterSwap(Wrote(v, steps[0]), steps[0].base, k), height);
    }
  }

  // ---------------------------------------------------------------- histories of a store

  /** A step carried out on a store. */
  method Take(st: Store, step: Step) returns (outcome: Outcome)
    requires st.Valid() && Enabled(st.View(), step)
    modifies st, st.chains.Values
    ensures st.Valid() && st.View() == After(old(st.View()), step)
    ensures outcome == ReadFailed <==> Refused(old(st.View()), step)
    ensures fresh(st.chains.Values - old(st.chains.Values))
  {
    match step
    case Save(k, r) =>
      st.EntryMeaning(k);
      var b := st.chains[k];
      outcome := st.SaveHeader(b, r, b.base + b.size);
    case Chunk(k, start, chunk, checkpoint) =>
      st.EntryMeaning(k);
      outcome := st.SaveChunk(st.chains[k], start, chunk, checkpoint);
    case Branch(p, s, r) =>
      BranchStays(st.View(), step);
      TakeBranch(st, p, s, r);
      outcome := Done;
  }

  method TakeBranch(st: Store, p: nat, s: nat, r: Record)
    requires st.Valid() && Enabled(st.View(), Branch(p, s, r))
    modifies st
    ensures st.Valid() && st.View() == old(Forked(st.View(), p, s, r))
    ensures fresh(st.chains.Values - old(st.chains.Values))
  {
    st.EntryMeaning(p);
    var _ := st.CreateFork(st.chains[p], r, s);
  }

  /** Every history leaves a valid store that holds the tree at its end, whatever swaps are refused. */
  method Replay(st: Store, steps: seq<Step>)
    requires st.Valid() && Possible(st.View(), steps)
    modifies st, st.chains.Values
    ensures st.Valid() && st.View() == Last(old(st.View()), steps)
    decreases |steps|
  {
    if steps != [] {
      var _ := Take(st, steps[0]);
      Replay(st, steps[1..]);
    }
  }
}
