/** The meaning of the header store: a tree of chains, each holding the headers above its fork point
    (electronfittexxcoin/blockchain.py:242-443). */
module HeaderTree {

  datatype Option<T> = None | Some(value: T)

  /** An 80-byte header record, as a number; the all-zero record marks a header never fetched. */
  type Record = nat

  const NULL: Record := 0

  /** Headers base .. base + |records| - 1; below base the chain is its parent's. */
  datatype Chain = Chain(base: nat, parent: Option<nat>, records: seq<Record>)

  type Tree = map<nat, Chain>

  /** Chains are filed under their base; only the root, at 0, has no parent, and parents start lower. */
  ghost predicate Linked(v: Tree) {
    && 0 in v
    && forall k :: k in v ==>
         && v[k].base == k
         && (v[k].parent.None? <==> k == 0)
         && (v[k].parent.Some? ==> v[k].parent.value < k && v[k].parent.value in v)
  }

  /** The header that the chain based at k gives for a height. */
  ghost function ReadAt(v: Tree, k: nat, height: int): Option<Record>
    requires Linked(v) && k in v
    decreases k
  {
    if height < 0 then None
    else if height < k then ReadAt(v, v[k].parent.value, height)
    else if height - k >= |v[k].records| then None
    else if v[k].records[height - k] == NULL then None
    else Some(v[k].records[height - k])
  }

  /** The parent holds every header below the fork point of the chain based at s. */
  ghost predicate Covered(v: Tree, s: nat)
    requires Linked(v) && s in v
  {
    s != 0 ==> s - v[s].parent.value <= |v[v[s].parent.value].records|
  }

  ghost predicate AllCovered(v: Tree)
    requires Linked(v)
  {
    forall k :: k in v ==> Covered(v, k)
  }

  // ---------------------------------------------------------------- exchanging a chain with its parent

  /** Length of the parent's own branch above the fork point of s. */
  ghost function ParentBranch(v: Tree, s: nat): int
    requires Linked(v) && s in v && s != 0
  {
    var p := v[s].parent.value;
    p + |v[p].records| - s
  }

  /** The two branches above the fork point change places; bases and parents stay. */
  ghost function Exchanged(v: Tree, s: nat): (w: Tree)
    requires Linked(v) && s in v && s != 0 && Covered(v, s)
    ensures Linked(w)
  {
    var p := v[s].parent.value;
    var (mine, theirs) := (v[s].records, v[p].records);
    v[s := v[s].(records := theirs[s - p..])][p := v[p].(records := theirs[..s - p] + mine)]
  }

  /** A branch changes places with its parent's if it is longer and the parent holds every header below
      the fork point; otherwise the parent's branch has a negative size and cannot be read. */
  ghost predicate Swaps(v: Tree, s: nat)
    requires Linked(v) && s in v
  {
    s != 0 && Covered(v, s) && ParentBranch(v, s) < |v[s].records|
  }

  ghost function SwapResult(v: Tree, s: nat): (w: Tree)
    requires Linked(v) && s in v
    ensures Linked(w)
  {
    if Swaps(v, s) then Exchanged(v, s) else v
  }

  /** No other chain forks off above the fork point of s, on either branch. */
  ghost predicate NoThirdFork(v: Tree, s: nat)
    requires Linked(v) && s in v && s != 0
  {
    forall k :: k in v && k != s && k != 0 ==>
      v[k].parent.value != s && (v[k].parent.value == v[s].parent.value ==> k < s)
  }

  /** Chains based below the parent read nothing that moved. */
  lemma {:induction false} BelowUnchanged(v: Tree, s: nat, k: nat, height: int)
    requires Linked(v) && s in v && s != 0 && Covered(v, s) && k in v && k < v[s].parent.value
    ensures ReadAt(Exchanged(v, s), k, height) == ReadAt(v, k, height)
    decreases k
  {
    if 0 <= height < k { BelowUnchanged(v, s, v[k].parent.value, height); }
  }

  lemma ThroughParent(v: Tree, k: nat, height: int)
    requires Linked(v) && k in v && k != 0 && height < k
    ensures ReadAt(v, k, height) == ReadAt(v, v[k].parent.value, height)
  {}

  /** What a chain's own records give for a height at or above its base. */
  function OwnRecord(records: seq<Record>, base: nat, height: nat): Option<Record>
    requires base <= height
  {
    if height - base >= |records| || records[height - base] == NULL then None else Some(records[height - base])
  }

  lemma ReadOwn(v: Tree, k: nat, height: nat)
    requires Linked(v) && k in v && k <= height
    ensures ReadAt(v, k, height) == OwnRecord(v[k].records, k, height)
  {}

  lemma BranchesCut(theirs: seq<Record>, mine: seq<Record>, p: nat, s: nat, height: nat)
    requires p <= s <= height && s - p <= |theirs|
    ensures OwnRecord(theirs[..s - p] + mine, p, height) == OwnRecord(mine, s, height)
    ensures OwnRecord(theirs[s - p..], s, height) == OwnRecord(theirs, p, height)
  {}

  lemma PairAbove(v: Tree, s: nat, height: int)
    requires Linked(v) && s in v && s != 0 && Covered(v, s) && s <= height
    ensures
      var p := v[s].parent.value;
      && ReadAt(Exchanged(v, s), p, height) == ReadAt(v, s, height)
      && ReadAt(Exchanged(v, s), s, height) == ReadAt(v, p, height)
  {
    var p := v[s].parent.value;
    var w := Exchanged(v, s);
    BranchesCut(v[p].records, v[s].records, p, s, height);
    ReadOwn(v, p, height);
    ReadOwn(v, s, height);
    ReadOwn(w, p, height);
    ReadOwn(w, s, height);
  }

  lemma PairBelow(v: Tree, s: nat, height: int)
    requires Linked(v) && s in v && s != 0 && Covered(v, s) && v[s].parent.value <= height < s
    ensures
      var p := v[s].parent.value;
      && ReadAt(Exchanged(v, s), p, height) == ReadAt(v, s, height)
      && ReadAt(Exchanged(v, s), s, height) == ReadAt(v, p, height)
  {
    var p := v[s].parent.value;
    assert Exchanged(v, s)[p].records[height - p] == v[p].records[height - p];
    ThroughParent(v, s, height);
    ThroughParent(Exchanged(v, s), s, height);
  }

  /** The chain that held the branch of s is now based at the parent's base, and conversely. */
  lemma PairExchanged(v: Tree, s: nat, height: int)
    requires Linked(v) && s in v && s != 0 && Covered(v, s)
    ensures
      var p := v[s].parent.value;
      && ReadAt(Exchanged(v, s), p, height) == ReadAt(v, s, height)
      && ReadAt(Exchanged(v, s), s, height) == ReadAt(v, p, height)
  {
    var p := v[s].parent.value;
    if height >= s {
      PairAbove(v, s, height);
    } else if height >= p {
      PairBelow(v, s, height);
    } else {
      ThroughParent(v, s, height);
      ThroughParent(Exchanged(v, s), s, height);
      if 0 <= height { BelowUnchanged(v, s, v[p].parent.value, height); }
    }
  }

  /** Below the fork point both chains read as before, under either base. */
  lemma StemUnchanged(v: Tree, s: nat, height: int)
    requires Linked(v) && s in v && s != 0 && Covered(v, s) && height < s
    ensures
      var p := v[s].parent.value;
      && ReadAt(Exchanged(v, s), p, height) == ReadAt(v, p, height)
      && ReadAt(Exchanged(v, s), s, height) == ReadAt(v, s, height)
  {
    PairExchanged(v, s, height);
    assert ReadAt(v, s, height) == ReadAt(v, v[s].parent.value, height);
  }

  /** Every other chain keeps all its headers when nothing forks off above the exchanged branches. */
  lemma {:induction false} OthersUnchanged(v: Tree, s: nat, k: nat, height: int)
    requires Linked(v) && s in v && s != 0 && Covered(v, s) && NoThirdFork(v, s)
    requires k in v && k != s && k != v[s].parent.value
    ensures ReadAt(Exchanged(v, s), k, height) == ReadAt(v, k, height)
    decreases k
  {
    if 0 <= height < k {
      var q := v[k].parent.value;
      if q == v[s].parent.value { StemUnchanged(v, s, height); } else { OthersUnchanged(v, s, q, height); }
    }
  }

  /** Where the base of each chain goes. */
  function Relocated(s: nat, p: nat, k: nat): nat {
    if k == s then p else if k == p then s else k
  }

  lemma EntriesRelocated<T>(m: map<nat, T>, s: nat, p: nat)
    requires s in m && p in m
    ensures forall k {:trigger m[k]} :: k in m ==>
      Relocated(s, p, k) in m[p := m[s]][s := m[p]] && m[p := m[s]][s := m[p]][Relocated(s, p, k)] == m[k]
    ensures m[p := m[s]][s := m[p]].Values <= m.Values
  {}

  lemma ValuesAdded<T>(m: map<nat, T>, k: nat, x: T)
    ensures m[k := x].Values <= m.Values + {x}
  {}

  /** Where the base of the chain filed under k is after a possible exchange at s. */
  ghost function PlaceAfterSwap(v: Tree, s: nat, k: nat): nat
    requires Linked(v) && s in v
  {
    if Swaps(v, s) then Relocated(s, v[s].parent.value, k) else k
  }

  ghost predicate KeepsReading(v: Tree, s: nat, k: nat)
    requires Linked(v) && s in v && s != 0 && Covered(v, s) && k in v
  {
    forall height :: ReadAt(Exchanged(v, s), Relocated(s, v[s].parent.value, k), height) == ReadAt(v, k, height)
  }

  /** Without a third fork above the fork point every chain object keeps reading what it read. */
  lemma ExchangeKeepsMeaning(v: Tree, s: nat)
    requires Linked(v) && s in v && s != 0 && Covered(v, s) && NoThirdFork(v, s)
    ensures forall k :: k in v ==> KeepsReading(v, s, k)
  {
    var p := v[s].parent.value;
    forall k, height | k in v
      ensures ReadAt(Exchanged(v, s), Relocated(s, p, k), height) == ReadAt(v, k, height)
    {
      if k == s || k == p { PairExchanged(v, s, height); } else { OthersUnchanged(v, s, k, height); }
    }
  }

  /** When the two branches really differ at the fork point, the exchange preserves what every chain
      means exactly when no third chain forks off above it. */
  lemma ExchangePreservesMeaning(v: Tree, s: nat)
    requires Linked(v) && s in v && s != 0 && Covered(v, s)
    requires ReadAt(v, s, s).Some? && ReadAt(v, v[s].parent.value, s) != ReadAt(v, s, s)
    ensures (forall k :: k in v ==> KeepsReading(v, s, k)) <==> NoThirdFork(v, s)
  {
    var p := v[s].parent.value;
    if NoThirdFork(v, s) {
      ExchangeKeepsMeaning(v, s);
    } else {
      var k :| k in v && k != s && k != 0 && !(v[k].parent.value != s && (v[k].parent.value == p ==> k < s));
      var q := v[k].parent.value;
      ThroughParent(v, k, s);
      ThroughParent(Exchanged(v, s), k, s);
      PairExchanged(v, s, s);
      assert !KeepsReading(v, s, k) by {
        assert Relocated(s, p, k) == k;
        assert ReadAt(Exchanged(v, s), k, s) != ReadAt(v, k, s);
      }
    }
  }

  /** No chain forks off more than n records above the base s. */
  ghost predicate ChildrenWithin(v: Tree, s: nat, n: int)
    requires Linked(v)
  {
    forall k :: k in v && v[k].parent == Some(s) ==> k - s <= n
  }

  /** After the exchange every chain reaches its fork point exactly when the forks of either chain lie
      within the branch it now has. */
  lemma ExchangeCovered(v: Tree, s: nat)
    requires Linked(v) && s in v && s != 0 && AllCovered(v)
    ensures
      var p := v[s].parent.value;
      AllCovered(Exchanged(v, s)) <==>
        ChildrenWithin(v, s, ParentBranch(v, s)) && ChildrenWithin(v, p, s - p + |v[s].records|)
  {
    assert Covered(v, s);
    var w := Exchanged(v, s);
    var p := v[s].parent.value;
    CoveredBySize(v);
    CoveredBySize(w);
    ForksStay(v, s);
    ExchangedSizes(v, s);
    assert ChildrenWithin(w, s, ParentBranch(v, s)) && ChildrenWithin(w, p, s - p + |v[s].records|) ==> AllCovered(w);
  }

  lemma ExchangedSizes(v: Tree, s: nat)
    requires Linked(v) && s in v && s != 0 && Covered(v, s)
    ensures
      var p := v[s].parent.value;
      && |Exchanged(v, s)[s].records| == ParentBranch(v, s)
      && |Exchanged(v, s)[p].records| == s - p + |v[s].records|
      && forall q :: q in v && q != s && q != p ==> Exchanged(v, s)[q] == v[q]
  {}

  lemma ForksStay(v: Tree, s: nat)
    requires Linked(v) && s in v && s != 0 && Covered(v, s)
    ensures forall q, n :: ChildrenWithin(Exchanged(v, s), q, n) <==> ChildrenWithin(v, q, n)
  {
    forall q, n ensures ChildrenWithin(Exchanged(v, s), q, n) <==> ChildrenWithin(v, q, n) {
      SameForks(v, Exchanged(v, s), q, n);
    }
  }

  lemma SameForks(v: Tree, w: Tree, q: nat, n: int)
    requires Linked(v) && Linked(w) && w.Keys == v.Keys && (forall k :: k in v ==> w[k].parent == v[k].parent)
    ensures ChildrenWithin(w, q, n) <==> ChildrenWithin(v, q, n)
  {
    assert forall k :: k in v <==> k in w;
  }

  lemma CoveredBySize(v: Tree)
    requires Linked(v)
    ensures AllCovered(v) <==> forall q :: q in v ==> ChildrenWithin(v, q, |v[q].records|)
  {
    if forall q :: q in v ==> ChildrenWithin(v, q, |v[q].records|) {
      forall k | k in v ensures Covered(v, k) {
        if k != 0 { assert ChildrenWithin(v, v[k].parent.value, |v[v[k].parent.value].records|); }
      }
    } else if AllCovered(v) {
      forall q | q in v ensures ChildrenWithin(v, q, |v[q].records|) {
        forall k | k in v && v[k].parent == Some(q) ensures k - q <= |v[q].records| { assert Covered(v, k); }
      }
    }
  }

  /** A swap leaves every chain reaching its fork point exactly when no fork of the chain that moves up
      lies beyond the branch it receives. */
  lemma SwapCovered(v: Tree, s: nat)
    requires Linked(v) && s in v && AllCovered(v)
    ensures Covered(v, s)
    ensures AllCovered(SwapResult(v, s)) <==>
      (Swaps(v, s) ==> ChildrenWithin(v, s, ParentBranch(v, s)))
  {
    assert Covered(v, s);
    if Swaps(v, s) {
      ExchangeCovered(v, s);
      CoveredBySize(v);
    }
  }

  /** Afterwards the branch that stays at the lower base is at least as long as the other. */
  lemma SwapOrdersBranches(v: Tree, s: nat)
    requires Linked(v) && s in v && s != 0 && Covered(v, s)
    ensures ParentBranch(SwapResult(v, s), s) >= |SwapResult(v, s)[s].records|
    ensures SwapResult(SwapResult(v, s), s) == SwapResult(v, s)
  {}

  // ---------------------------------------------------------------- extending and forking

  /** A header appended to one chain changes only what is read at the new height through that chain. */
  lemma {:induction false} AppendMeaning(v: Tree, b: nat, r: Record, k: nat, height: int)
    requires Linked(v) && AllCovered(v) && b in v && k in v
    ensures
      var w := Appended(v, b, r);
      var top := b + |v[b].records|;
      && (k == b && height == top ==> ReadAt(w, k, height) == if r == NULL then None else Some(r))
      && (!(k == b && height == top) ==> ReadAt(w, k, height) == ReadAt(v, k, height))
    decreases k
  {
    if 0 <= height < k {
      assert Covered(v, k);
      AppendMeaning(v, b, r, v[k].parent.value, height);
    }
  }

  ghost function Appended(v: Tree, b: nat, r: Record): (w: Tree)
    requires Linked(v) && b in v
    ensures Linked(w) && b in w && (Covered(v, b) <==> Covered(w, b))
  {
    v[b := v[b].(records := v[b].records + [r])]
  }

  lemma AppendedWell(v: Tree, b: nat, r: Record)
    requires Linked(v) && AllCovered(v) && b in v
    ensures AllCovered(Appended(v, b, r))
    ensures b != 0 && NoThirdFork(v, b) ==> NoThirdFork(Appended(v, b, r), b)
  {
    var w := Appended(v, b, r);
    forall k | k in w ensures Covered(w, k) { assert Covered(v, k); }
  }

  /** The chain of base b gains header r; every chain, followed to where it is now based, keeps all
      the headers it had. */
  lemma SaveMeaning(v: Tree, b: nat, r: Record, k: nat, height: int)
    requires Linked(v) && AllCovered(v) && b in v && k in v
    requires Swaps(Appended(v, b, r), b) ==> NoThirdFork(v, b)
    ensures
      var w := Appended(v, b, r);
      var now := ReadAt(SwapResult(w, b), PlaceAfterSwap(w, b, k), height);
      if k == b && height == b + |v[b].records| then now == if r == NULL then None else Some(r)
      else now == ReadAt(v, k, height)
  {
    var w := Appended(v, b, r);
    AppendedWell(v, b, r);
    AppendMeaning(v, b, r, k, height);
    if Swaps(w, b) {
      if k == b || k == w[b].parent.value { PairExchanged(w, b, height); } else { OthersUnchanged(w, b, k, height); }
    }
  }

  /** The tree with one more chain, which holds one header. */
  ghost function Forked(v: Tree, p: nat, s: nat, r: Record): (w: Tree)
    requires Linked(v) && p in v && p < s && s !in v
    ensures Linked(w) && w.Keys == v.Keys + {s}
  {
    v[s := Chain(s, Some(p), [r])]
  }

  /** A new fork reads its own header at its base and its parent below; other chains are unaffected. */
  lemma {:induction false} ForkMeaning(v: Tree, p: nat, s: nat, r: Record, k: nat, height: int)
    requires Linked(v) && p in v && p < s && s !in v && k in v
    ensures ReadAt(Forked(v, p, s, r), k, height) == ReadAt(v, k, height)
    decreases k
  {
    if 0 <= height < k { ForkMeaning(v, p, s, r, v[k].parent.value, height); }
  }

  /** The new fork gives its own header at its base, its parent's below, and nothing above. */
  lemma ForkReads(v: Tree, p: nat, s: nat, r: Record, height: int)
    requires Linked(v) && p in v && p < s && s !in v
    ensures ReadAt(Forked(v, p, s, r), s, height)
         == if height < s then ReadAt(v, p, height) else if height == s && r != NULL then Some(r) else None
  {
    if height < s { ForkMeaning(v, p, s, r, p, height); }
  }
}
