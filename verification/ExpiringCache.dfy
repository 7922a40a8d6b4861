/** Caches that drop old entries (electronfittexxcoin/caches.py:54-71, electronfittexxcoin/caches.py:166-257). */
module ExpiringCache {
  import opened Arith
  import opened Sorting

  type Key = string

  datatype Entry = Entry(tick: nat, value: string)

  datatype Option<T> = None | Some(value: T)

  type Dict = map<Key, Entry>

  // ---------------------------------------------------------------- what expiry promises

  /** Part of a dictionary with its entries untouched. */
  ghost predicate PartOf(after: Dict, before: Dict) {
    after.Keys <= before.Keys && forall k :: k in after ==> after[k] == before[k]
  }

  /** No dropped entry was accessed later than a kept one. */
  ghost predicate OldestDropped(before: Dict, after: Dict) {
    forall e, k :: e in before && e !in after && k in before && k in after ==> before[e].tick <= before[k].tick
  }

  /** Exactly num entries dropped, oldest first. */
  ghost predicate Evicted(before: Dict, after: Dict, num: nat) {
    PartOf(after, before) && |after| == |before| - num && OldestDropped(before, after)
  }

  /** The entries a timeout check at a tick keeps. */
  function TimelyAt(d: Dict, cutoff: int): Dict { map k | k in d && d[k].tick >= cutoff :: d[k] }

  /** The timeout check runs at multiples of the timeout; no timeout is written 0. */
  predicate ChecksAt(tick: nat, timeout: nat) { timeout != 0 && tick % timeout == 0 }

  function AfterTimeout(d: Dict, tick: nat, timeout: nat): Dict {
    if ChecksAt(tick, timeout) then TimelyAt(d, tick - timeout) else d
  }

  /** What one pass of the manager does to a cache. */
  ghost predicate Passed(before: Dict, after: Dict, maxlen: nat, timeout: nat, tick: nat) {
    var timely := AfterTimeout(before, tick, timeout);
    Evicted(timely, after, Max(0, |timely| - maxlen))
  }

  /** No entry comes from the future and none has outlived its timeout by more than the ticks since the
      last check. */
  ghost predicate Young(d: Dict, timeout: nat, tick: nat) {
    forall k :: k in d ==> d[k].tick <= tick && (timeout != 0 ==> tick - d[k].tick <= timeout + tick % timeout)
  }

  // ---------------------------------------------------------------- consequences

  lemma SubsetSize(a: set<Key>, b: set<Key>)
    requires a <= b
    ensures |b - a| == |b| - |a| && (|a| == |b| ==> a == b)
  {
    assert b == a + (b - a);
    if |a| == |b| { assert |b - a| == 0; }
  }

  /** After a pass the size is at most maxlen; a pass that overflows nothing drops timed-out entries only;
      an entry is timed out only at an age greater than the timeout. */
  lemma PassMeaning(before: Dict, after: Dict, maxlen: nat, timeout: nat, tick: nat)
    requires Passed(before, after, maxlen, timeout, tick)
    ensures |after| <= maxlen && PartOf(after, before)
    ensures |AfterTimeout(before, tick, timeout)| <= maxlen ==>
              forall k :: k in before && k !in after ==> timeout != 0 && tick - before[k].tick > timeout
    ensures (forall k :: k in before ==> timeout == 0 || tick - before[k].tick <= timeout)
            ==> |after| == Min(|before|, maxlen)
  {
    var timely := AfterTimeout(before, tick, timeout);
    SubsetSize(after.Keys, timely.Keys);
    assert |after.Keys| == |after| && |timely.Keys| == |timely|;
    if forall k :: k in before ==> timeout == 0 || tick - before[k].tick <= timeout {
      assert timely == before;
    }
  }

  /** A pass at the next tick keeps every age within its bound, so that no entry ever reaches the age of
      two timeouts. */
  lemma PassKeepsYoung(before: Dict, after: Dict, maxlen: nat, timeout: nat, tick: nat)
    requires Young(before, timeout, tick) && Passed(before, after, maxlen, timeout, tick + 1)
    ensures Young(after, timeout, tick + 1)
    ensures timeout != 0 ==> forall k :: k in after ==> tick + 1 - after[k].tick < 2 * timeout
  {
    if timeout != 0 { NextRemainder(tick, timeout); }
  }

  lemma NextRemainder(tick: nat, timeout: nat)
    requires timeout != 0
    ensures 0 <= (tick + 1) % timeout < timeout
    ensures (tick + 1) % timeout != 0 ==> (tick + 1) % timeout == tick % timeout + 1
  {
    var (q, r) := (tick / timeout, tick % timeout);
    if r + 1 < timeout {
      DivModUnique(tick + 1, q, r + 1, timeout);
    } else {
      DivModUnique(tick + 1, q + 1, 0, timeout);
    }
  }

  // ---------------------------------------------------------------- whole runs

  /** An access, a store, or a pass of the manager that leaves the given dictionary. */
  datatype Step = Access(key: Key) | Store(key: Key, value: string) | Pass(after: Dict)

  datatype State = State(d: Dict, tick: nat)

  function Next(s: State, step: Step): State {
    match step
    case Access(key) =>
      if key in s.d then State(s.d[key := Entry(s.tick, s.d[key].value)], s.tick) else s
    case Store(key, value) => State(s.d[key := Entry(s.tick, value)], s.tick)
    case Pass(after) => State(after, s.tick + 1)
  }

  ghost predicate Allowed(s: State, step: Step, maxlen: nat, timeout: nat) {
    step.Pass? ==> Passed(s.d, step.after, maxlen, timeout, s.tick + 1)
  }

  function Run(s: State, steps: seq<Step>): State {
    if steps == [] then s else Next(Run(s, steps[..|steps| - 1]), steps[|steps| - 1])
  }

  ghost predicate AllowedRun(s: State, steps: seq<Step>, maxlen: nat, timeout: nat) {
    steps == [] ||
    var most := steps[..|steps| - 1];
    AllowedRun(s, most, maxlen, timeout) && Allowed(Run(s, most), steps[|steps| - 1], maxlen, timeout)
  }

  lemma StepBounds(s: State, step: Step, maxlen: nat, timeout: nat)
    requires Young(s.d, timeout, s.tick) && Allowed(s, step, maxlen, timeout)
    ensures Young(Next(s, step).d, timeout, Next(s, step).tick)
    ensures step.Pass? ==> |Next(s, step).d| <= maxlen
  {
    if step.Pass? {
      PassKeepsYoung(s.d, step.after, maxlen, timeout, s.tick);
      PassMeaning(s.d, step.after, maxlen, timeout, s.tick + 1);
    } else {
      UsedIsYoung(s, step.key, if step.Store? then step.value else "", timeout);
      if step.Access? && step.key in s.d { UsedIsYoung(s, step.key, s.d[step.key].value, timeout); }
    }
  }

  lemma UsedIsYoung(s: State, key: Key, value: string, timeout: nat)
    requires Young(s.d, timeout, s.tick)
    ensures Young(s.d[key := Entry(s.tick, value)], timeout, s.tick)
  {
    if timeout != 0 { NextRemainder(s.tick, timeout); DivMod(s.tick, timeout); }
  }

  lemma YoungAges(s: State, timeout: nat)
    requires Young(s.d, timeout, s.tick) && timeout != 0
    ensures forall k :: k in s.d ==> 0 <= s.tick - s.d[k].tick < 2 * timeout
  {}

  /** In every run that starts from an empty cache, no entry reaches the age of two timeouts, and right
      after a pass the size is at most maxlen. */
  lemma {:induction false} RunBounds(tick: nat, steps: seq<Step>, maxlen: nat, timeout: nat)
    requires AllowedRun(State(map[], tick), steps, maxlen, timeout)
    ensures var s := Run(State(map[], tick), steps);
            && Young(s.d, timeout, s.tick)
            && (timeout != 0 ==> forall k :: k in s.d ==> 0 <= s.tick - s.d[k].tick < 2 * timeout)
            && (steps != [] && steps[|steps| - 1].Pass? ==> |s.d| <= maxlen)
  {
    if steps != [] {
      var (most, step) := (steps[..|steps| - 1], steps[|steps| - 1]);
      RunBounds(tick, most, maxlen, timeout);
      StepBounds(Run(State(map[], tick), most), step, maxlen, timeout);
    }
    if timeout != 0 { YoungAges(Run(State(map[], tick), steps), timeout); }
  }

  // ---------------------------------------------------------------- last use

  /** The tick of the last access or store of a key in a run, and the value last stored. */
  function LastUse(s: State, steps: seq<Step>, key: Key): Option<nat> {
    if steps == [] then None
    else
      var (most, step) := (steps[..|steps| - 1], steps[|steps| - 1]);
      if !step.Pass? && step.key == key then Some(Run(s, most).tick) else LastUse(s, most, key)
  }

  function LastStored(steps: seq<Step>, key: Key): Option<string> {
    if steps == [] then None
    else
      var step := steps[|steps| - 1];
      if step.Store? && step.key == key then Some(step.value) else LastStored(steps[..|steps| - 1], key)
  }

  /** In every run from an empty cache each entry present was stored, holds the value last stored and bears
      the tick of its last access or store. */
  lemma {:induction false} EntriesBearLastUse(tick: nat, steps: seq<Step>, maxlen: nat, timeout: nat, key: Key)
    requires AllowedRun(State(map[], tick), steps, maxlen, timeout) && key in Run(State(map[], tick), steps).d
    ensures var e := Run(State(map[], tick), steps).d[key];
            LastUse(State(map[], tick), steps, key) == Some(e.tick) && LastStored(steps, key) == Some(e.value)
  {
    var (most, step) := (steps[..|steps| - 1], steps[|steps| - 1]);
    var s := Run(State(map[], tick), most);
    if step.Pass? { PassMeaning(s.d, step.after, maxlen, timeout, s.tick + 1); }
    if key in s.d { EntriesBearLastUse(tick, most, maxlen, timeout, key); }
  }

  // ---------------------------------------------------------------- helpers over collections

  method Enumerate<T(==)>(s: set<T>) returns (q: seq<T>)
    ensures NoRepeat(q) && |q| == |s| && forall x :: x in q <==> x in s
  {
    q := [];
    var rest := s;
    while rest != {}
      invariant rest <= s && NoRepeat(q) && |q| + |rest| == |s|
      invariant forall x :: x in q <==> x in s && x !in rest
    {
      var x :| x in rest;
      q := q + [x];
      rest := rest - {x};
    }
  }

  /** Keys by the tick of their last access. */
  type Bins = map<nat, seq<Key>>

  /** Every listed key is in the bin of its tick, and the bins hold nothing else. */
  ghost predicate Binned(bins: Bins, keys: seq<Key>, d: Dict) {
    && (forall i :: 0 <= i < |keys| ==> keys[i] in d && d[keys[i]].tick in bins && keys[i] in bins[d[keys[i]].tick])
    && (forall t :: t in bins ==> NoRepeat(bins[t]) && forall k :: k in bins[t] ==> k in keys && k in d && d[k].tick == t)
  }

  method MakeBins(keys: seq<Key>, d: Dict) returns (bins: Bins)
    requires NoRepeat(keys) && forall k :: k in keys ==> k in d
    ensures Binned(bins, keys, d)
  {
    bins := map[];
    for i := 0 to |keys|
      invariant Binned(bins, keys[..i], d)
    {
      var (k, tick) := (keys[i], d[keys[i]].tick);
      assert keys[..i + 1] == keys[..i] + [k];
      var bin := if tick in bins then bins[tick] else [];
      bins := bins[tick := bin + [k]];
    }
    assert keys[..|keys|] == keys;
  }

  lemma DropOne(d: Dict, k: Key)
    requires k in d
    ensures |d - {k}| == |d| - 1 && PartOf(d - {k}, d)
  {
    assert d == (d - {k})[k := d[k]];
  }

  lemma DropMore(d: Dict, gone: set<Key>, k: Key)
    ensures d - gone - {k} == d - (gone + {k})
  {}

  /** The first i keys have been checked against the cutoff. */
  ghost predicate Swept(copy: Dict, d: Dict, keys: seq<Key>, i: nat, cutoff: int)
    requires i <= |keys| && forall k :: k in keys ==> k in copy
  {
    && PartOf(d, copy)
    && (forall j :: 0 <= j < i ==> (keys[j] in d <==> copy[keys[j]].tick >= cutoff))
    && (forall j :: i <= j < |keys| ==> keys[j] in d)
  }

  lemma SweepStep(copy: Dict, d: Dict, keys: seq<Key>, i: nat, cutoff: int)
    requires NoRepeat(keys) && i < |keys| && (forall k :: k in keys ==> k in copy) && Swept(copy, d, keys, i, cutoff)
    ensures keys[i] in d
    ensures Swept(copy, if copy[keys[i]].tick < cutoff then d - {keys[i]} else d, keys, i + 1, cutoff)
  {}

  lemma SweepEnd(copy: Dict, d: Dict, keys: seq<Key>, cutoff: int)
    requires (forall k :: k in keys <==> k in copy) && Swept(copy, d, keys, |keys|, cutoff)
    ensures d == TimelyAt(copy, cutoff)
  {
    forall k | k in copy ensures k in d <==> copy[k].tick >= cutoff {
      var j :| 0 <= j < |keys| && keys[j] == k;
    }
  }

  /** The entries left are those of the ticks left, and all dropped ones are older. */
  ghost predicate Remaining(copy: Dict, d: Dict, ticks: seq<nat>) {
    && (forall i, j :: 0 <= i < j < |ticks| ==> ticks[i] < ticks[j])
    && (forall k :: k in copy ==> (k in d <==> copy[k].tick in ticks))
    && (forall k, i :: k in copy && k !in d && 0 <= i < |ticks| ==> copy[k].tick < ticks[i])
  }

  lemma StartRemaining(copy: Dict, keys: seq<Key>, bins: Bins, ticks: seq<nat>)
    requires (forall k :: k in copy ==> k in keys) && Binned(bins, keys, copy)
    requires forall i, j :: 0 <= i < j < |ticks| ==> ticks[i] < ticks[j]
    requires forall t :: t in bins ==> t in ticks
    ensures Remaining(copy, copy, ticks)
  {
    forall k | k in copy ensures copy[k].tick in ticks {
      var i :| 0 <= i < |keys| && keys[i] == k;
    }
  }

  /** Dropping some of the oldest bin drops oldest entries, and dropping all of it leaves the later ticks. */
  lemma BinDropped(copy: Dict, was: Dict, gone: set<Key>, ticks: seq<nat>)
    requires PartOf(was, copy) && ticks != [] && Remaining(copy, was, ticks)
    requires forall k :: k in gone ==> k in copy && copy[k].tick == ticks[0]
    ensures OldestDropped(copy, was - gone)
  {
    forall k | k in copy && k in was - gone ensures ticks[0] <= copy[k].tick {
      var i :| 0 <= i < |ticks| && ticks[i] == copy[k].tick;
    }
  }

  lemma WholeBinDropped(copy: Dict, was: Dict, gone: set<Key>, ticks: seq<nat>)
    requires PartOf(was, copy) && ticks != [] && Remaining(copy, was, ticks)
    requires forall k :: k in copy ==> (k in gone <==> copy[k].tick == ticks[0])
    ensures Remaining(copy, was - gone, ticks[1..])
  {
    assert ticks == [ticks[0]] + ticks[1..];
  }

  lemma NothingRemains(copy: Dict, d: Dict)
    requires PartOf(d, copy) && Remaining(copy, d, [])
    ensures |d| == 0
  {
    assert d.Keys == {};
  }

  lemma AfterCheck(d: Dict, tick: nat, timeout: nat)
    ensures AfterTimeout(d, tick, timeout)
         == if timeout == 0 || |d| == 0 || tick % timeout != 0 || tick < timeout then d else TimelyAt(d, tick - timeout)
  {}

  class Cache {
    const maxlen: nat
    const timeout: nat
    var d: Dict

    constructor (maxlen: nat, timeout: nat)
      requires maxlen > 0
      ensures this.maxlen == maxlen && this.timeout == timeout && d == map[]
    {
      this.maxlen := maxlen;
      this.timeout := timeout;
      d := map[];
    }

    /** A hit refreshes the entry. */
    method Get(key: Key, tick: nat) returns (r: Option<string>)
      modifies this
      ensures r == if key in old(d) then Some(old(d)[key].value) else None
      ensures d == Next(State(old(d), tick), Access(key)).d
    {
      if key in d {
        d := d[key := d[key].(tick := tick)];
        return Some(d[key].value);
      }
      r := None;
    }

    method Put(key: Key, value: string, tick: nat)
      modifies this
      ensures d == Next(State(old(d), tick), Store(key, value)).d
    {
      d := d[key := Entry(tick, value)];
    }

    method RemoveTimedOutItems(cutoff: int) returns (ct: nat)
      modifies this
      ensures d == (if cutoff < 0 then old(d) else TimelyAt(old(d), cutoff))
      ensures ct == |old(d)| - |d|
    {
      ct := 0;
      if |d| == 0 || cutoff < 0 {
        assert cutoff >= 0 ==> d == TimelyAt(d, cutoff);
        return;
      }
      var copy := d;
      var keys := Enumerate(copy.Keys);
      for i := 0 to |keys|
        invariant Swept(copy, d, keys, i, cutoff) && ct == |copy| - |d|
      {
        SweepStep(copy, d, keys, i, cutoff);
        if copy[keys[i]].tick < cutoff {
          DropOne(d, keys[i]);
          d := d - {keys[i]};
          ct := ct + 1;
        }
      }
      SweepEnd(copy, d, keys, cutoff);
    }

    /** Drops the keys of the oldest bin until num are dropped in all. */
    method DropBin(bin: seq<Key>, ct0: nat, num: nat) returns (ct: nat, ghost gone: set<Key>)
      requires NoRepeat(bin) && ct0 < num && forall k :: k in bin ==> k in d
      modifies this
      ensures ct0 <= ct <= num && d == old(d) - gone && |d| == |old(d)| - (ct - ct0)
      ensures (forall k :: k in gone ==> k in bin) && (ct < num ==> forall k :: k in bin ==> k in gone)
    {
      ct, gone := ct0, {};
      for i := 0 to |bin|
        invariant ct == ct0 + i && ct < num
        invariant d == old(d) - gone && |d| == |old(d)| - i
        invariant (forall k :: k in gone ==> k in bin) && forall j :: 0 <= j < i ==> bin[j] in gone
        invariant forall j :: i <= j < |bin| ==> bin[j] !in gone
      {
        DropOne(d, bin[i]);
        DropMore(old(d), gone, bin[i]);
        gone := gone + {bin[i]};
        d := d - {bin[i]};
        ct := ct + 1;
        if ct >= num { return; }
      }
    }

    /** Drops the num least recently accessed entries, through bins of equal ticks. */
    method TryToExpireOldItems(num: int) returns (ct: nat)
      modifies this
      ensures if |old(d)| < num || num <= 0 then d == old(d) && ct == 0 else Evicted(old(d), d, num) && ct == num
    {
      ct := 0;
      if |d| < num || num <= 0 { return; }
      var copy := d;
      var keys := Enumerate(copy.Keys);
      var bins := MakeBins(keys, copy);
      var unsorted := Enumerate(bins.Keys);
      var ticks := SortedBy(unsorted, (n: nat) => n);
      SortedStrictly(unsorted);
      StartRemaining(copy, keys, bins, ticks);
      while ct < num && ticks != []
        invariant 0 <= ct <= num && |d| == |copy| - ct && PartOf(d, copy)
        invariant ct < num ==> Remaining(copy, d, ticks) && forall t :: t in ticks ==> t in bins
        invariant OldestDropped(copy, d)
        decreases num - ct, |ticks|
      {
        var tick := ticks[0];
        ghost var was := d;
        ghost var gone;
        ct, gone := DropBin(bins[tick], ct, num);
        BinDropped(copy, was, gone, ticks);
        if ct < num {
          WholeBinDropped(copy, was, gone, ticks);
          ticks := ticks[1..];
        }
      }
      if ct < num { NothingRemains(copy, d); }
    }

    /** One cache in a pass of the manager. */
    method Expire(tick: nat)
      requires maxlen > 0
      modifies this
      ensures Passed(old(d), d, maxlen, timeout, tick)
    {
      if timeout != 0 && |d| != 0 && tick % timeout == 0 {
        var num := RemoveTimedOutItems(tick - timeout);
      }
      AfterCheck(old(d), tick, timeout);
      assert d == AfterTimeout(old(d), tick, timeout);
      var size := |d|;
      if size > maxlen {
        var num := TryToExpireOldItems(size - maxlen);
      }
    }
  }

  class Manager {
    var tick: nat
    var caches: seq<Cache>

    ghost predicate Valid()
      reads this, caches
    {
      && (forall i, j :: 0 <= i < j < |caches| ==> caches[i] != caches[j])
      && (forall i :: 0 <= i < |caches| ==> caches[i].maxlen > 0 && Young(caches[i].d, caches[i].timeout, tick))
    }

    constructor ()
      ensures Valid() && tick == 0 && caches == []
    {
      tick := 0;
      caches := [];
    }

    method AddCache(c: Cache)
      requires Valid() && c.maxlen > 0 && c.d == map[]
      modifies this`caches
      ensures Valid() && caches == if c in old(caches) then old(caches) else old(caches) + [c]
    {
      if c !in caches { caches := caches + [c]; }
    }

    /** One turn of the manager's loop: every cache passes the new tick. */
    method PassAll()
      requires Valid()
      modifies this`tick, caches
      ensures Valid() && tick == old(tick) + 1
      ensures forall i :: 0 <= i < |caches| ==>
                Passed(old(caches[i].d), caches[i].d, caches[i].maxlen, caches[i].timeout, tick)
    {
      tick := tick + 1;
      for i := 0 to |caches|
        invariant tick == old(tick) + 1
        invariant forall j :: i <= j < |caches| ==> caches[j].d == old(caches[j].d)
        invariant forall j :: 0 <= j < i ==>
                    Passed(old(caches[j].d), caches[j].d, caches[j].maxlen, caches[j].timeout, tick)
      {
        caches[i].Expire(tick);
      }
      forall i | 0 <= i < |caches| ensures Young(caches[i].d, caches[i].timeout, tick) {
        PassKeepsYoung(old(caches[i].d), caches[i].d, caches[i].maxlen, caches[i].timeout, old(tick));
      }
    }
  }
}
