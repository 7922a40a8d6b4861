/** The deterministic generator that shuffles coins (electronfittexxcoin/coinchooser.py:33-68). */
module Prng {
  import opened Arith
  import opened Digits

  type Bytes = seq<nat>

  /** A hash with 32-byte digests, and the digest the generator starts from. */
  datatype Source = Source(hash: Bytes -> Bytes, first: Bytes)

  ghost predicate IsDigest(d: Bytes) { |d| == 32 && DigitsBelow(d, 256) }

  ghost predicate Hashes(s: Source) {
    IsDigest(s.first) && forall x :: IsDigest(s.hash(x))
  }

  // ---------------------------------------------------------------- the stream

  /** The digest after j more hashes. */
  function Link(s: Source, j: nat): (d: Bytes)
  {
    if j == 0 then s.first else s.hash(Link(s, j - 1))
  }

  lemma LinkIsDigest(s: Source, j: nat)
    requires Hashes(s)
    ensures IsDigest(Link(s, j))
  {}

  /** Byte k of the stream. */
  function StreamByte(s: Source, k: nat): nat {
    var d := Link(s, k / 32);
    if k % 32 < |d| then d[k % 32] else 0
  }

  /** The n bytes of the stream from position k on. */
  function Stream(s: Source, k: nat, n: nat): (r: Bytes)
    ensures |r| == n
  {
    seq<nat>(n, i requires 0 <= i < n => StreamByte(s, k + i))
  }

  /** Reading m bytes and then n bytes is reading m + n bytes. */
  lemma ReadsJoin(s: Source, k: nat, m: nat, n: nat)
    ensures Stream(s, k, m + n) == Stream(s, k, m) + Stream(s, k + m, n)
  {}

  lemma NextBlock(s: Source, q: nat)
    requires Hashes(s)
    ensures Stream(s, 32 * q, 32) == Link(s, q)
  {
    LinkIsDigest(s, q);
    forall i | 0 <= i < 32 ensures StreamByte(s, 32 * q + i) == Link(s, q)[i] {
      DivModUnique(32 * q + i, q, i, 32);
    }
  }

  /** The stream starts with the first digest, and each block of 32 bytes is the hash of the one before. */
  lemma BlocksAreChained(s: Source, q: nat)
    requires Hashes(s)
    ensures Stream(s, 0, 32) == s.first
    ensures Stream(s, 32 * (q + 1), 32) == s.hash(Stream(s, 32 * q, 32))
  {
    NextBlock(s, 0);
    NextBlock(s, q);
    NextBlock(s, q + 1);
  }

  function Total(ns: seq<nat>): nat {
    if ns == [] then 0 else Total(ns[..|ns| - 1]) + ns[|ns| - 1]
  }

  /** What reads of these lengths give together, each from where the one before it stopped. */
  function Reads(s: Source, k: nat, ns: seq<nat>): Bytes
  {
    if ns == [] then []
    else
      var most := ns[..|ns| - 1];
      Reads(s, k, most) + Stream(s, k + Total(most), ns[|ns| - 1])
  }

  /** However the reads are split, they give the bytes of one read of the total length. */
  lemma {:induction false} SplitReads(s: Source, k: nat, ns: seq<nat>)
    ensures Reads(s, k, ns) == Stream(s, k, Total(ns))
  {
    if ns != [] {
      var most := ns[..|ns| - 1];
      SplitReads(s, k, most);
      ReadsJoin(s, k, Total(most), ns[|ns| - 1]);
    }
  }

  // ---------------------------------------------------------------- draws

  /** Bytes needed before p, multiplied by 256 for each, reaches n. */
  function BytesFrom(p: nat, n: nat): nat
    requires 0 < p
    decreases n - p
  {
    if p >= n then 0 else 1 + BytesFrom(p * 256, n)
  }

  /** The least number of bytes that can tell n values apart. */
  lemma {:induction false} BytesFromMeaning(p: nat, n: nat)
    requires 0 < p
    ensures var k := BytesFrom(p, n); p * Pow(256, k) >= n && (k > 0 ==> p * Pow(256, k - 1) < n)
    decreases n - p
  {
    if p >= n {
      assert Pow(256, 0) == 1;
    } else {
      BytesFromMeaning(p * 256, n);
      var k := BytesFrom(p * 256, n);
      assert p * Pow(256, k + 1) == (p * 256) * Pow(256, k);
      if k > 0 { assert p * Pow(256, k) == (p * 256) * Pow(256, k - 1); }
      assert p * Pow(256, 0) == p;
    }
  }

  /** The least number of bytes that can tell n values apart. */
  function BytesFor(n: nat): (k: nat)
    ensures Pow(256, k) >= n && (k > 0 ==> Pow(256, k - 1) < n)
  {
    BytesFromMeaning(1, n);
    BytesFrom(1, n)
  }

  /** The number below n that the stream gives at a position. */
  function Draw(s: Source, k: nat, n: nat): (x: nat)
    requires 0 < n
    ensures x < n
  {
    DivMod(Value(Stream(s, k, BytesFor(n)), 256), n);
    Value(Stream(s, k, BytesFor(n)), 256) % n
  }

  /** A draw below 256^m takes m bytes, and they are its digits, the highest first. */
  lemma {:induction false} PowerDraw(s: Source, k: nat, m: nat, i: nat)
    requires Hashes(s) && i < m
    ensures 0 < Pow(256, m) && BytesFor(Pow(256, m)) == m
    ensures 0 < Pow(256, i) && 0 <= Draw(s, k, Pow(256, m)) / Pow(256, i)
    ensures Draw(s, k, Pow(256, m)) / Pow(256, i) % 256 == StreamByte(s, k + m - 1 - i)
  {
    PowPositive(256, m);
    PowPositive(256, i);
    BytesForPower(m);
    var ds := Stream(s, k, m);
    StreamIsBytes(s, k, m);
    assert ds[m - 1 - i] == StreamByte(s, k + m - 1 - i);
    ValueBelow(ds);
    ModSmall(Value(ds, 256), Pow(256, m));
    DivBounds(Value(ds, 256), Pow(256, i), 0);
    DigitOfValue(ds, i);
  }

  lemma BytesForPower(m: nat)
    ensures 0 < Pow(256, m) && BytesFor(Pow(256, m)) == m
  {
    PowPositive(256, m);
    LeastPower(BytesFor(Pow(256, m)), m);
  }

  lemma LeastPower(k: nat, m: nat)
    requires Pow(256, k) >= Pow(256, m) && (k > 0 ==> Pow(256, k - 1) < Pow(256, m))
    ensures k == m
  {
    if k < m { PowGrows(k, m); }
    if k > m { PowMonotone(256, m, k - 1); }
  }

  lemma PowGrows(k: nat, m: nat)
    requires k < m
    ensures Pow(256, k) < Pow(256, m)
  {
    PowPositive(256, k);
    PowMonotone(256, k + 1, m);
  }

  lemma StreamIsBytes(s: Source, k: nat, n: nat)
    requires Hashes(s)
    ensures DigitsBelow(Stream(s, k, n), 256)
  {
    var ds := Stream(s, k, n);
    forall i | 0 <= i < n ensures ds[i] < 256 {
      LinkIsDigest(s, (k + i) / 32);
      assert ds[i] == StreamByte(s, k + i);
    }
  }

  lemma {:induction false} ValueBelow(ds: seq<nat>)
    requires DigitsBelow(ds, 256)
    ensures 0 <= Value(ds, 256) < Pow(256, |ds|)
  {
    if ds != [] { ValueBelow(ds[..|ds| - 1]); }
  }

  lemma {:induction false} DigitOfValue(ds: seq<nat>, i: nat)
    requires DigitsBelow(ds, 256) && i < |ds|
    ensures 0 < Pow(256, i) && Value(ds, 256) / Pow(256, i) % 256 == ds[|ds| - 1 - i]
  {
    PowPositive(256, i);
    var most := ds[..|ds| - 1];
    DivModUnique(Value(ds, 256), Value(most, 256), ds[|ds| - 1], 256);
    if i != 0 {
      DigitOfValue(most, i - 1);
      DivDiv(Value(ds, 256), 256, Pow(256, i - 1));
    }
  }

  /** The draws of a shuffle of i + 1 items; the one for item i is made first. */
  function Draws(s: Source, k: nat, i: nat): (js: seq<nat>)
    ensures |js| == i && InRange(js)
    decreases i
  {
    if i == 0 then [] else Draws(s, k + BytesFor(i + 1), i - 1) + [Draw(s, k, i + 1)]
  }

  predicate InRange(js: seq<nat>) { forall i :: 0 <= i < |js| ==> js[i] <= i + 1 }

  /** Stream bytes that the draws use. */
  function DrawBytes(i: nat): nat {
    if i == 0 then 0 else BytesFor(i + 1) + DrawBytes(i - 1)
  }

  /** How many bytes each of these draws takes, the first one first. */
  function DrawLengths(i: nat): (ns: seq<nat>)
    ensures |ns| == i && forall j :: 0 <= j < i ==> ns[j] == BytesFor(i + 1 - j)
  {
    seq<nat>(i, j requires 0 <= j < i => BytesFor(i + 1 - j))
  }

  lemma {:induction false} TotalCons(n: nat, ns: seq<nat>)
    ensures Total([n] + ns) == n + Total(ns)
  {
    if ns == [] {
      assert [n] + ns == [n] && [n][..0] == [];
    } else {
      assert ([n] + ns)[..|ns|] == [n] + ns[..|ns| - 1];
      TotalCons(n, ns[..|ns| - 1]);
    }
  }

  /** A shuffle uses just the bytes of its draws. */
  lemma {:induction false} DrawBytesTotal(i: nat)
    ensures DrawBytes(i) == Total(DrawLengths(i))
  {
    if i != 0 {
      DrawBytesTotal(i - 1);
      assert DrawLengths(i) == [BytesFor(i + 1)] + DrawLengths(i - 1);
      TotalCons(BytesFor(i + 1), DrawLengths(i - 1));
    }
  }

  // ---------------------------------------------------------------- shuffling

  function Swapped<T>(x: seq<T>, i: nat, j: nat): (r: seq<T>)
    requires i < |x| && j < |x|
    ensures |r| == |x|
  {
    x[i := x[j]][j := x[i]]
  }

  /** Exchanges item i with item js[i - 1], and so on downwards. */
  function Mixed<T>(x: seq<T>, i: nat, js: seq<nat>): (r: seq<T>)
    requires i < |x| && |js| == i && InRange(js)
    ensures |r| == |x|
    decreases i
  {
    if i == 0 then x else Mixed(Swapped(x, i, js[i - 1]), i - 1, js[..i - 1])
  }

  /** The turns of a shuffle that remain from item i on, when the generator has handed out k bytes. */
  function Turns<T>(x: seq<T>, i: nat, s: Source, k: nat): (r: seq<T>)
    requires i < |x|
    ensures |r| == |x|
    decreases i
  {
    if i == 0 then x else Turns(Swapped(x, i, Draw(s, k, i + 1)), i - 1, s, k + BytesFor(i + 1))
  }

  lemma {:induction false} TurnsMix<T>(x: seq<T>, i: nat, s: Source, k: nat)
    requires i < |x|
    ensures Turns(x, i, s, k) == Mixed(x, i, Draws(s, k, i))
    decreases i
  {
    if i != 0 {
      var js := Draws(s, k, i);
      assert js[i - 1] == Draw(s, k, i + 1) && js[..i - 1] == Draws(s, k + BytesFor(i + 1), i - 1);
      TurnsMix(Swapped(x, i, js[i - 1]), i - 1, s, k + BytesFor(i + 1));
    }
  }

  /** The order a shuffle leaves when the generator has handed out k bytes. */
  function Shuffled<T>(x: seq<T>, s: Source, k: nat): (r: seq<T>)
    ensures |r| == |x|
  {
    if x == [] then [] else Mixed(x, |x| - 1, Draws(s, k, |x| - 1))
  }

  lemma ShuffledMeaning<T>(x: seq<T>, s: Source, k: nat)
    requires x != []
    ensures Shuffled(x, s, k) == Turns(x, |x| - 1, s, k) && multiset(Shuffled(x, s, k)) == multiset(x)
  {
    TurnsMix(x, |x| - 1, s, k);
    MixedPermutes(x, |x| - 1, Draws(s, k, |x| - 1));
  }

  lemma SwapPermutes<T>(x: seq<T>, i: nat, j: nat)
    requires i < |x| && j < |x|
    ensures multiset(Swapped(x, i, j)) == multiset(x)
  {}

  /** A shuffle permutes. */
  lemma {:induction false} MixedPermutes<T>(x: seq<T>, i: nat, js: seq<nat>)
    requires i < |x| && |js| == i && InRange(js)
    ensures multiset(Mixed(x, i, js)) == multiset(x)
    decreases i
  {
    if i != 0 {
      SwapPermutes(x, i, js[i - 1]);
      MixedPermutes(Swapped(x, i, js[i - 1]), i - 1, js[..i - 1]);
    }
  }

  /** Items past the last one exchanged stay. */
  lemma {:induction false} MixedTail<T>(x: seq<T>, tail: seq<T>, i: nat, js: seq<nat>)
    requires i < |x| && |js| == i && InRange(js)
    ensures Mixed(x + tail, i, js) == Mixed(x, i, js) + tail
    decreases i
  {
    if i != 0 {
      var j := js[i - 1];
      assert Swapped(x + tail, i, j) == Swapped(x, i, j) + tail;
      MixedTail(Swapped(x, i, j), tail, i - 1, js[..i - 1]);
    }
  }

  lemma SameLast<T>(y: seq<T>, t: seq<T>, i: nat)
    requires |y| == |t| == i + 1 && multiset(y) == multiset(t) && y[i] == t[i]
    ensures multiset(y[..i]) == multiset(t[..i])
  {
    assert y == y[..i] + [y[i]] && t == t[..i] + [t[i]];
    assert multiset(y[..i]) == multiset(y) - multiset{t[i]};
  }

  /** An exchange can bring the wanted item to the end. */
  lemma BringLast<T>(x: seq<T>, t: seq<T>, i: nat) returns (j: nat)
    requires |x| == |t| == i + 1 && multiset(x) == multiset(t)
    ensures j <= i && Swapped(x, i, j)[i] == t[i] && multiset(Swapped(x, i, j)[..i]) == multiset(t[..i])
  {
    assert t[i] in multiset(x);
    j :| 0 <= j < |x| && x[j] == t[i];
    SwapPermutes(x, i, j);
    SameLast(Swapped(x, i, j), t, i);
  }

  /** Every order of the items is the result of some draws. */
  lemma {:induction false} EveryOrder<T>(x: seq<T>, t: seq<T>, i: nat) returns (js: seq<nat>)
    requires |x| == |t| == i + 1 && multiset(x) == multiset(t)
    ensures |js| == i && InRange(js) && Mixed(x, i, js) == t
    decreases i
  {
    var j := BringLast(x, t, i);
    if i == 0 {
      js := [];
    } else {
      var y := Swapped(x, i, j);
      var rest := EveryOrder(y[..i], t[..i], i - 1);
      MixedTail(y[..i], [t[i]], i - 1, rest);
      assert y == y[..i] + [t[i]] && t == t[..i] + [t[i]];
      js := rest + [j];
      assert js[..i - 1] == rest;
    }
  }

  // ---------------------------------------------------------------- the generator

  class PRNG {
    const source: Source
    var sha: Bytes
    var pool: Bytes
    /** Bytes handed out so far, and digests put in the pool so far. */
    ghost var position: nat
    ghost var blocks: nat

    ghost predicate Valid()
      reads this
    {
      && Hashes(source)
      && position + |pool| == 32 * blocks
      && pool == Stream(source, position, |pool|)
      && sha == Link(source, blocks)
    }

    constructor (hash: Bytes -> Bytes, seed: Bytes)
      requires forall x :: IsDigest(hash(x))
      ensures Valid() && source == Source(hash, hash(seed)) && position == 0
    {
      source := Source(hash, hash(seed));
      sha := hash(seed);
      pool := [];
      position := 0;
      blocks := 0;
    }

    /** The next n bytes of the stream, whatever was read before. */
    method GetBytes(n: nat) returns (result: Bytes)
      requires Valid()
      modifies this
      ensures Valid() && position == old(position) + n
      ensures result == Stream(source, old(position), n)
    {
      while |pool| < n
        invariant Valid() && position == old(position)
      {
        NextBlock(source, blocks);
        ReadsJoin(source, position, |pool|, 32);
        pool := pool + sha;
        sha := source.hash(sha);
        blocks := blocks + 1;
      }
      ReadsJoin(source, position, n, |pool| - n);
      result, pool := pool[..n], pool[n..];
      position := position + n;
    }

    method RandInt(start: int, end: int) returns (x: int)
      requires Valid() && start < end
      modifies this
      ensures Valid() && start <= x < end
      ensures x == start + Draw(source, old(position), end - start)
      ensures position == old(position) + BytesFor(end - start)
    {
      var n: nat := end - start;
      var r: nat, p: nat := 0, 1;
      ghost var k: nat := 0;
      while p < n
        invariant Valid() && 0 < p && position == old(position) + k
        invariant k + BytesFrom(p, n) == BytesFor(n)
        invariant r == Value(Stream(source, old(position), k), 256)
        decreases n - p
      {
        var b := GetBytes(1);
        ReadsJoin(source, old(position), k, 1);
        ValueSnoc(Stream(source, old(position), k), b[0], 256);
        assert b == [b[0]];
        r := b[0] + r * 256;
        p := p * 256;
        k := k + 1;
      }
      x := start + r % n;
    }

    /** Picks one of items 0..i and exchanges it with item i. */
    method ExchangeOne<T>(x: array<T>, i: nat)
      requires Valid() && i < x.Length
      modifies this, x
      ensures Valid() && position == old(position) + BytesFor(i + 1)
      ensures x[..] == Swapped(old(x[..]), i, Draw(source, old(position), i + 1))
    {
      var j := RandInt(0, i + 1);
      x[i], x[j] := x[j], x[i];
    }

    /** Shuffles in place; the result depends on the items and the stream alone. */
    method Shuffle<T>(x: array<T>)
      requires Valid()
      modifies this, x
      ensures Valid() && position == old(position) + (if x.Length == 0 then 0 else DrawBytes(x.Length - 1))
      ensures x[..] == Shuffled(old(x[..]), source, old(position))
      ensures multiset(x[..]) == multiset(old(x[..]))
    {
      if x.Length == 0 { return; }
      ShuffledMeaning(x[..], source, position);
      Exchanges(x);
    }

    /** The loop of the shuffle, from the last item down. */
    method Exchanges<T>(x: array<T>)
      requires Valid() && x.Length > 0
      modifies this, x
      ensures Valid() && position == old(position) + DrawBytes(x.Length - 1)
      ensures x[..] == Turns(old(x[..]), x.Length - 1, source, old(position))
    {
      var i := x.Length - 1;
      ghost var last := position + DrawBytes(i);
      ghost var result := Turns(x[..], i, source, position);
      while i > 0
        invariant 0 <= i < x.Length && Valid()
        invariant position + DrawBytes(i) == last
        invariant Turns(x[..], i, source, position) == result
      {
        ExchangeOne(x, i);
        i := i - 1;
      }
    }
  }
}
