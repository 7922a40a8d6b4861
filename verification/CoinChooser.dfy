/** Choosing coins to spend (electronfittexxcoin/coinchooser.py:70-99, electronfittexxcoin/coinchooser.py:167-255). */
module CoinChooser {
  import opened Arith
  import opened Prng
  import opened Sequences
  import opened Sorting

  datatype Coin = Coin(id: nat, address: string, value: nat, size: nat)

  datatype Bucket = Bucket(desc: string, size: nat, value: nat, coins: seq<Coin>)

  // ---------------------------------------------------------------- sums over lists

  function Values(bkts: seq<Bucket>): nat {
    if bkts == [] then 0 else bkts[0].value + Values(bkts[1..])
  }

  function Sizes(bkts: seq<Bucket>): nat {
    if bkts == [] then 0 else bkts[0].size + Sizes(bkts[1..])
  }

  function AllCoins(bkts: seq<Bucket>): seq<Coin> {
    if bkts == [] then [] else bkts[0].coins + AllCoins(bkts[1..])
  }

  /** The list without item k. */
  function Without<T>(s: seq<T>, k: nat): seq<T>
    requires k < |s|
  {
    s[..k] + s[k + 1..]
  }

  lemma WithoutCounts<T>(s: seq<T>, k: nat)
    requires k < |s|
    ensures multiset(s) == multiset(Without(s, k)) + multiset{s[k]}
  {
    assert s == s[..k] + [s[k]] + s[k + 1..];
  }

  lemma {:induction false} WithoutSums(s: seq<Bucket>, k: nat)
    requires k < |s|
    ensures Values(s) == s[k].value + Values(Without(s, k)) && Sizes(s) == s[k].size + Sizes(Without(s, k))
    ensures multiset(AllCoins(s)) == multiset(s[k].coins) + multiset(AllCoins(Without(s, k)))
  {
    WithoutTail(s, k);
    if k != 0 { WithoutSums(s[1..], k - 1); }
  }

  lemma WithoutTail<T>(s: seq<T>, k: nat)
    requires k < |s|
    ensures if k == 0 then Without(s, 0) == s[1..] else Without(s, k) != [] && Without(s, k)[0] == s[0] && Without(s, k)[1..] == Without(s[1..], k - 1)
  {}

  lemma FindFirst<T>(a: seq<T>, c: seq<T>) returns (k: nat)
    requires a != [] && multiset(a) <= multiset(c)
    ensures k < |c| && c[k] == a[0] && multiset(a[1..]) <= multiset(Without(c, k))
    ensures multiset(a) == multiset(c) ==> multiset(a[1..]) == multiset(Without(c, k))
  {
    assert a[0] in multiset(a);
    assert a[0] in multiset(c);
    k :| 0 <= k < |c| && c[k] == a[0];
    WithoutCounts(c, k);
    WithoutCounts(a, 0);
    assert Without(a, 0) == a[1..];
    assert multiset(a[1..]) == multiset(a) - multiset{a[0]};
    assert multiset(Without(c, k)) == multiset(c) - multiset{a[0]};
  }

  /** Sums depend on which buckets are in a list, not on their order. */
  lemma {:induction false} SumsUnordered(a: seq<Bucket>, c: seq<Bucket>)
    requires multiset(a) == multiset(c)
    ensures Values(a) == Values(c) && Sizes(a) == Sizes(c)
  {
    if a != [] {
      var k := FindFirst(a, c);
      SumsUnordered(a[1..], Without(c, k));
      WithoutSums(c, k);
    } else {
      assert |c| == |multiset(c)| == |multiset(a)| == 0;
    }
  }

  /** Coins of a part are coins of the whole. */
  lemma {:induction false} CoinsOfPart(a: seq<Bucket>, c: seq<Bucket>)
    requires multiset(a) <= multiset(c)
    ensures multiset(AllCoins(a)) <= multiset(AllCoins(c))
  {
    if a != [] {
      var k := FindFirst(a, c);
      CoinsOfPart(a[1..], Without(c, k));
      WithoutSums(c, k);
      assert multiset(AllCoins(a)) == multiset(a[0].coins) + multiset(AllCoins(a[1..]));
    }
  }

  // ---------------------------------------------------------------- enough funds

  /** What a payment needs: the amount spent, the size without inputs and the fee for a size. */
  datatype Payment = Payment(amount: nat, baseSize: nat, fee: nat -> int)

  predicate Sufficient(bkts: seq<Bucket>, p: Payment) {
    Values(bkts) >= p.amount + p.fee(Sizes(bkts) + p.baseSize)
  }

  lemma SufficientUnordered(a: seq<Bucket>, c: seq<Bucket>, p: Payment)
    requires multiset(a) == multiset(c)
    ensures Sufficient(a, p) <==> Sufficient(c, p)
  {
    SumsUnordered(a, c);
  }

  // ---------------------------------------------------------------- buckets

  /** Coins of one address, in their order. */
  function CoinsOf(coins: seq<Coin>, address: string): seq<Coin> {
    if coins == [] then []
    else
      var (rest, last) := (coins[..|coins| - 1], coins[|coins| - 1]);
      CoinsOf(rest, address) + (if last.address == address then [last] else [])
  }

  function TotalValue(coins: seq<Coin>): nat {
    if coins == [] then 0 else coins[0].value + TotalValue(coins[1..])
  }

  function TotalSize(coins: seq<Coin>): nat {
    if coins == [] then 0 else coins[0].size + TotalSize(coins[1..])
  }

  function MakeBucket(desc: string, coins: seq<Coin>): Bucket {
    Bucket(desc, TotalSize(coins), TotalValue(coins), coins)
  }

  /** Buckets whose value and size are those of their coins. */
  ghost predicate Sound(bkts: seq<Bucket>) {
    forall i :: 0 <= i < |bkts| ==> bkts[i].value == TotalValue(bkts[i].coins) && bkts[i].size == TotalSize(bkts[i].coins)
  }

  lemma {:induction false} TotalsAppend(a: seq<Coin>, c: seq<Coin>)
    ensures TotalValue(a + c) == TotalValue(a) + TotalValue(c) && TotalSize(a + c) == TotalSize(a) + TotalSize(c)
  {
    if a == [] {
      assert a + c == c;
    } else {
      assert (a + c)[1..] == a[1..] + c;
      TotalsAppend(a[1..], c);
    }
  }

  /** The value of a list of sound buckets is the total value of the coins in it. */
  lemma {:induction false} SumsAreTotals(bkts: seq<Bucket>)
    requires Sound(bkts)
    ensures Values(bkts) == TotalValue(AllCoins(bkts)) && Sizes(bkts) == TotalSize(AllCoins(bkts))
  {
    if bkts != [] {
      SumsAreTotals(bkts[1..]);
      TotalsAppend(bkts[0].coins, AllCoins(bkts[1..]));
    }
  }

  lemma TotalsWithout(s: seq<Coin>, k: nat)
    requires k < |s|
    ensures TotalValue(s) == s[k].value + TotalValue(Without(s, k)) && TotalSize(s) == s[k].size + TotalSize(Without(s, k))
  {
    CutAround(s, k);
    TotalsAppend(s[..k] + [s[k]], s[k + 1..]);
    TotalsAppend(s[..k], [s[k]]);
    TotalsAppend(s[..k], s[k + 1..]);
    assert TotalValue([s[k]]) == s[k].value && TotalSize([s[k]]) == s[k].size;
  }

  /** Totals depend on which coins there are, not on their order. */
  lemma {:induction false} TotalsUnordered(a: seq<Coin>, c: seq<Coin>)
    requires multiset(a) == multiset(c)
    ensures TotalValue(a) == TotalValue(c) && TotalSize(a) == TotalSize(c)
  {
    if a != [] {
      var k := FindFirst(a, c);
      TotalsUnordered(a[1..], Without(c, k));
      TotalsWithout(c, k);
    } else {
      assert |c| == |multiset(c)| == |multiset(a)| == 0;
    }
  }

  ghost predicate AllDistinct(keys: seq<string>) {
    forall i, j :: 0 <= i < j < |keys| ==> keys[i] != keys[j]
  }

  /** Every address of a coin is listed once. */
  ghost predicate ListsAddresses(keys: seq<string>, coins: seq<Coin>) {
    AllDistinct(keys) && forall i :: 0 <= i < |coins| ==> coins[i].address in keys
  }

  function BucketsOf(coins: seq<Coin>, keys: seq<string>): (bkts: seq<Bucket>)
    ensures |bkts| == |keys| && forall i :: 0 <= i < |keys| ==> bkts[i] == MakeBucket(keys[i], CoinsOf(coins, keys[i]))
  {
    if keys == [] then [] else [MakeBucket(keys[0], CoinsOf(coins, keys[0]))] + BucketsOf(coins, keys[1..])
  }

  /** One more coin goes to the bucket of its address and to no other. */
  lemma {:induction false} OneMoreCoin(coins: seq<Coin>, c: Coin, keys: seq<string>)
    requires AllDistinct(keys)
    ensures multiset(AllCoins(BucketsOf(coins + [c], keys)))
         == multiset(AllCoins(BucketsOf(coins, keys))) + (if c.address in keys then multiset{c} else multiset{})
  {
    if keys != [] {
      OneMoreCoin(coins, c, keys[1..]);
      CoinsOfSnoc(coins, c, keys[0]);
      var (b, b', rest, rest') := (BucketsOf(coins, keys), BucketsOf(coins + [c], keys), BucketsOf(coins, keys[1..]), BucketsOf(coins + [c], keys[1..]));
      assert b == [MakeBucket(keys[0], CoinsOf(coins, keys[0]))] + rest;
      assert b' == [MakeBucket(keys[0], CoinsOf(coins + [c], keys[0]))] + rest';
      FirstBucket(b[0], rest);
      FirstBucket(b'[0], rest');
      LastApart(keys);
    }
  }

  lemma FirstBucket(b: Bucket, bkts: seq<Bucket>)
    ensures multiset(AllCoins([b] + bkts)) == multiset(b.coins) + multiset(AllCoins(bkts))
  {
    assert ([b] + bkts)[1..] == bkts;
  }

  lemma CoinsOfSnoc(coins: seq<Coin>, c: Coin, address: string)
    ensures multiset(CoinsOf(coins + [c], address))
         == multiset(CoinsOf(coins, address)) + (if c.address == address then multiset{c} else multiset{})
  {
    assert (coins + [c])[..|coins|] == coins;
  }

  lemma {:induction false} NoCoins(keys: seq<string>)
    ensures AllCoins(BucketsOf([], keys)) == []
  {
    if keys != [] { NoCoins(keys[1..]); }
  }

  /** The buckets hold every coin exactly once. */
  lemma {:induction false} BucketsPartition(coins: seq<Coin>, keys: seq<string>)
    requires ListsAddresses(keys, coins)
    ensures multiset(AllCoins(BucketsOf(coins, keys))) == multiset(coins)
  {
    if coins == [] {
      NoCoins(keys);
    } else {
      var (rest, c) := (coins[..|coins| - 1], coins[|coins| - 1]);
      BucketsPartition(rest, keys);
      LastApart(coins);
      OneMoreCoin(rest, c, keys);
    }
  }

  /** The dictionary holds the coins of each address met so far. */
  ghost predicate Grouped(buckets: map<string, seq<Coin>>, keys: seq<string>, coins: seq<Coin>) {
    && ListsAddresses(keys, coins)
    && (forall k :: k in keys <==> k in buckets)
    && (forall k :: k in buckets ==> buckets[k] == CoinsOf(coins, k))
  }

  ghost predicate NoneEmpty(buckets: map<string, seq<Coin>>) { forall k :: k in buckets ==> buckets[k] != [] }

  lemma GroupOneMore(buckets: map<string, seq<Coin>>, keys: seq<string>, coins: seq<Coin>, c: Coin)
    requires Grouped(buckets, keys, coins) && c.address in buckets
    ensures Grouped(buckets[c.address := buckets[c.address] + [c]], keys, coins + [c])
  {
    assert (coins + [c])[..|coins|] == coins;
  }

  lemma GroupNewAddress(buckets: map<string, seq<Coin>>, keys: seq<string>, coins: seq<Coin>, address: string)
    requires Grouped(buckets, keys, coins) && address !in buckets
    ensures Grouped(buckets[address := []], keys + [address], coins)
  {
    NoneYet(coins, address);
  }

  /** Adds a coin to the list of its address, which starts empty. */
  method AddCoin(buckets: map<string, seq<Coin>>, keys: seq<string>, c: Coin, ghost before: seq<Coin>)
    returns (buckets': map<string, seq<Coin>>, keys': seq<string>)
    requires Grouped(buckets, keys, before) && NoneEmpty(buckets)
    ensures Grouped(buckets', keys', before + [c]) && NoneEmpty(buckets')
  {
    buckets', keys' := buckets, keys;
    if c.address !in buckets {
      GroupNewAddress(buckets, keys, before, c.address);
      keys' := keys + [c.address];
      buckets' := buckets[c.address := []];
    }
    GroupOneMore(buckets', keys', before, c);
    buckets' := buckets'[c.address := buckets'[c.address] + [c]];
  }

  /** Groups coins by address, addresses in order of first appearance. */
  method BucketizeCoins(coins: seq<Coin>) returns (bkts: seq<Bucket>)
    ensures exists keys :: ListsAddresses(keys, coins) && bkts == BucketsOf(coins, keys)
    ensures forall i :: 0 <= i < |bkts| ==> bkts[i].coins != []
    ensures multiset(AllCoins(bkts)) == multiset(coins)
    ensures Sound(bkts) && Values(bkts) == TotalValue(coins) && Sizes(bkts) == TotalSize(coins)
  {
    var buckets: map<string, seq<Coin>> := map[];
    var keys: seq<string> := [];
    for i := 0 to |coins|
      invariant Grouped(buckets, keys, coins[..i]) && NoneEmpty(buckets)
    {
      buckets, keys := AddCoin(buckets, keys, coins[i], coins[..i]);
      assert coins[..i + 1] == coins[..i] + [coins[i]];
    }
    assert coins[..|coins|] == coins;
    bkts := MakeBuckets(buckets, keys, coins);
    BucketsPartition(coins, keys);
    SumsAreTotals(bkts);
    TotalsUnordered(AllCoins(bkts), coins);
  }

  lemma BucketsSnoc(coins: seq<Coin>, keys: seq<string>, k: string)
    ensures BucketsOf(coins, keys + [k]) == BucketsOf(coins, keys) + [MakeBucket(k, CoinsOf(coins, k))]
  {}

  method MakeBuckets(buckets: map<string, seq<Coin>>, keys: seq<string>, ghost coins: seq<Coin>) returns (bkts: seq<Bucket>)
    requires Grouped(buckets, keys, coins) && NoneEmpty(buckets)
    ensures bkts == BucketsOf(coins, keys)
    ensures forall i :: 0 <= i < |bkts| ==> bkts[i].coins != []
  {
    bkts := [];
    for i := 0 to |keys|
      invariant bkts == BucketsOf(coins, keys[..i])
      invariant forall j :: 0 <= j < i ==> bkts[j].coins != []
    {
      TakeOneMore(keys, i);
      BucketsSnoc(coins, keys[..i], keys[i]);
      bkts := bkts + [MakeBucket(keys[i], buckets[keys[i]])];
    }
    TakeAll(keys);
  }

  lemma {:induction false} NoneYet(coins: seq<Coin>, address: string)
    requires forall i :: 0 <= i < |coins| ==> coins[i].address != address
    ensures CoinsOf(coins, address) == []
  {
    if coins != [] { NoneYet(coins[..|coins| - 1], address); }
  }

  // ---------------------------------------------------------------- candidates

  /** What a candidate promises: buckets out of the given ones, each used at most as often as it is given;
      enough funds; and too little without its least valuable bucket, if paying takes any bucket at all. */
  ghost predicate IsCandidate(cand: seq<Bucket>, buckets: seq<Bucket>, p: Payment) {
    && multiset(cand) <= multiset(buckets)
    && Sufficient(cand, p)
    && (!Sufficient([], p) ==> NeedsLeast(cand, p))
  }

  ghost predicate AllCandidates(list: seq<seq<Bucket>>, buckets: seq<Bucket>, p: Payment) {
    forall i :: 0 <= i < |list| ==> IsCandidate(list[i], buckets, p)
  }

  ghost predicate NeedsLeast(cand: seq<Bucket>, p: Payment) {
    cand != [] && !Sufficient(cand[1..], p) && forall i :: 0 <= i < |cand| ==> cand[0].value <= cand[i].value
  }

  function ByValue(b: Bucket): int { b.value }

  function Itself(n: nat): int { n }

  /** The end of a sorted list that is left when buckets are dropped from place i on. */
  function StripFrom(s: seq<Bucket>, i: nat, p: Payment): seq<Bucket>
    requires i <= |s|
    decreases |s| - i
  {
    if i == |s| then s else if !Sufficient(s[i + 1..], p) then s[i..] else StripFrom(s, i + 1, p)
  }

  function Stripped(bkts: seq<Bucket>, p: Payment): seq<Bucket> { StripFrom(SortedBy(bkts, ByValue), 0, p) }

  lemma StripSingle(b: Bucket, p: Payment)
    ensures Stripped([b], p) == [b]
  {
    var s := SortedBy([b], ByValue);
    assert |s| == |multiset(s)| == |multiset([b])| == 1;
    OneItem([b], s);
    assert s[0..] == s && StripFrom(s, 1, p) == s;
  }

  /** Drops buckets from the least valuable end while the rest still suffices. */
  method StripUnneeded(bkts: seq<Bucket>, p: Payment) returns (r: seq<Bucket>)
    requires Sufficient(bkts, p)
    ensures r == Stripped(bkts, p)
    ensures IsCandidate(r, bkts, p)
    ensures |bkts| == 1 ==> r == bkts
  {
    var s := SortedBy(bkts, ByValue);
    SortedAscends(bkts, ByValue);
    SufficientUnordered(bkts, s, p);
    assert |s| == |multiset(s)| == |multiset(bkts)| == |bkts|;
    for i := 0 to |s|
      invariant Sufficient(s[i..], p) && StripFrom(s, i, p) == StripFrom(s, 0, p)
      invariant i > 0 && |s| == 1 ==> Sufficient([], p)
    {
      if !Sufficient(s[i + 1..], p) {
        StripHere(bkts, s, i, p);
        if |bkts| == 1 { OneItem(bkts, s); }
        return s[i..];
      }
    }
    assert s[|s|..] == [];
    r := s;
    if |bkts| == 1 { OneItem(bkts, s); }
  }

  lemma StripHere(bkts: seq<Bucket>, s: seq<Bucket>, i: nat, p: Payment)
    requires i < |s| && multiset(s) == multiset(bkts) && Ascending(s, ByValue)
    requires Sufficient(s[i..], p) && !Sufficient(s[i + 1..], p)
    ensures IsCandidate(s[i..], bkts, p)
  {
    SplitAt(s, i);
    TakeOneMore(s, i);
    forall j | 0 <= j < |s[i..]| ensures s[i..][0].value <= s[i..][j].value {
      assert ByValue(s[i]) <= ByValue(s[i + j]);
    }
  }

  lemma OneItem<T>(a: seq<T>, c: seq<T>)
    requires |a| == |c| == 1 && multiset(a) == multiset(c)
    ensures a == c
  {
    assert a[0] in multiset(c);
  }

  // ---------------------------------------------------------------- selecting by index

  predicate IndexesInto(ns: seq<nat>, buckets: seq<Bucket>) { forall i :: 0 <= i < |ns| ==> ns[i] < |buckets| }

  function Selected(buckets: seq<Bucket>, ns: seq<nat>): (bkts: seq<Bucket>)
    requires IndexesInto(ns, buckets)
    ensures |bkts| == |ns| && forall i :: 0 <= i < |ns| ==> bkts[i] == buckets[ns[i]]
  {
    seq(|ns|, i requires 0 <= i < |ns| => buckets[ns[i]])
  }

  function Indexes(n: nat): (ns: seq<nat>)
    ensures |ns| == n && forall i :: 0 <= i < n ==> ns[i] == i
  {
    seq(n, i requires 0 <= i < n => i)
  }

  lemma SelectedWithout(buckets: seq<Bucket>, ns: seq<nat>, k: nat)
    requires IndexesInto(ns, buckets) && k < |ns|
    ensures IndexesInto(Without(ns, k), buckets)
    ensures multiset(Selected(buckets, ns)) == multiset(Selected(buckets, Without(ns, k))) + multiset{buckets[ns[k]]}
  {
    assert Selected(buckets, Without(ns, k)) == Without(Selected(buckets, ns), k);
    WithoutCounts(Selected(buckets, ns), k);
  }

  lemma SelectedHead(buckets: seq<Bucket>, a: seq<nat>)
    requires a != [] && a[0] < |buckets| && IndexesInto(a[1..], buckets)
    ensures IndexesInto(a, buckets) && Selected(buckets, a) == [buckets[a[0]]] + Selected(buckets, a[1..])
    ensures multiset(Selected(buckets, a)) == multiset{buckets[a[0]]} + multiset(Selected(buckets, a[1..]))
  {
    forall i | 0 <= i < |a| ensures a[i] < |buckets| { if i > 0 { assert a[1..][i - 1] == a[i]; } }
    assert Selected(buckets, a) == [buckets[a[0]]] + Selected(buckets, a[1..]);
  }

  /** Indexes taken once each select every bucket at most as often as it is given. */
  lemma {:induction false} SelectedPart(buckets: seq<Bucket>, a: seq<nat>, c: seq<nat>)
    requires IndexesInto(c, buckets) && multiset(a) <= multiset(c)
    ensures IndexesInto(a, buckets) && multiset(Selected(buckets, a)) <= multiset(Selected(buckets, c))
  {
    if a == [] {
      assert Selected(buckets, a) == [];
    } else {
      var k := FindFirst(a, c);
      SelectedWithout(buckets, c, k);
      SelectedPart(buckets, a[1..], Without(c, k));
      LastApart(a);
      SelectedHead(buckets, a);
    }
  }

  /** A choice of indexes whose buckets suffice. */
  ghost predicate GoodChoice(ns: seq<nat>, buckets: seq<Bucket>, p: Payment) {
    && multiset(ns) <= multiset(Indexes(|buckets|))
    && IndexesInto(ns, buckets)
    && Sufficient(Selected(buckets, ns), p)
  }

  lemma SelectAll(buckets: seq<Bucket>, ns: seq<nat>)
    requires multiset(ns) <= multiset(Indexes(|buckets|))
    ensures IndexesInto(ns, buckets) && multiset(Selected(buckets, ns)) <= multiset(buckets)
    ensures multiset(ns) == multiset(Indexes(|buckets|)) ==> multiset(Selected(buckets, ns)) == multiset(buckets)
  {
    var all := Indexes(|buckets|);
    SelectedPart(buckets, ns, all);
    assert Selected(buckets, all) == buckets;
    if multiset(ns) == multiset(all) { SelectedPart(buckets, all, ns); }
  }

  // ---------------------------------------------------------------- what the seed determines

  datatype Found<T> = Found(value: T) | Missing

  /** The first beginning of the permutation, of more than count indexes, that suffices. */
  function ShortestStart(buckets: seq<Bucket>, pay: Payment, permutation: seq<nat>, count: nat): Found<seq<nat>>
    requires IndexesInto(permutation, buckets) && count <= |permutation|
    decreases |permutation| - count
  {
    if count == |permutation| then Missing
    else if Sufficient(Selected(buckets, permutation[..count + 1]), pay) then Found(SortedBy(permutation[..count + 1], Itself))
    else ShortestStart(buckets, pay, permutation, count + 1)
  }

  /** Sufficient single buckets among the first n. */
  function Singles(buckets: seq<Bucket>, pay: Payment, n: nat): seq<seq<nat>>
    requires n <= |buckets|
  {
    if n == 0 then []
    else Singles(buckets, pay, n - 1) + (if Sufficient([buckets[n - 1]], pay) then [[n - 1]] else [])
  }

  ghost predicate Permutes(permutation: seq<nat>, buckets: seq<Bucket>) {
    multiset(permutation) == multiset(Indexes(|buckets|)) && IndexesInto(permutation, buckets)
  }

  lemma ShuffledPermutes(permutation: seq<nat>, buckets: seq<Bucket>, s: Source, k: nat)
    requires Permutes(permutation, buckets) && permutation != []
    ensures Permutes(Shuffled(permutation, s, k), buckets)
  {
    ShuffledMeaning(permutation, s, k);
    SelectAll(buckets, Shuffled(permutation, s, k));
  }

  /** Where a search stands: bytes used of the stream, the permutation last tried and the choices so far. */
  datatype Progress = Progress(k: nat, permutation: seq<nat>, choices: seq<seq<nat>>)

  function WithChoice(choices: seq<seq<nat>>, ns: seq<nat>): seq<seq<nat>> {
    if ns in choices then choices else choices + [ns]
  }

  /** One more attempt: the permutation is shuffled again and its shortest sufficient beginning is chosen. */
  ghost function NextAttempt(buckets: seq<Bucket>, pay: Payment, s: Source, x: Progress): Found<Progress> {
    var next := Shuffled(x.permutation, s, x.k);
    if next == [] || !IndexesInto(next, buckets) then Missing
    else
      var found := ShortestStart(buckets, pay, next, 0);
      if found.Missing? then Missing
      else Found(Progress(x.k + DrawBytes(|next| - 1), next, WithChoice(x.choices, found.value)))
  }

  ghost function Attempting(buckets: seq<Bucket>, pay: Payment, s: Source): Progress -> Found<Progress> {
    x => NextAttempt(buckets, pay, s, x)
  }

  ghost function Repeat<S>(f: S -> Found<S>, n: nat, x: S): Found<S> {
    if n == 0 then Found(x)
    else
      var y := f(x);
      if y.Missing? then Missing else Repeat(f, n - 1, y.value)
  }

  lemma RepeatOnce<S>(f: S -> Found<S>, n: nat, x: S)
    requires n > 0
    ensures Repeat(f, n, x) == if f(x).Missing? then Missing else Repeat(f, n - 1, f(x).value)
  {}

  /** For n buckets 10 n - 9 attempts are made, but at most 100, and none for no buckets. */
  function Attempts(n: nat): nat { if n == 0 then 0 else Min(100, 10 * n - 9) }

  /** The indexes chosen, as they follow from the buckets, the payment and the generator. */
  ghost function Choices(buckets: seq<Bucket>, pay: Payment, s: Source, k: nat): Found<Progress> {
    Repeat(Attempting(buckets, pay, s), Attempts(|buckets|), Progress(k, Indexes(|buckets|), Singles(buckets, pay, |buckets|)))
  }

  lemma AllIndexes(buckets: seq<Bucket>)
    ensures Permutes(Indexes(|buckets|), buckets)
  {
    SelectAll(buckets, Indexes(|buckets|));
  }

  ghost predicate AllGood(candidates: seq<seq<nat>>, buckets: seq<Bucket>, pay: Payment) {
    forall i :: 0 <= i < |candidates| ==> GoodChoice(candidates[i], buckets, pay)
  }

  lemma {:induction false} StartPromises(buckets: seq<Bucket>, pay: Payment, permutation: seq<nat>, count: nat)
    requires Permutes(permutation, buckets) && count <= |permutation| && buckets != []
    requires count > 0 ==> !Sufficient(Selected(buckets, permutation[..count]), pay)
    ensures
      match ShortestStart(buckets, pay, permutation, count)
      case Missing => !Sufficient(buckets, pay)
      case Found(ns) => GoodChoice(ns, buckets, pay)
    decreases |permutation| - count
  {
    if count == |permutation| {
      NoneSuffice(buckets, pay, permutation);
    } else if Sufficient(Selected(buckets, permutation[..count + 1]), pay) {
      var part := permutation[..count + 1];
      SortedChoice(buckets, permutation, part, SortedBy(part, Itself));
      SufficientUnordered(Selected(buckets, part), Selected(buckets, SortedBy(part, Itself)), pay);
    } else {
      StartPromises(buckets, pay, permutation, count + 1);
    }
  }

  lemma NoneSuffice(buckets: seq<Bucket>, pay: Payment, permutation: seq<nat>)
    requires Permutes(permutation, buckets) && buckets != []
    requires permutation != [] ==> !Sufficient(Selected(buckets, permutation[..|permutation|]), pay)
    ensures !Sufficient(buckets, pay)
  {
    assert |multiset(permutation)| == |multiset(Indexes(|buckets|))| == |buckets|;
    assert permutation[..|permutation|] == permutation;
    SelectAll(buckets, permutation);
    SufficientUnordered(Selected(buckets, permutation), buckets, pay);
  }

  /** An attempt adds a choice that suffices, or all buckets together do not suffice. */
  lemma AttemptPromises(buckets: seq<Bucket>, pay: Payment, s: Source, x: Progress)
    requires buckets != [] && Permutes(x.permutation, buckets) && x.permutation != [] && AllGood(x.choices, buckets, pay)
    ensures
      var y := NextAttempt(buckets, pay, s, x);
      if y.Missing? then !Sufficient(buckets, pay)
      else
        && Permutes(y.value.permutation, buckets) && y.value.permutation != []
        && AllGood(y.value.choices, buckets, pay) && x.choices <= y.value.choices && y.value.choices != []
  {
    var next := Shuffled(x.permutation, s, x.k);
    ShuffledPermutes(x.permutation, buckets, s, x.k);
    StartPromises(buckets, pay, next, 0);
  }

  /** Attempts from x lead to the end: it lists what x lists, and something if there was an attempt. */
  ghost predicate Promises(x: Progress, end: Found<Progress>, some: bool, buckets: seq<Bucket>, pay: Payment) {
    if end.Missing? then buckets != [] && !Sufficient(buckets, pay)
    else AllGood(end.value.choices, buckets, pay) && x.choices <= end.value.choices && (some ==> end.value.choices != [])
  }

  /** Every choice suffices, earlier ones stay, and giving up means that all buckets together do not suffice. */
  lemma {:induction false} RepeatPromises(buckets: seq<Bucket>, pay: Payment, s: Source, n: nat, x: Progress)
    requires Permutes(x.permutation, buckets) && (n > 0 ==> x.permutation != [] && buckets != [])
    requires AllGood(x.choices, buckets, pay)
    ensures Promises(x, Repeat(Attempting(buckets, pay, s), n, x), n > 0, buckets, pay)
  {
    if n != 0 {
      var f := Attempting(buckets, pay, s);
      RepeatOnce(f, n, x);
      assert f(x) == NextAttempt(buckets, pay, s, x);
      AttemptPromises(buckets, pay, s, x);
      if f(x).Found? {
        var y := f(x).value;
        RepeatPromises(buckets, pay, s, n - 1, y);
        PromisesFurther(x, y, Repeat(f, n - 1, y), n > 1, buckets, pay);
      }
    }
  }

  lemma PromisesFurther(x: Progress, y: Progress, end: Found<Progress>, some: bool, buckets: seq<Bucket>, pay: Payment)
    requires Promises(y, end, some, buckets, pay) && x.choices <= y.choices && y.choices != []
    ensures Promises(x, end, true, buckets, pay)
  {}

  lemma {:induction false} SinglesMeaning(buckets: seq<Bucket>, pay: Payment, n: nat)
    requires n <= |buckets|
    ensures AllGood(Singles(buckets, pay, n), buckets, pay)
    ensures forall m: nat :: m < n && Sufficient([buckets[m]], pay) ==> [m] in Singles(buckets, pay, n)
  {
    if n != 0 {
      SinglesMeaning(buckets, pay, n - 1);
      OneIndex(|buckets|, n - 1);
      assert Selected(buckets, [n - 1]) == [buckets[n - 1]];
    }
  }

  /** What the choices promise. */
  lemma ChoicesPromise(buckets: seq<Bucket>, pay: Payment, s: Source, k: nat)
    ensures
      var end := Choices(buckets, pay, s, k);
      if end.Missing? then buckets != [] && !Sufficient(buckets, pay)
      else
        && AllGood(end.value.choices, buckets, pay) && (buckets == [] <==> end.value.choices == [])
        && forall m: nat :: m < |buckets| && Sufficient([buckets[m]], pay) ==> [m] in end.value.choices
  {
    AllIndexes(buckets);
    SinglesMeaning(buckets, pay, |buckets|);
    assert |Indexes(|buckets|)| == |buckets|;
    RepeatPromises(buckets, pay, s, Attempts(|buckets|), Progress(k, Indexes(|buckets|), Singles(buckets, pay, |buckets|)));
  }

  // ---------------------------------------------------------------- the chooser

  datatype Outcome = Candidates(list: seq<seq<Bucket>>) | NotEnoughFunds

  datatype Choice = Chosen(winner: seq<Bucket>) | Refused | NoCandidates

  /** The winner stands in the list where its least penalty is met first. */
  ghost predicate FirstOfLeast(winner: seq<Bucket>, list: seq<seq<Bucket>>, penalty: seq<Bucket> -> real) {
    exists k :: 0 <= k < |list| && list[k] == winner &&
      (forall j :: 0 <= j < |list| ==> penalty(winner) <= penalty(list[j])) &&
      (forall j :: 0 <= j < k ==> penalty(winner) < penalty(list[j]))
  }

  /** The list holds the choices, each stripped of what it does not need. */
  ghost predicate StrippedFrom(list: seq<seq<Bucket>>, choices: seq<seq<nat>>, buckets: seq<Bucket>, pay: Payment) {
    && |list| == |choices|
    && forall i :: 0 <= i < |list| ==>
         IndexesInto(choices[i], buckets) && list[i] == Stripped(Selected(buckets, choices[i]), pay)
  }

  /** A sufficient single bucket among the choices is itself listed. */
  lemma SinglesListed(list: seq<seq<Bucket>>, choices: seq<seq<nat>>, buckets: seq<Bucket>, pay: Payment)
    requires StrippedFrom(list, choices, buckets, pay)
    requires forall m: nat :: m < |buckets| && Sufficient([buckets[m]], pay) ==> [m] in choices
    ensures forall m: nat :: m < |buckets| && Sufficient([buckets[m]], pay) ==> [buckets[m]] in list
  {
    forall m: nat | m < |buckets| && Sufficient([buckets[m]], pay) ensures [buckets[m]] in list {
      assert [m] in choices;
      var j :| 0 <= j < |choices| && choices[j] == [m];
      assert Selected(buckets, [m]) == [buckets[m]];
      StripSingle(buckets[m], pay);
      assert list[j] == [buckets[m]];
    }
  }

  lemma StrippedSnoc(list: seq<seq<Bucket>>, choices: seq<seq<nat>>, i: nat, buckets: seq<Bucket>, pay: Payment, c: seq<Bucket>)
    requires i < |choices| && StrippedFrom(list, choices[..i], buckets, pay)
    requires IndexesInto(choices[i], buckets) && c == Stripped(Selected(buckets, choices[i]), pay)
    ensures StrippedFrom(list + [c], choices[..i + 1], buckets, pay)
  {
    TakeOneMore(choices, i);
  }

  /** The outcome is the one that buckets, payment and generator determine. */
  ghost predicate Follows(r: Outcome, end: Found<Progress>, buckets: seq<Bucket>, pay: Payment) {
    match r
    case NotEnoughFunds => end.Missing?
    case Candidates(list) => end.Found? && StrippedFrom(list, end.value.choices, buckets, pay)
  }

  class Chooser {
    const p: PRNG

    constructor (generator: PRNG)
      ensures p == generator
    {
      p := generator;
    }

    /** The shortest beginning of a permutation that suffices, as sorted indexes. */
    method TryPermutation(buckets: seq<Bucket>, pay: Payment, permutation: seq<nat>) returns (found: Found<seq<nat>>)
      requires IndexesInto(permutation, buckets)
      ensures found == ShortestStart(buckets, pay, permutation, 0)
    {
      var bkts := [];
      for count := 0 to |permutation|
        invariant bkts == Selected(buckets, permutation[..count])
        invariant ShortestStart(buckets, pay, permutation, count) == ShortestStart(buckets, pay, permutation, 0)
      {
        bkts := bkts + [buckets[permutation[count]]];
        assert bkts == Selected(buckets, permutation[..count + 1]);
        if Sufficient(bkts, pay) { return Found(SortedBy(permutation[..count + 1], Itself)); }
      }
      found := Missing;
    }

    method Singletons(buckets: seq<Bucket>, pay: Payment) returns (candidates: seq<seq<nat>>)
      ensures candidates == Singles(buckets, pay, |buckets|)
    {
      candidates := [];
      for n := 0 to |buckets|
        invariant candidates == Singles(buckets, pay, n)
      {
        if Sufficient([buckets[n]], pay) { candidates := candidates + [[n]]; }
      }
    }

    /** One attempt with a new permutation. */
    method Attempt(buckets: seq<Bucket>, pay: Payment, permutation: array<nat>) returns (found: Found<seq<nat>>)
      requires p.Valid() && permutation.Length > 0 && Permutes(permutation[..], buckets)
      modifies p, permutation
      ensures p.Valid() && p.position == old(p.position) + DrawBytes(permutation.Length - 1)
      ensures permutation[..] == Shuffled(old(permutation[..]), p.source, old(p.position))
      ensures Permutes(permutation[..], buckets) && found == ShortestStart(buckets, pay, permutation[..], 0)
    {
      ShuffledPermutes(permutation[..], buckets, p.source, p.position);
      p.Shuffle(permutation);
      found := TryPermutation(buckets, pay, permutation[..]);
    }

    /** One turn of the loop: the candidates with the choice of one more attempt. */
    method Turn(buckets: seq<Bucket>, pay: Payment, permutation: array<nat>, candidates: seq<seq<nat>>)
      returns (r: Found<seq<seq<nat>>>)
      requires p.Valid() && permutation.Length > 0 && Permutes(permutation[..], buckets)
      modifies p, permutation
      ensures p.Valid() && Permutes(permutation[..], buckets)
      ensures NextAttempt(buckets, pay, p.source, Progress(old(p.position), old(permutation[..]), candidates))
           == if r.Missing? then Missing else Found(Progress(p.position, permutation[..], r.value))
    {
      var ns := Attempt(buckets, pay, permutation);
      if ns.Missing? { return Missing; }
      r := Found(WithChoice(candidates, ns.value));
    }

    /** The sufficient single buckets and the beginnings of some random permutations. */
    method ChooseIndexes(buckets: seq<Bucket>, pay: Payment) returns (r: Found<seq<seq<nat>>>)
      requires p.Valid()
      modifies p
      ensures p.Valid()
      ensures var end := Choices(buckets, pay, p.source, old(p.position));
              r == if end.Missing? then Missing else Found(end.value.choices)
    {
      var candidates := Singletons(buckets, pay);
      var attempts := Min(100, (|buckets| - 1) * 10 + 1);
      var permutation := new nat[|buckets|](i requires 0 <= i < |buckets| => i);
      assert permutation[..] == Indexes(|buckets|);
      AllIndexes(buckets);
      ghost var f := Attempting(buckets, pay, p.source);
      ghost var x := Progress(p.position, permutation[..], candidates);
      ghost var end := Repeat(f, Attempts(|buckets|), x);
      var i := 0;
      while i < attempts
        invariant p.Valid() && fresh(permutation) && permutation.Length == |buckets| && 0 <= i <= Attempts(|buckets|)
        invariant x == Progress(p.position, permutation[..], candidates) && Permutes(permutation[..], buckets)
        invariant Repeat(f, Attempts(|buckets|) - i, x) == end
      {
        RepeatOnce(f, Attempts(|buckets|) - i, x);
        assert f(x) == NextAttempt(buckets, pay, p.source, x);
        var next := Turn(buckets, pay, permutation, candidates);
        if next.Missing? { return Missing; }
        candidates := next.value;
        x := f(x).value;
        i := i + 1;
      }
      r := Found(candidates);
    }

    /** All sufficient single buckets and some random choices, each stripped of what it does not need. The
        result depends on the buckets, the payment and the state of the generator alone. */
    method BucketCandidates(buckets: seq<Bucket>, pay: Payment) returns (r: Outcome)
      requires p.Valid()
      modifies p
      ensures p.Valid()
      ensures Follows(r, Choices(buckets, pay, p.source, old(p.position)), buckets, pay)
      ensures r.NotEnoughFunds? ==> buckets != [] && !Sufficient(buckets, pay)
      ensures r.Candidates? ==> AllCandidates(r.list, buckets, pay)
      ensures r.Candidates? && buckets != [] ==> r.list != []
      ensures r.Candidates? ==> forall n :: 0 <= n < |buckets| && Sufficient([buckets[n]], pay) ==> [buckets[n]] in r.list
      ensures buckets == [] ==> r == Candidates([])
    {
      ChoicesPromise(buckets, pay, p.source, p.position);
      var choices := ChooseIndexes(buckets, pay);
      if choices.Missing? { return NotEnoughFunds; }
      var list := StripAll(buckets, pay, choices.value);
      SinglesListed(list, choices.value, buckets, pay);
      r := Candidates(list);
    }

    method StripOne(buckets: seq<Bucket>, pay: Payment, ns: seq<nat>) returns (c: seq<Bucket>)
      requires GoodChoice(ns, buckets, pay)
      ensures IsCandidate(c, buckets, pay) && c == Stripped(Selected(buckets, ns), pay)
    {
      SelectAll(buckets, ns);
      c := StripUnneeded(Selected(buckets, ns), pay);
    }

    method StripAll(buckets: seq<Bucket>, pay: Payment, candidates: seq<seq<nat>>) returns (list: seq<seq<Bucket>>)
      requires AllGood(candidates, buckets, pay)
      ensures StrippedFrom(list, candidates, buckets, pay)
      ensures AllCandidates(list, buckets, pay)
    {
      list := [];
      for i := 0 to |candidates|
        invariant StrippedFrom(list, candidates[..i], buckets, pay)
        invariant AllCandidates(list, buckets, pay)
      {
        var c := StripOne(buckets, pay, candidates[i]);
        StrippedSnoc(list, candidates, i, buckets, pay, c);
        list := list + [c];
      }
      TakeAll(candidates);
    }

    /** The first place of the least penalty. */
    method LeastPenalty(list: seq<seq<Bucket>>, penalty: seq<Bucket> -> real) returns (k: nat)
      requires list != []
      ensures k < |list| && forall j :: 0 <= j < |list| ==> penalty(list[k]) <= penalty(list[j])
      ensures forall j :: 0 <= j < k ==> penalty(list[k]) < penalty(list[j])
    {
      k := 0;
      for i := 1 to |list|
        invariant k < i && forall j :: 0 <= j < i ==> penalty(list[k]) <= penalty(list[j])
        invariant forall j :: 0 <= j < k ==> penalty(list[k]) < penalty(list[j])
      {
        if penalty(list[i]) < penalty(list[k]) { k := i; }
      }
    }

    /** Picks the first of the candidates tried that has the least penalty of them all. */
    method ChooseBuckets(buckets: seq<Bucket>, pay: Payment, penalty: seq<Bucket> -> real)
      returns (c: Choice, ghost tried: seq<seq<Bucket>>)
      requires p.Valid()
      modifies p
      ensures p.Valid()
      ensures AllCandidates(tried, buckets, pay)
      ensures c.Chosen? ==> IsCandidate(c.winner, buckets, pay) && FirstOfLeast(c.winner, tried, penalty)
      ensures c.Chosen? ==> forall n :: 0 <= n < |buckets| && Sufficient([buckets[n]], pay) ==> [buckets[n]] in tried
      ensures c.Refused? ==> !Sufficient(buckets, pay)
      ensures c.NoCandidates? <==> buckets == []
    {
      var r := BucketCandidates(buckets, pay);
      if r.NotEnoughFunds? { return Refused, []; }
      if r.list == [] { return NoCandidates, []; }
      var k := LeastPenalty(r.list, penalty);
      c, tried := Chosen(r.list[k]), r.list;
    }
  }

  lemma OneIndex(size: nat, n: nat)
    requires n < size
    ensures multiset([n]) <= multiset(Indexes(size))
  {
    assert Indexes(size)[n] in multiset(Indexes(size));
  }

  /** A sorted part of a permutation is still a choice of different indexes, of the same buckets. */
  lemma SortedChoice(buckets: seq<Bucket>, permutation: seq<nat>, part: seq<nat>, ns: seq<nat>)
    requires multiset(permutation) == multiset(Indexes(|buckets|)) && part <= permutation
    requires multiset(ns) == multiset(part)
    ensures multiset(ns) <= multiset(Indexes(|buckets|)) && IndexesInto(ns, buckets) && IndexesInto(part, buckets)
    ensures multiset(Selected(buckets, ns)) == multiset(Selected(buckets, part))
  {
    assert permutation == part + permutation[|part|..];
    SelectAll(buckets, part);
    SelectAll(buckets, ns);
    SelectedPart(buckets, ns, part);
    SelectedPart(buckets, part, ns);
  }

  /** Coins bucketed and chosen: no coin is spent more often than it is there, and the coins spent are
      together worth the amount and the fee for their size. */
  lemma CoinsSpentOnce(coins: seq<Coin>, buckets: seq<Bucket>, cand: seq<Bucket>, p: Payment)
    requires multiset(AllCoins(buckets)) == multiset(coins) && IsCandidate(cand, buckets, p) && Sound(buckets)
    ensures multiset(AllCoins(cand)) <= multiset(coins)
    ensures TotalValue(AllCoins(cand)) >= p.amount + p.fee(TotalSize(AllCoins(cand)) + p.baseSize)
  {
    CoinsOfPart(cand, buckets);
    SoundPart(cand, buckets);
    CoinsPay(cand, p);
  }

  /** Sound buckets suffice exactly when their coins are worth at least the amount and the fee. */
  lemma CoinsPay(cand: seq<Bucket>, p: Payment)
    requires Sound(cand)
    ensures Sufficient(cand, p) <==> TotalValue(AllCoins(cand)) >= p.amount + p.fee(TotalSize(AllCoins(cand)) + p.baseSize)
  {
    SumsAreTotals(cand);
  }

  lemma SoundPart(cand: seq<Bucket>, buckets: seq<Bucket>)
    requires Sound(buckets) && multiset(cand) <= multiset(buckets)
    ensures Sound(cand)
  {
    forall i | 0 <= i < |cand| ensures cand[i] in buckets {
      assert cand[i] in multiset(cand);
      assert cand[i] in multiset(buckets);
    }
  }
}
