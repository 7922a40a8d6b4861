/** Shortening the collision hashes of the accounts registered in a block
    (electronfittexxcoin/cashacct.py:1534-1576). */
module CollisionHash {

  /** Digits in a full collision hash. */
  const N := 10

  datatype Registration = Registration(name: string, hash: string)

  // ---------------------------------------------------------------- the order of the list

  /** Strings compared character by character; a proper prefix comes first. */
  predicate Before(a: string, b: string) {
    a == [] || (b != [] && (a[0] < b[0] || (a[0] == b[0] && Before(a[1..], b[1..]))))
  }

  predicate InOrder(s: Registration, t: Registration) {
    if s.name == t.name then Before(s.hash, t.hash) else Before(s.name, t.name)
  }

  ghost predicate Sorted(tups: seq<Registration>) {
    forall i, j :: 0 <= i < j < |tups| ==> InOrder(tups[i], tups[j])
  }

  ghost predicate FullHashes(tups: seq<Registration>) {
    forall i :: 0 <= i < |tups| ==> |tups[i].hash| == 10
  }

  /** The first place where two strings differ decides, or else the length. */
  lemma {:induction false} BeforeMeaning(a: string, b: string)
    ensures Before(a, b) <==> a <= b || exists k :: 0 <= k < |a| && k < |b| && a[..k] == b[..k] && a[k] < b[k]
    ensures Before(a, b) || Before(b, a)
  {
    if a != [] && b != [] {
      BeforeMeaning(a[1..], b[1..]);
      if a[0] < b[0] {
        assert a[..0] == b[..0];
      } else if a[0] == b[0] {
        SamePlaces(a, b);
      }
    }
  }

  lemma SamePlaces(a: string, b: string)
    requires a != [] && b != [] && a[0] == b[0]
    ensures a <= b <==> a[1..] <= b[1..]
    ensures (exists k :: 0 <= k < |a| && k < |b| && a[..k] == b[..k] && a[k] < b[k])
       <==> exists j :: 0 <= j < |a[1..]| && j < |b[1..]| && a[1..][..j] == b[1..][..j] && a[1..][j] < b[1..][j]
  {
    if k :| 0 <= k < |a| && k < |b| && a[..k] == b[..k] && a[k] < b[k] {
      var j := k - 1;
      assert a[1..][..j] == a[..k][1..] && b[1..][..j] == b[..k][1..];
      assert a[1..][j] < b[1..][j];
    }
    if j :| 0 <= j < |a[1..]| && j < |b[1..]| && a[1..][..j] == b[1..][..j] && a[1..][j] < b[1..][j] {
      var k := j + 1;
      assert a[..k] == [a[0]] + a[1..][..j] && b[..k] == [b[0]] + b[1..][..j];
      assert a[k] < b[k];
    }
    if a[1..] <= b[1..] { assert a == [a[0]] + a[1..] && b == [b[0]] + b[1..]; }
  }

  lemma {:induction false} Antisymmetric(a: string, b: string)
    requires Before(a, b) && Before(b, a)
    ensures a == b
  {
    if a != [] {
      Antisymmetric(a[1..], b[1..]);
      assert a == [a[0]] + a[1..] && b == [b[0]] + b[1..];
    }
  }

  /** What lies between two strings with a common prefix has that prefix too. */
  lemma {:induction false} Sandwich(a: string, b: string, c: string, k: nat)
    requires Before(a, b) && Before(b, c) && k <= |a| && k <= |c| && a[..k] == c[..k]
    ensures k <= |b| && b[..k] == a[..k]
  {
    if k != 0 {
      assert a[0] == a[..k][0] == c[..k][0] == c[0];
      assert a[1..][..k - 1] == a[..k][1..] == c[..k][1..] == c[1..][..k - 1];
      Sandwich(a[1..], b[1..], c[1..], k - 1);
      assert b[..k] == [b[0]] + b[1..][..k - 1];
      assert a[..k] == [a[0]] + a[1..][..k - 1];
    }
  }

  // ---------------------------------------------------------------- what the shortening promises

  predicate Agree(s: Registration, t: Registration, k: nat)
    requires k <= |s.hash| && k <= |t.hash|
  {
    s.name == t.name && s.hash[..k] == t.hash[..k]
  }

  /** Some other registration of the name shares the first k digits of hash n. */
  ghost predicate Conflict(tups: seq<Registration>, n: nat, k: nat)
    requires FullHashes(tups) && n < |tups| && k <= N
  {
    exists m :: 0 <= m < |tups| && m != n && Agree(tups[m], tups[n], k)
  }

  /** The least length without a conflict, or the full length when there is none. */
  ghost predicate IsShortest(tups: seq<Registration>, n: nat, k: nat)
    requires FullHashes(tups) && n < |tups|
  {
    k <= N && (forall i :: 0 <= i < k ==> Conflict(tups, n, i)) && (k == N || !Conflict(tups, n, k))
  }

  /** The shortened hash matches no different hash of the name, every shorter prefix matches the hash of
      another registration, it is empty exactly when the name occurs once, and a repeated hash keeps its
      full length. */
  lemma ShortestMeaning(tups: seq<Registration>, n: nat, k: nat)
    requires FullHashes(tups) && n < |tups| && IsShortest(tups, n, k)
    ensures forall m :: 0 <= m < |tups| && tups[m].name == tups[n].name && tups[m].hash != tups[n].hash
                ==> tups[m].hash[..k] != tups[n].hash[..k]
    ensures forall j :: 0 <= j < k ==>
                exists m :: 0 <= m < |tups| && m != n && tups[m].name == tups[n].name && tups[m].hash[..j] == tups[n].hash[..j]
    ensures k == 0 <==> forall m :: 0 <= m < |tups| && m != n ==> tups[m].name != tups[n].name
    ensures (exists m :: 0 <= m < |tups| && m != n && tups[m] == tups[n]) ==> k == N
  {
    forall m | 0 <= m < |tups| && tups[m].name == tups[n].name && tups[m].hash != tups[n].hash
      ensures tups[m].hash[..k] != tups[n].hash[..k]
    {
      if k == N {
        assert tups[m].hash[..N] == tups[m].hash && tups[n].hash[..N] == tups[n].hash;
      } else {
        assert !Agree(tups[m], tups[n], k);
      }
    }
    forall j | 0 <= j < k
      ensures exists m :: 0 <= m < |tups| && m != n && tups[m].name == tups[n].name && tups[m].hash[..j] == tups[n].hash[..j]
    {
      assert Conflict(tups, n, j);
    }
    if k == 0 {
      assert forall m :: 0 <= m < |tups| && m != n ==> !Agree(tups[m], tups[n], 0);
    } else {
      assert Conflict(tups, n, 0);
    }
    if m :| 0 <= m < |tups| && m != n && tups[m] == tups[n] {
      assert k <= N && Agree(tups[m], tups[n], k);
    }
  }

  // ---------------------------------------------------------------- neighbours suffice

  /** In a sorted list, a registration between two that agree agrees with both. */
  lemma Between(s: Registration, t: Registration, u: Registration, k: nat)
    requires |s.hash| == |t.hash| == |u.hash| == N && k <= N
    requires InOrder(s, t) && InOrder(t, u) && Agree(s, u, k)
    ensures Agree(s, t, k) && Agree(t, u, k)
  {
    if s.name != t.name { Antisymmetric(s.name, t.name); }
    Sandwich(s.hash, t.hash, u.hash, k);
  }

  /** Registration n agrees on k digits with the one before it or the one after it. */
  ghost predicate Neighbour(tups: seq<Registration>, n: nat, k: nat)
    requires FullHashes(tups) && n < |tups| && k <= N
  {
    (n > 0 && Agree(tups[n - 1], tups[n], k)) || (n + 1 < |tups| && Agree(tups[n], tups[n + 1], k))
  }

  lemma NeighboursSuffice(tups: seq<Registration>, n: nat, k: nat)
    requires FullHashes(tups) && Sorted(tups) && n < |tups| && k <= N
    ensures Conflict(tups, n, k) <==> Neighbour(tups, n, k)
  {
    if Neighbour(tups, n, k) {
      if n > 0 && Agree(tups[n - 1], tups[n], k) {} else {
        assert Agree(tups[n + 1], tups[n], k);
      }
    }
    if m :| 0 <= m < |tups| && m != n && Agree(tups[m], tups[n], k) {
      if m < n - 1 {
        Between(tups[m], tups[n - 1], tups[n], k);
      } else if m > n + 1 {
        Between(tups[n], tups[n + 1], tups[m], k);
      }
    }
  }

  /** How far two registrations agree, counted the way the loop counts. */
  ghost predicate Distance(s: Registration, t: Registration, j: nat)
    requires |s.hash| == |t.hash| == N
  {
    j <= N && (forall i :: 0 <= i < j ==> Agree(s, t, i)) && (j == N || !Agree(s, t, j))
  }

  lemma AgreeLess(s: Registration, t: Registration, i: nat, j: nat)
    requires |s.hash| == |t.hash| == N && i <= j <= N && Agree(s, t, j)
    ensures Agree(s, t, i)
  {
    assert s.hash[..i] == s.hash[..j][..i];
    assert t.hash[..i] == t.hash[..j][..i];
  }

  /** Larger of the distances to the neighbours already compared: the one before n, and the one after
      unless n is the last compared. */
  ghost predicate Measured(tups: seq<Registration>, n: nat, done: nat, k: nat)
    requires FullHashes(tups) && n < |tups| && done < |tups|
  {
    && k <= N
    && (forall i :: 0 <= i < k ==> NeighbourUpTo(tups, n, done, i))
    && (forall i :: k <= i < N ==> !NeighbourUpTo(tups, n, done, i))
  }

  ghost predicate NeighbourUpTo(tups: seq<Registration>, n: nat, done: nat, k: nat)
    requires FullHashes(tups) && n < |tups| && done < |tups| && k <= N
  {
    (0 < n <= done && Agree(tups[n - 1], tups[n], k)) || (n < done && Agree(tups[n], tups[n + 1], k))
  }

  // ---------------------------------------------------------------- the code

  method Compare(s: Registration, t: Registration) returns (j: nat)
    requires |s.hash| == |t.hash| == N
    ensures Distance(s, t, j)
  {
    j := 0;
    if s.name == t.name {
      while j < N && t.hash[..j] == s.hash[..j]
        invariant j <= N && forall i :: 0 <= i < j ==> Agree(s, t, i)
      {
        j := j + 1;
      }
    }
  }

  lemma DistanceMeaning(s: Registration, t: Registration, j: nat)
    requires |s.hash| == |t.hash| == N && Distance(s, t, j)
    ensures forall i :: 0 <= i < N ==> (Agree(s, t, i) <==> i < j)
  {
    forall i | j <= i < N ensures !Agree(s, t, i) {
      if Agree(s, t, i) { AgreeLess(s, t, j, i); }
    }
  }

  lemma MeasuredStep(tups: seq<Registration>, n: nat, i: nat, next: nat, k: nat, j: nat)
    requires FullHashes(tups) && n < |tups| && i + 1 == next < |tups| && Measured(tups, n, i, k)
    requires Distance(tups[i], tups[next], j)
    ensures Measured(tups, n, next, if (n == i || n == next) && k < j then j else k)
  {
    DistanceMeaning(tups[i], tups[next], j);
    forall x | 0 <= x < N
      ensures NeighbourUpTo(tups, n, next, x) <==> NeighbourUpTo(tups, n, i, x) || ((n == i || n == next) && x < j)
    {}
  }

  method Measure(tups: seq<Registration>) returns (idxs: array<nat>)
    requires FullHashes(tups) && Sorted(tups)
    ensures fresh(idxs) && idxs.Length == |tups|
    ensures forall n :: 0 <= n < |tups| ==> IsShortest(tups, n, idxs[n])
  {
    idxs := new nat[|tups|](_ => 0);
    if |tups| == 0 { return; }
    for i := 0 to |tups| - 1
      invariant forall n :: 0 <= n < |tups| ==> Measured(tups, n, i, idxs[n])
    {
      var j := Compare(tups[i], tups[i + 1]);
      ghost var was := idxs[..];
      idxs[i] := if idxs[i] < j then j else idxs[i];
      idxs[i + 1] := if idxs[i + 1] < j then j else idxs[i + 1];
      forall n | 0 <= n < |tups| ensures Measured(tups, n, i + 1, idxs[n]) {
        MeasuredStep(tups, n, i, i + 1, was[n], j);
      }
    }
    forall n | 0 <= n < |tups| ensures IsShortest(tups, n, idxs[n]) {
      assert Measured(tups, n, |tups| - 1, idxs[n]);
      forall k | 0 <= k < N ensures Conflict(tups, n, k) <==> k < idxs[n] {
        NeighboursSuffice(tups, n, k);
        assert Neighbour(tups, n, k) <==> NeighbourUpTo(tups, n, |tups| - 1, k);
      }
    }
  }

  type Shortened = map<string, map<string, string>>

  predicate Listed(ret: Shortened, name: string, hash: string) { name in ret && hash in ret[name] }

  predicate Shortens(ret: Shortened, s: Registration, k: nat) {
    Listed(ret, s.name, s.hash) && k <= |s.hash| && ret[s.name][s.hash] == s.hash[..k]
  }

  ghost predicate ListsShortest(ret: Shortened, tups: seq<Registration>, n: nat)
    requires FullHashes(tups) && n < |tups|
  {
    exists k: nat :: IsShortest(tups, n, k) && Shortens(ret, tups[n], k)
  }

  /** Every registered hash of every name is listed with its shortest prefix, and nothing else is listed. */
  method MinimalHashes(tups: seq<Registration>) returns (ret: Shortened)
    requires FullHashes(tups) && Sorted(tups)
    ensures forall n :: 0 <= n < |tups| ==> ListsShortest(ret, tups, n)
    ensures forall name, hash :: Listed(ret, name, hash) ==> Registration(name, hash) in tups
  {
    var idxs := Measure(tups);
    ret := map[];
    for n := 0 to |tups|
      invariant forall m :: 0 <= m < n ==> Shortens(ret, tups[m], idxs[m])
      invariant forall name, hash :: Listed(ret, name, hash) ==> Registration(name, hash) in tups
    {
      var (nam, ch) := (tups[n].name, tups[n].hash);
      var inner := if nam in ret then ret[nam] else map[];
      forall m | 0 <= m < n && tups[m] == tups[n] ensures idxs[m] == idxs[n] {
        assert Agree(tups[m], tups[n], idxs[n]) && Agree(tups[n], tups[m], idxs[m]);
        ShortestMeaning(tups, n, idxs[n]);
        ShortestMeaning(tups, m, idxs[m]);
      }
      ret := ret[nam := inner[ch := ch[..idxs[n]]]];
    }
    forall n | 0 <= n < |tups| ensures ListsShortest(ret, tups, n) {
      assert IsShortest(tups, n, idxs[n]) && Shortens(ret, tups[n], idxs[n]);
    }
  }
}
