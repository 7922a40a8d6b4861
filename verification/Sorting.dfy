/** The stable sort that list sorting by a key performs. */
module Sorting {

  /** Puts x before the first item with a greater key, as a stable sort from the right does. */
  function Inserted<T>(x: T, s: seq<T>, key: T -> int): (r: seq<T>)
    ensures multiset(r) == multiset{x} + multiset(s)
  {
    if s == [] then [x]
    else if key(x) <= key(s[0]) then
      [x] + s
    else
      assert s == [s[0]] + s[1..];
      [s[0]] + Inserted(x, s[1..], key)
  }

  function SortedBy<T>(s: seq<T>, key: T -> int): (r: seq<T>)
    ensures multiset(r) == multiset(s)
  {
    if s == [] then []
    else
      assert s == [s[0]] + s[1..];
      Inserted(s[0], SortedBy(s[1..], key), key)
  }

  ghost predicate Ascending<T>(s: seq<T>, key: T -> int) {
    forall i, j :: 0 <= i < j < |s| ==> key(s[i]) <= key(s[j])
  }

  lemma {:induction false} InsertedAscends<T>(x: T, s: seq<T>, key: T -> int)
    requires Ascending(s, key)
    ensures Ascending(Inserted(x, s, key), key)
  {
    if s != [] && key(x) > key(s[0]) {
      InsertedAscends(x, s[1..], key);
      var r := Inserted(x, s[1..], key);
      forall j | 0 <= j < |r| ensures key(s[0]) <= key(r[j]) {
        assert r[j] in multiset(r);
        assert r[j] == x || r[j] in multiset(s[1..]);
      }
    }
  }

  lemma {:induction false} SortedAscends<T>(s: seq<T>, key: T -> int)
    ensures Ascending(SortedBy(s, key), key)
  {
    if s != [] {
      SortedAscends(s[1..], key);
      InsertedAscends(s[0], SortedBy(s[1..], key), key);
    }
  }

  // ---------------------------------------------------------------- lists without repetition

  predicate NoRepeat<T(==)>(q: seq<T>) { forall i, j :: 0 <= i < j < |q| ==> q[i] != q[j] }

  lemma {:induction false} CountedOnce<T>(q: seq<T>, x: T)
    requires NoRepeat(q)
    ensures multiset(q)[x] <= 1
  {
    if q != [] {
      assert q == [q[0]] + q[1..];
      CountedOnce(q[1..], x);
      if q[0] == x { assert x !in q[1..]; }
    }
  }

  lemma CountedTwice<T>(s: seq<T>, i: nat, j: nat)
    requires i < j < |s| && s[i] == s[j]
    ensures multiset(s)[s[i]] >= 2
  {
    assert s == s[..i] + [s[i]] + s[i + 1..j] + [s[j]] + s[j + 1..];
  }

  /** Sorting numbers without repetition makes them strictly ascending. */
  lemma SortedStrictly(q: seq<nat>)
    requires NoRepeat(q)
    ensures var s := SortedBy(q, (n: nat) => n);
            (forall i, j :: 0 <= i < j < |s| ==> s[i] < s[j]) && forall x :: x in s <==> x in q
  {
    var key := (n: nat) => n;
    var s := SortedBy(q, key);
    SortedAscends(q, key);
    forall i, j | 0 <= i < j < |s| ensures s[i] < s[j] {
      assert key(s[i]) <= key(s[j]);
      if s[i] == s[j] {
        CountedTwice(s, i, j);
        CountedOnce(q, s[i]);
      }
    }
    assert forall x :: x in s <==> x in multiset(s);
    assert forall x :: x in q <==> x in multiset(q);
  }
}
