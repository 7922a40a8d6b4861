/** Alphabets of characters or words, and sequences spelled in them. */
module Strings {
  import opened Digits

  /** Position of the first c in s, or -1. */
  function Find<T(==)>(s: seq<T>, c: T): (k: int)
    ensures -1 <= k < |s|
    ensures k >= 0 ==> s[k] == c && forall i :: 0 <= i < k ==> s[i] != c
    ensures k == -1 <==> c !in s
  {
    if s == [] then -1 else if s[0] == c then 0 else
      var k := Find(s[1..], c);
      if k == -1 then -1 else
        assert forall i :: 0 < i <= k ==> s[i] == s[1..][i - 1];
        k + 1
  }

  ghost predicate Distinct<T>(s: seq<T>) {
    forall i, j :: 0 <= i < j < |s| ==> s[i] != s[j]
  }

  lemma JoinDistinct<T>(a: seq<T>, b: seq<T>)
    requires Distinct(a) && Distinct(b) && forall i, j :: 0 <= i < |a| && 0 <= j < |b| ==> a[i] != b[j]
    ensures Distinct(a + b)
  {}

  /** In an alphabet without repetition every character is found where it stands. */
  lemma FindOwn<T>(s: seq<T>, i: nat)
    requires Distinct(s) && i < |s|
    ensures Find(s, s[i]) == i
  {
    assert s[i] in s;
  }

  /** A digit sequence spelled in an alphabet. */
  function Spell<T>(ds: seq<nat>, alphabet: seq<T>): (s: seq<T>)
    requires DigitsBelow(ds, |alphabet|)
    ensures |s| == |ds|
  {
    seq(|ds|, i requires 0 <= i < |ds| => alphabet[ds[i]])
  }

  predicate Spelled<T(==)>(s: seq<T>, alphabet: seq<T>) { forall i :: 0 <= i < |s| ==> s[i] in alphabet }

  /** The digits of a string spelled in an alphabet. */
  function Unspell<T(==)>(s: seq<T>, alphabet: seq<T>): (ds: seq<nat>)
    requires Spelled(s, alphabet)
    ensures |ds| == |s| && DigitsBelow(ds, |alphabet|)
  {
    seq(|s|, i requires 0 <= i < |s| => Find(alphabet, s[i]))
  }

  /** A digit depends on the character at its own place. */
  lemma UnspellAt<T>(s: seq<T>, t: seq<T>, alphabet: seq<T>, i: nat)
    requires Spelled(s, alphabet) && Spelled(t, alphabet) && i < |s| == |t| && s[i] == t[i]
    ensures Unspell(s, alphabet)[i] == Unspell(t, alphabet)[i]
  {}

  lemma UnspellSpell<T>(ds: seq<nat>, alphabet: seq<T>)
    requires Distinct(alphabet) && DigitsBelow(ds, |alphabet|)
    ensures Spelled(Spell(ds, alphabet), alphabet) && Unspell(Spell(ds, alphabet), alphabet) == ds
  {
    forall i | 0 <= i < |ds| ensures Find(alphabet, alphabet[ds[i]]) == ds[i] { FindOwn(alphabet, ds[i]); }
  }

  lemma SpellUnspell<T>(s: seq<T>, alphabet: seq<T>)
    requires Spelled(s, alphabet)
    ensures Spell(Unspell(s, alphabet), alphabet) == s
  {}
}
