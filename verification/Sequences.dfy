/**
 Sequences without repetitions, and the removal of an element.
 */
module Sequences {

  predicate Distinct<T(==)>(s: seq<T>) {
    forall i, j :: 0 <= i < j < |s| ==> s[i] != s[j]
  }

  /** The sequence without the first occurrence of an element. */
  function Without<T(==)>(s: seq<T>, e: T): seq<T> {
    if s == [] then []
    else if s[0] == e then s[1..]
    else [s[0]] + Without(s[1..], e)
  }

  function Drop<T>(s: seq<T>, k: nat): seq<T>
    requires k < |s|
  {
    s[..k] + s[k + 1..]
  }

  lemma {:induction false} WithoutAt<T>(s: seq<T>, i: nat)
    requires Distinct(s) && i < |s|
    ensures Without(s, s[i]) == Drop(s, i)
  {
    if i > 0 {
      WithoutAt(s[1..], i - 1);
      assert s[1..][..i - 1] == s[1..i];
      assert s[..i] == [s[0]] + s[1..i];
    }
  }

  lemma {:induction false} WithoutAbsent<T>(s: seq<T>, e: T)
    requires e !in s
    ensures Without(s, e) == s
  {
    if s != [] {
      WithoutAbsent(s[1..], e);
    }
  }

  lemma DropMeaning<T>(s: seq<T>, k: nat)
    requires Distinct(s) && k < |s|
    ensures Distinct(Drop(s, k)) && forall x :: x in Drop(s, k) <==> x in s && x != s[k]
  {
    var r := Drop(s, k);
    forall x | x in s && x != s[k]
      ensures x in r
    {
      var j :| 0 <= j < |s| && s[j] == x;
      assert r[if j < k then j else j - 1] == x;
    }
  }

  lemma WithoutMeaning<T>(s: seq<T>, e: T)
    requires Distinct(s)
    ensures Distinct(Without(s, e)) && |Without(s, e)| == if e in s then |s| - 1 else |s|
    ensures forall x :: x in Without(s, e) <==> x in s && x != e
  {
    if e in s {
      var i :| 0 <= i < |s| && s[i] == e;
      WithoutAt(s, i);
      DropMeaning(s, i);
    } else {
      WithoutAbsent(s, e);
    }
  }

  /** The same, by position. */
  lemma DropMembers<T>(s: seq<T>, k: nat)
    requires Distinct(s) && k < |s|
    ensures Distinct(Drop(s, k)) && s[k] !in Drop(s, k)
    ensures forall j :: 0 <= j < |s| && j != k ==> s[j] in Drop(s, k)
    ensures forall j :: 0 <= j < |s| - 1 ==> Drop(s, k)[j] in s
  {
    forall j | 0 <= j < |s| && j != k
      ensures s[j] in Drop(s, k)
    {
      assert Drop(s, k)[if j < k then j else j - 1] == s[j];
    }
  }

  lemma WithoutMembers<T>(s: seq<T>, e: T)
    requires Distinct(s)
    ensures Distinct(Without(s, e)) && e !in Without(s, e)
    ensures |Without(s, e)| == if e in s then |s| - 1 else |s|
    ensures forall j :: 0 <= j < |s| && s[j] != e ==> s[j] in Without(s, e)
    ensures forall j :: 0 <= j < |Without(s, e)| ==> Without(s, e)[j] in s
  {
    if e in s {
      var i :| 0 <= i < |s| && s[i] == e;
      WithoutAt(s, i);
      DropMembers(s, i);
    } else {
      WithoutAbsent(s, e);
    }
  }
}
