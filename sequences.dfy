/** Facts about sequences shared by the cache and the folder navigator. */
module Sequences {

  /** No element occurs twice. */
  predicate NoDuplicates<T(==)>(s: seq<T>) {
    forall i, j :: 0 <= i < j < |s| ==> s[i] != s[j]
  }

  /** std::find: the position of the first x in s, or |s| when there is none. */
  function FirstIndex<T(==)>(s: seq<T>, x: T): (i: nat)
    ensures i <= |s|
    ensures i < |s| ==> s[i] == x
    ensures forall j :: 0 <= j < i ==> s[j] != x
  {
    if s == [] then 0
    else if s[0] == x then 0
    else 1 + FirstIndex(s[1..], x)
  }

  /** s with every occurrence of x removed, the others in their original order. */
  function Without<T(==)>(s: seq<T>, x: T): (r: seq<T>)
    ensures |r| <= |s|
    ensures x !in r
  {
    if s == [] then []
    else if s[0] == x then Without(s[1..], x)
    else [s[0]] + Without(s[1..], x)
  }

  lemma {:induction false} WithoutAppend<T>(a: seq<T>, b: seq<T>, x: T)
    ensures Without(a + b, x) == Without(a, x) + Without(b, x)
  {
    if a != [] {
      assert (a + b)[0] == a[0] && (a + b)[1..] == a[1..] + b;
      WithoutAppend(a[1..], b, x);
      if a[0] == x {
        assert Without(a + b, x) == Without(a[1..] + b, x);
      } else {
        assert Without(a + b, x) == [a[0]] + Without(a[1..] + b, x);
      }
    } else {
      assert a + b == b;
    }
  }

  lemma {:induction false} WithoutAbsent<T>(s: seq<T>, x: T)
    requires x !in s
    ensures Without(s, x) == s
  {
    if s != [] {
      WithoutAbsent(s[1..], x);
    }
  }
}
