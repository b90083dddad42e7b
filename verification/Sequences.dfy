/** Sequences seen as multisets: what permutation arguments need. */
module Sequences {
  function Without<T>(s: seq<T>, i: nat): seq<T>
    requires i < |s|
  {
    s[..i] + s[i + 1..]
  }

  lemma MultisetWithout<T>(s: seq<T>, i: nat)
    requires i < |s|
    ensures multiset(s) == multiset(Without(s, i)) + multiset{s[i]}
  {
    assert s == s[..i] + [s[i]] + s[i + 1..];
  }

  /** The last element of one arrangement is somewhere in every other arrangement. */
  lemma LastElsewhere<T>(a: seq<T>, b: seq<T>) returns (i: nat)
    requires multiset(a) == multiset(b) && a != []
    ensures i < |b| && b[i] == a[|a| - 1]
    ensures multiset(a[..|a| - 1]) == multiset(Without(b, i))
  {
    var last := a[|a| - 1];
    MultisetWithout(a, |a| - 1);
    assert Without(a, |a| - 1) == a[..|a| - 1];
    assert last in multiset(b);
    i :| 0 <= i < |b| && b[i] == last;
    MultisetWithout(b, i);
    assert multiset(a[..|a| - 1]) == multiset(a) - multiset{last};
    assert multiset(Without(b, i)) == multiset(b) - multiset{last};
  }

  lemma SameMultisetMembers<T>(a: seq<T>, b: seq<T>)
    requires multiset(a) == multiset(b)
    ensures |a| == |b|
    ensures forall x :: x in a <==> x in b
  {
    assert forall x :: x in a <==> x in multiset(a);
    assert forall x :: x in b <==> x in multiset(b);
    assert |multiset(a)| == |a| && |multiset(b)| == |b|;
  }
}
