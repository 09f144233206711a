/**
 * The sorted copy every trie builds from its input (`x.sort_by(cmp)` in each `build`): a
 * permutation of the input that is non-decreasing in the order `Cmp`. The library sort is
 * modelled by an insertion sort; the sorted permutation of a sequence is unique, so any
 * correct sort yields the same sequence.
 */
module SortedStrings {
  import opened Strings

  predicate Sorted(v: seq<Str>) {
    forall i, j :: 0 <= i < j < |v| ==> Le(v[i], v[j])
  }

  /** `v.sort_by(cmp)` on a copy of v. */
  method SortByCmp(v: seq<Str>) returns (w: seq<Str>)
    ensures Sorted(w) && multiset(w) == multiset(v)
  {
    w := [];
    for i := 0 to |v|
      invariant Sorted(w) && multiset(w) == multiset(v[..i])
    {
      var x := v[i];
      var p := 0;
      while p < |w| && Le(w[p], x)
        invariant p <= |w|
        invariant forall k :: 0 <= k < p ==> Le(w[k], x)
      {
        p := p + 1;
      }
      InsertSorted(w, p, x);
      assert w == w[..p] + w[p..];
      assert v[..i + 1] == v[..i] + [x];
      w := w[..p] + [x] + w[p..];
    }
    assert v[..|v|] == v;
  }

  /** Inserting x after the elements not greater than it keeps the sequence sorted. */
  lemma InsertSorted(w: seq<Str>, p: nat, x: Str)
    requires Sorted(w) && p <= |w|
    requires forall k :: 0 <= k < p ==> Le(w[k], x)
    requires p < |w| ==> !Le(w[p], x)
    ensures Sorted(w[..p] + [x] + w[p..])
  {
    var u := w[..p] + [x] + w[p..];
    forall i, j | 0 <= i < j < |u|
      ensures Le(u[i], u[j])
    {
      if i < p && j == p {
      } else if i == p && j > p {
        LeTotal(w[p], x);
        LeTransitive(x, w[p], w[j - 1]);
      } else if i < p && j > p {
        LeTransitive(w[i], w[j - 1], w[j - 1]);
      }
    }
  }

  /** The minimum of a sorted sequence is its first element. */
  lemma SortedFirstLeast(a: seq<Str>, s: Str)
    requires Sorted(a) && s in multiset(a)
    ensures Le(a[0], s)
  {
    var k :| 0 <= k < |a| && a[k] == s;
    if k > 0 {
      assert Le(a[0], a[k]);
    }
  }

  lemma SortedTail(a: seq<Str>)
    requires Sorted(a) && |a| > 0
    ensures Sorted(a[1..])
  {
    var t := a[1..];
    forall i, j | 0 <= i < j < |t|
      ensures Le(t[i], t[j])
    {
      assert t[i] == a[i + 1] && t[j] == a[j + 1];
    }
  }

  /** Two sorted sequences with the same non-empty multiset start with the same element. */
  lemma SortedSameFirst(a: seq<Str>, b: seq<Str>)
    requires Sorted(a) && Sorted(b) && multiset(a) == multiset(b) && |a| > 0 && |b| > 0
    ensures a[0] == b[0]
  {
    assert a[0] in multiset(a) && b[0] in multiset(b);
    SortedFirstLeast(b, a[0]);
    SortedFirstLeast(a, b[0]);
    LeAntisymmetric(a[0], b[0]);
  }

  /** A sorted permutation is unique: two sorted sequences with the same elements are equal. */
  lemma {:induction false} SortedUnique(a: seq<Str>, b: seq<Str>)
    requires Sorted(a) && Sorted(b) && multiset(a) == multiset(b)
    ensures a == b
    decreases |a|
  {
    assert |a| == |multiset(a)| == |multiset(b)| == |b|;
    if |a| > 0 {
      SortedSameFirst(a, b);
      var x, a', b' := a[0], a[1..], b[1..];
      assert a == [x] + a' && b == [x] + b';
      assert multiset(a') == multiset(a) - multiset{x} == multiset(b) - multiset{x} == multiset(b');
      SortedTail(a);
      SortedTail(b);
      SortedUnique(a', b');
    }
  }
}
