/**
 * Bit strings (utils/str.rs). `Str` is a sequence of bits; `Cmp` is the lexicographic order of
 * bit slices in which a proper prefix is smaller, and `Lcp` is the longest common prefix.
 */
module Strings {

  import opened BitwiseOperations

  type Str = seq<bool>

  /** Size in bits of one storage word of a `Str`. */
  const WORD_SIZE: nat := 32

  datatype Ordering = Less | Equal | Greater

  function Min(a: nat, b: nat): nat {
    if a <= b then a else b
  }

  /** `p` is a (not necessarily proper) prefix of `s`. */
  predicate IsPrefix(p: Str, s: Str) {
    |p| <= |s| && p == s[..|p|]
  }

  predicate ProperPrefix(p: Str, s: Str) {
    |p| < |s| && IsPrefix(p, s)
  }

  /**
   * Unsigned value of a bit slice whose first bit is the least significant one (a storage
   * word of an Lsb0 bit vector, or bitvec's `load` on such a slice).
   */
  function LoadLsb(b: Str): (v: nat)
    ensures v < Pow2(|b|)
  {
    if |b| == 0 then 0 else (if b[0] then 1 else 0) + 2 * LoadLsb(b[1..])
  }

  /** Bit-by-bit common prefix length of x and y, scanning from position i. */
  function CommonPrefixFrom(x: Str, y: Str, i: nat): (d: nat)
    requires i <= Min(|x|, |y|)
    requires x[..i] == y[..i]
    ensures i <= d <= Min(|x|, |y|)
    ensures x[..d] == y[..d]
    ensures d < Min(|x|, |y|) ==> x[d] != y[d]
    decreases |x| - i
  {
    if i == |x| || i == |y| || x[i] != y[i] then i
    else
      assert x[..i + 1] == x[..i] + [x[i]] && y[..i + 1] == y[..i] + [y[i]];
      CommonPrefixFrom(x, y, i + 1)
  }

  /** Length of the longest common prefix of x and y, compared bit by bit. */
  function CommonPrefixLength(x: Str, y: Str): (d: nat)
    ensures d <= Min(|x|, |y|)
    ensures x[..d] == y[..d]
    ensures d < Min(|x|, |y|) ==> x[d] != y[d]
  {
    CommonPrefixFrom(x, y, 0)
  }

  /** The three facts above determine the common prefix length. */
  lemma CommonPrefixLengthUnique(x: Str, y: Str, d: nat)
    requires d <= Min(|x|, |y|) && x[..d] == y[..d]
    requires d < Min(|x|, |y|) ==> x[d] != y[d]
    ensures CommonPrefixLength(x, y) == d
  {
  }

  /**
   * Lexicographic comparison of bit strings (bitvec's `Ord` for bit slices): the first
   * differing bit decides, and a proper prefix is smaller.
   */
  function Cmp(a: Str, b: Str): (o: Ordering)
    ensures o == Equal <==> a == b
  {
    var d := CommonPrefixLength(a, b);
    if d == |a| && d == |b| then
      assert a == a[..d] == b[..d] == b;
      Equal
    else if d == |a| then Less
    else if d == |b| then Greater
    else if !a[d] then Less
    else Greater
  }

  predicate Lt(a: Str, b: Str) {
    Cmp(a, b) == Less
  }

  predicate Le(a: Str, b: Str) {
    Cmp(a, b) != Greater
  }

  /**
   * lcp(x, y) (str.rs:7-29): whole 32-bit chunks are compared while both strings still have
   * one, then single bits. The result is the longest common prefix of x and y.
   */
  method Lcp(x: Str, y: Str) returns (res: Str)
    ensures IsPrefix(res, x) && IsPrefix(res, y)
    ensures |res| == CommonPrefixLength(x, y)
  {
    var currind: nat := 0;
    res := [];
    while currind + WORD_SIZE <= Min(|x|, |y|)
      invariant currind <= Min(|x|, |y|)
      invariant res == x[..currind] == y[..currind]
    {
      var a := x[currind..currind + WORD_SIZE];
      var b := y[currind..currind + WORD_SIZE];
      if a == b {
        assert x[..currind + WORD_SIZE] == x[..currind] + a;
        assert y[..currind + WORD_SIZE] == y[..currind] + b;
        res := res + a;
        currind := currind + WORD_SIZE;
      } else {
        break;
      }
    }
    while currind < Min(|x|, |y|) && x[currind] == y[currind]
      invariant currind <= Min(|x|, |y|)
      invariant res == x[..currind] == y[..currind]
    {
      assert x[..currind + 1] == x[..currind] + [x[currind]];
      assert y[..currind + 1] == y[..currind] + [y[currind]];
      res := res + [x[currind]];
      currind := currind + 1;
    }
    CommonPrefixLengthUnique(x, y, currind);
  }

  // ---------------------------------------------------------------------------------------
  // Properties of the common prefix and of the order.

  lemma LcpSymmetric(x: Str, y: Str)
    ensures CommonPrefixLength(x, y) == CommonPrefixLength(y, x)
  {
    CommonPrefixLengthUnique(y, x, CommonPrefixLength(x, y));
  }

  lemma LcpSelf(x: Str)
    ensures CommonPrefixLength(x, x) == |x|
  {
    CommonPrefixLengthUnique(x, x, |x|);
  }

  lemma CmpAntisymmetric(a: Str, b: Str)
    ensures Cmp(a, b) == Less <==> Cmp(b, a) == Greater
  {
    LcpSymmetric(a, b);
  }

  lemma LtTransitive(a: Str, b: Str, c: Str)
    requires Lt(a, b) && Lt(b, c)
    ensures Lt(a, c)
  {
    var d1 := CommonPrefixLength(a, b);
    var d2 := CommonPrefixLength(b, c);
    var m := Min(d1, d2);
    assert a[..m] == c[..m] by {
      assert a[..m] == a[..d1][..m] == b[..d1][..m] == b[..m] == b[..d2][..m] == c[..d2][..m];
    }
    if d1 < d2 {
      assert c[d1] == b[d1] || d1 == |a|;
      CommonPrefixLengthUnique(a, c, d1);
    } else if d2 < d1 {
      assert a[d2] == b[d2] || d2 == |b|;
      CommonPrefixLengthUnique(a, c, d2);
    } else {
      CommonPrefixLengthUnique(a, c, d1);
    }
  }

  lemma LeTransitive(a: Str, b: Str, c: Str)
    requires Le(a, b) && Le(b, c)
    ensures Le(a, c)
  {
    if a != b && b != c {
      LtTransitive(a, b, c);
    }
  }

  /** The order is total. */
  lemma LtTotal(a: Str, b: Str)
    ensures Lt(a, b) || a == b || Lt(b, a)
  {
    CmpAntisymmetric(a, b);
  }

  lemma LtIrreflexive(a: Str)
    ensures !Lt(a, a)
  {
  }

  lemma LeAntisymmetric(a: Str, b: Str)
    requires Le(a, b) && Le(b, a)
    ensures a == b
  {
    CmpAntisymmetric(a, b);
  }

  lemma LeTotal(a: Str, b: Str)
    ensures Le(a, b) || Le(b, a)
  {
    LtTotal(a, b);
    CmpAntisymmetric(a, b);
  }

  lemma LtLeTransitive(a: Str, b: Str, c: Str)
    requires Lt(a, b) && Le(b, c)
    ensures Lt(a, c)
  {
    if b != c {
      LtTransitive(a, b, c);
    }
  }

  lemma LeLtTransitive(a: Str, b: Str, c: Str)
    requires Le(a, b) && Lt(b, c)
    ensures Lt(a, c)
  {
    if a != b {
      LtTransitive(a, b, c);
    }
  }

  lemma PrefixTransitive(a: Str, b: Str, c: Str)
    requires IsPrefix(a, b) && IsPrefix(b, c)
    ensures IsPrefix(a, c)
  {
    assert c[..|b|][..|a|] == c[..|a|];
  }

  /** A prefix is never greater than the string it begins. */
  lemma PrefixLe(p: Str, s: Str)
    requires IsPrefix(p, s)
    ensures Le(p, s)
  {
    CommonPrefixLengthUnique(p, s, |p|);
  }

  /** Every string between x and an extension of x is itself an extension of x. */
  lemma BetweenExtends(x: Str, t: Str, s: Str)
    requires IsPrefix(x, s) && Le(x, t) && Le(t, s)
    ensures IsPrefix(x, t)
  {
    var d := CommonPrefixLength(x, t);
    if d < |x| {
      if d == |t| {
        CmpAntisymmetric(x, t);
      } else {
        assert !x[d] && t[d];
        assert t[..d] == x[..d] == s[..d];
        CommonPrefixLengthUnique(t, s, d);
      }
    } else {
      assert x == x[..d] == t[..d];
    }
  }

  /** A string between two strings that share their first d bits shares them too. */
  lemma BetweenSharesPrefix(a: Str, t: Str, b: Str, d: nat)
    requires Le(a, t) && Le(t, b)
    requires d <= |a| && d <= |b| && a[..d] == b[..d]
    ensures d <= |t| && t[..d] == a[..d]
  {
    var p := a[..d];
    PrefixLe(p, a);
    LeTransitive(p, a, t);
    BetweenExtends(p, t, b);
  }

  /** Strings that agree on their first k bits have a common prefix of at least k bits. */
  lemma CommonPrefixAtLeast(x: Str, y: Str, k: nat)
    requires k <= |x| && k <= |y| && x[..k] == y[..k]
    ensures CommonPrefixLength(x, y) >= k
  {
    forall i | 0 <= i < k
      ensures x[i] == y[i]
    {
      assert x[..k][i] == y[..k][i];
    }
  }

  /** Two strings that agree before position d and differ there compare as their bits at d. */
  lemma CmpAtDifference(a: Str, b: Str, d: nat)
    requires d < |a| && d < |b| && a[..d] == b[..d] && a[d] != b[d]
    ensures Lt(a, b) <==> !a[d]
    ensures Lt(b, a) <==> a[d]
  {
    CommonPrefixLengthUnique(a, b, d);
    CommonPrefixLengthUnique(b, a, d);
  }

  /** A smaller string that is not a prefix of the larger one has a 0 where the larger has a 1. */
  lemma LtDifference(a: Str, b: Str)
    requires Lt(a, b) && !IsPrefix(a, b)
    ensures var d := CommonPrefixLength(a, b);
      d < |a| && d < |b| && a[..d] == b[..d] && !a[d] && b[d]
  {
    assert a[..|a|] == a;
  }

  /** Extensions of two strings that differ before either ends compare like those strings. */
  lemma ExtensionsCompare(p: Str, q: Str, s: Str, t: Str, d: nat)
    requires d < |p| && d < |q| && p[..d] == q[..d] && p[d] != q[d]
    requires IsPrefix(p, s) && IsPrefix(q, t)
    ensures Lt(s, t) <==> Lt(p, q)
  {
    assert s[..d] == p[..d] && t[..d] == q[..d];
    assert s[d] == p[d] && t[d] == q[d];
    CmpAtDifference(p, q, d);
    CmpAtDifference(s, t, d);
  }

  /** Two prefixes of one string are prefixes of each other, the shorter of the longer. */
  lemma PrefixesComparable(a: Str, b: Str, s: Str)
    requires IsPrefix(a, s) && IsPrefix(b, s) && |a| <= |b|
    ensures IsPrefix(a, b)
  {
    assert s[..|b|][..|a|] == s[..|a|];
  }

  /**
   * A string a that lies at or before an extension s of p without itself extending p lies
   * before every extension of p.
   */
  lemma BeforeExtensions(a: Str, s: Str, p: Str, t: Str)
    requires Le(a, s) && IsPrefix(p, s) && !IsPrefix(p, a) && IsPrefix(p, t)
    ensures Lt(a, t)
  {
    var d := CommonPrefixLength(a, p);
    if d == |a| {
      assert IsPrefix(a, p) by {
        assert a == a[..d] == p[..d];
      }
      PrefixTransitive(a, p, t);
      PrefixLe(a, t);
    } else {
      ExtensionsCompare(a, p, a, s, d);
      ExtensionsCompare(a, p, a, t, d);
    }
  }

  /**
   * Symmetrically, a string a that lies at or after an extension s of p without extending p
   * lies after every extension of p.
   */
  lemma AfterExtensions(a: Str, s: Str, p: Str, t: Str)
    requires Le(s, a) && IsPrefix(p, s) && !IsPrefix(p, a) && IsPrefix(p, t)
    ensures Lt(t, a)
  {
    var d := CommonPrefixLength(a, p);
    if d == |a| {
      assert IsPrefix(a, p) by {
        assert a == a[..d] == p[..d];
      }
      PrefixTransitive(a, p, s);
      PrefixLe(a, s);
      LeAntisymmetric(a, s);
    } else {
      ExtensionsCompare(p, a, s, a, d);
      ExtensionsCompare(p, a, t, a, d);
    }
  }

  /**
   * How an extension s of p compares with a string x that does not properly extend p:
   * s is less than x exactly when p is.
   */
  lemma ExtensionVersusStop(p: Str, s: Str, x: Str)
    requires IsPrefix(p, s) && !ProperPrefix(p, x)
    ensures Lt(s, x) <==> !Le(x, p)
  {
    var d := CommonPrefixLength(p, x);
    LtTotal(x, p);
    CmpAntisymmetric(x, p);
    if IsPrefix(p, x) {
      assert x == p;
      PrefixLe(p, s);
      CmpAntisymmetric(s, p);
    } else if d == |x| {
      assert IsPrefix(x, p) by {
        assert x == x[..d] == p[..d];
      }
      PrefixTransitive(x, p, s);
      PrefixLe(x, s);
      PrefixLe(x, p);
      CmpAntisymmetric(s, x);
    } else {
      assert x[..|x|] == x;
      ExtensionsCompare(p, x, s, x, d);
    }
  }
}
