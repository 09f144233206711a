/**
 * The reference trie (tries/naive_trie.rs): a sorted copy of the input scanned linearly. Its
 * queries are the specification the other three tries are proved to agree with.
 */
module NaiveTrie {
  import opened Wrappers
  import opened Strings
  import opened SortedStrings

  /** Index of the first string of v, from position i on, that is not less than x. */
  function LowerBoundFrom(v: seq<Str>, x: Str, i: nat): (k: nat)
    requires i <= |v|
    ensures i <= k <= |v|
    ensures forall j :: i <= j < k ==> Lt(v[j], x)
    ensures k < |v| ==> !Lt(v[k], x)
    decreases |v| - i
  {
    if i == |v| || !Lt(v[i], x) then i else LowerBoundFrom(v, x, i + 1)
  }

  /** Number of leading strings of v that are less than x. */
  function LowerBound(v: seq<Str>, x: Str): (k: nat)
    ensures k <= |v|
    ensures forall j :: 0 <= j < k ==> Lt(v[j], x)
    ensures k < |v| ==> !Lt(v[k], x)
  {
    LowerBoundFrom(v, x, 0)
  }

  /** The answer of pred_query: the last of the leading strings less than x. */
  function PredOf(v: seq<Str>, x: Str): Option<Str> {
    var k := LowerBound(v, x);
    if k == 0 then None else Some(v[k - 1])
  }

  /** The answer of succ_query: the first string that is not less than x. */
  function SuccOf(v: seq<Str>, x: Str): Option<Str> {
    var k := LowerBound(v, x);
    if k == |v| then None else Some(v[k])
  }

  /** The answer of ex_pref_query: the successor of x begins with x. */
  function ExPrefOf(v: seq<Str>, x: Str): bool {
    match SuccOf(v, x)
    case Some(i) => i[..Min(|i|, |x|)] == x
    case None => false
  }

  /** The answer of ex_range_query: the successor of x is less than y. */
  function ExRangeOf(v: seq<Str>, x: Str, y: Str): bool {
    match SuccOf(v, x)
    case Some(i) => Lt(i, y)
    case None => false
  }

  class NaiveTrie {
    var v: seq<Str>

    constructor ()
      ensures v == []
    {
      v := [];
    }

    /** build(v): store a sorted copy of the input. */
    method Build(input: seq<Str>)
      modifies this
      ensures Sorted(v) && multiset(v) == multiset(input)
    {
      v := SortByCmp(input);
    }

    /** pred_query(x): remember each string less than x until the first one that is not. */
    method PredQuery(x: Str) returns (r: Option<Str>)
      ensures r == PredOf(v, x)
    {
      r := None;
      var i := 0;
      while i < |v|
        invariant i <= LowerBound(v, x)
        invariant r == (if i == 0 then None else Some(v[i - 1]))
        invariant forall j :: 0 <= j < i ==> Lt(v[j], x)
      {
        if Lt(v[i], x) {
          r := Some(v[i]);
        } else {
          break;
        }
        i := i + 1;
      }
    }

    /** succ_query(x): the first string that is not less than x. */
    method SuccQuery(x: Str) returns (r: Option<Str>)
      ensures r == SuccOf(v, x)
    {
      r := None;
      for i := 0 to |v|
        invariant forall j :: 0 <= j < i ==> Lt(v[j], x)
      {
        if !Lt(v[i], x) {
          r := Some(v[i]);
          return;
        }
      }
    }

    /** ex_pref_query(x): the successor of x exists and its first |x| bits are x. */
    method ExPrefQuery(x: Str) returns (b: bool)
      ensures b == ExPrefOf(v, x)
    {
      var s := SuccQuery(x);
      if s.Some? {
        var i := s.value;
        b := i[..Min(|i|, |x|)] == x;
      } else {
        b := false;
      }
    }

    /** ex_range_query(x, y): the successor of x exists and is less than y. */
    method ExRangeQuery(x: Str, y: Str) returns (b: bool)
      ensures b == ExRangeOf(v, x, y)
    {
      var s := SuccQuery(x);
      if s.Some? {
        b := Lt(s.value, y);
      } else {
        b := false;
      }
    }
  }

  // ---------------------------------------------------------------------------------------
  // What the answers mean on a sorted store.

  /** In a sorted store, every string from the lower bound on is at least x. */
  lemma LowerBoundSplits(v: seq<Str>, x: Str)
    requires Sorted(v)
    ensures forall j :: LowerBound(v, x) <= j < |v| ==> Le(x, v[j])
  {
    var k := LowerBound(v, x);
    forall j | k <= j < |v|
      ensures Le(x, v[j])
    {
      LtTotal(v[k], x);
      LeTransitive(x, v[k], v[j]);
    }
  }

  /** pred_query returns the greatest stored string less than x, and None when there is none. */
  lemma PredIsGreatestBelow(v: seq<Str>, x: Str)
    requires Sorted(v)
    ensures PredOf(v, x) == None <==> forall s :: s in v ==> !Lt(s, x)
    ensures PredOf(v, x) != None ==>
      var p := PredOf(v, x).value;
      p in v && Lt(p, x) && forall s :: s in v && Lt(s, x) ==> Le(s, p)
  {
    var k := LowerBound(v, x);
    LowerBoundSplits(v, x);
    forall s | s in v && Lt(s, x)
      ensures 0 < k && Le(s, v[k - 1])
    {
      var j :| 0 <= j < |v| && v[j] == s;
      if j >= k {
        LeLtTransitive(x, s, x);
      }
    }
  }

  /** succ_query returns the least stored string not less than x, and None when there is none. */
  lemma SuccIsLeastAtLeast(v: seq<Str>, x: Str)
    requires Sorted(v)
    ensures SuccOf(v, x) == None <==> forall s :: s in v ==> Lt(s, x)
    ensures SuccOf(v, x) != None ==>
      var p := SuccOf(v, x).value;
      p in v && Le(x, p) && forall s :: s in v && Le(x, s) ==> Le(p, s)
  {
    var k := LowerBound(v, x);
    LowerBoundSplits(v, x);
    forall s | s in v && Le(x, s)
      ensures k < |v| && Le(v[k], s)
    {
      var j :| 0 <= j < |v| && v[j] == s;
      if j < k {
        LeLtTransitive(x, s, x);
      }
    }
  }

  /** ex_pref_query holds exactly when some stored string begins with x. */
  lemma ExPrefIff(v: seq<Str>, x: Str)
    requires Sorted(v)
    ensures ExPrefOf(v, x) <==> exists s :: s in v && IsPrefix(x, s)
  {
    SuccIsLeastAtLeast(v, x);
    if ExPrefOf(v, x) {
      var i := SuccOf(v, x).value;
      assert IsPrefix(x, i);
    } else if s :| s in v && IsPrefix(x, s) {
      PrefixLe(x, s);
      var i := SuccOf(v, x).value;
      BetweenExtends(x, i, s);
      assert i[..Min(|i|, |x|)] == x;
    }
  }

  /** ex_range_query holds exactly when some stored s satisfies x <= s < y. */
  lemma ExRangeIff(v: seq<Str>, x: Str, y: Str)
    requires Sorted(v)
    ensures ExRangeOf(v, x, y) <==> exists s :: s in v && Le(x, s) && Lt(s, y)
  {
    SuccIsLeastAtLeast(v, x);
    if s :| s in v && Le(x, s) && Lt(s, y) {
      LeLtTransitive(SuccOf(v, x).value, s, y);
    }
  }

  /** In particular the range [x, y) is empty when y <= x. */
  lemma ExRangeEmpty(v: seq<Str>, x: Str, y: Str)
    requires Sorted(v) && Le(y, x)
    ensures !ExRangeOf(v, x, y)
  {
    ExRangeIff(v, x, y);
    if s :| s in v && Le(x, s) && Lt(s, y) {
      LeTransitive(y, x, s);
      LeLtTransitive(y, s, y);
    }
  }
}
