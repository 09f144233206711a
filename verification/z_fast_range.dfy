/**
 * The range query of the z-fast trie (is_nonempty in tries/z_fast_trie.rs), on the trie of the
 * keys rather than on the arena. The walks down a spine that the source does with jump links
 * end at a node whose extent compares with the other end of the range as the key at the end
 * of that spine does (LongPrefixCompares), so the query is stated here with those keys.
 *
 * As written, the query answers the half-open range [x, y) correctly whenever x <= y. When y
 * is less than x its second case can answer true although no key lies in [x, y).
 */
module ZFastRange {
  import opened Strings
  import opened SortedStrings
  import opened NaiveTrie
  import opened TrieStructure

  // ---------------------------------------------------------------------------------------
  // Lower bounds on a sorted store.

  /** On a sorted store the lower bound of x is at most k exactly when v[k] is not less than x. */
  lemma LowerBoundAtMost(v: seq<Str>, x: Str, k: nat)
    requires Sorted(v) && k < |v|
    ensures LowerBound(v, x) <= k <==> !Lt(v[k], x)
  {
    var b := LowerBound(v, x);
    if b <= k {
      CmpAntisymmetric(v[b], x);
      CmpAntisymmetric(v[k], x);
      if b < k {
        LeTransitive(x, v[b], v[k]);
      }
    }
  }

  /** On a sorted store [x, y) holds a key exactly when fewer keys are less than x than than y. */
  lemma RangeByBounds(v: seq<Str>, x: Str, y: Str)
    requires Sorted(v)
    ensures ExRangeOf(v, x, y) <==> LowerBound(v, x) < LowerBound(v, y)
  {
    var k := LowerBound(v, x);
    if k < |v| {
      LowerBoundAtMost(v, y, k);
    }
  }

  /**
   * A prefix p of s that is s itself or at least as long as w compares with w as s does:
   * the bits of s past p cannot change the comparison.
   */
  lemma LongPrefixCompares(p: Str, s: Str, w: Str)
    requires IsPrefix(p, s) && (p == s || |p| >= |w|)
    ensures Lt(p, w) <==> Lt(s, w)
    ensures Le(w, p) <==> Le(w, s)
  {
    if p != s {
      ExtensionVersusStop(p, s, w);
      CmpAntisymmetric(p, w);
      CmpAntisymmetric(s, w);
    }
  }

  /**
   * A node where the walk down its left spine towards w stops, a leaf or one whose extent is
   * at least as long as w, compares with w as its first key does.
   */
  lemma SpineEndLeft(v: seq<Str>, m: Node, w: Str)
    requires Wf(v, m) && (IsLeaf(m) || Rind(v, m) >= |w|)
    ensures Lt(Extent(v, m), w) <==> Lt(v[m.l], w)
  {
    LongPrefixCompares(Extent(v, m), v[m.l], w);
  }

  /** The same on the right spine, with the last key of the node. */
  lemma SpineEndRight(v: seq<Str>, m: Node, w: Str)
    requires Wf(v, m) && (IsLeaf(m) || Rind(v, m) >= |w|)
    ensures Le(w, Extent(v, m)) <==> Le(w, v[m.r - 1])
  {
    var e := Extent(v, m);
    assert IsPrefix(e, v[m.r - 1]);
    LongPrefixCompares(e, v[m.r - 1], w);
  }

  // ---------------------------------------------------------------------------------------
  // is_nonempty as written.

  /** lcp(x, y): the longest common prefix of x and y. */
  function CommonPrefix(x: Str, y: Str): (z: Str)
    ensures IsPrefix(z, x) && IsPrefix(z, y) && |z| == CommonPrefixLength(x, y)
  {
    x[..CommonPrefixLength(x, y)]
  }

  /**
   * The three cases of is_nonempty(x, y) for x != y. (1) x is at most the extent of its exit
   * node: the answer is whether the first key below that node is less than y. (2) Otherwise,
   * when x is greater than the extent of the exit node of y, it is whether x is at most the
   * last key below that node. (3) Otherwise x and y part at an internal node: the answer is
   * whether x is at most the last key on its left or the first key on its right is less
   * than y.
   */
  ghost function IsNonemptyAsWritten(v: seq<Str>, x: Str, y: Str): bool
    requires Keys(v)
  {
    if x == y then false
    else
      var ex, ey := Exit(v, x), Exit(v, y);
      if Le(x, Extent(v, ex)) then Lt(v[ex.l], y)
      else if !Le(x, Extent(v, ey)) then Le(x, v[ey.r - 1])
      else
        PartingNode(v, x, y);
        var m := Mid(v, Exit(v, CommonPrefix(x, y)));
        Le(x, v[m - 1]) || Lt(v[m], y)
  }

  /** Case 1 of is_nonempty: x is at most the extent of its exit node. */
  lemma AsWrittenFirst(v: seq<Str>, x: Str, y: Str)
    requires Keys(v) && x != y && Le(x, Extent(v, Exit(v, x)))
    ensures IsNonemptyAsWritten(v, x, y) == Lt(v[Exit(v, x).l], y)
  {
  }

  /** Case 2 of is_nonempty: x is greater than the extents of its exit node and of that of y. */
  lemma AsWrittenSecond(v: seq<Str>, x: Str, y: Str)
    requires Keys(v) && x != y
    requires !Le(x, Extent(v, Exit(v, x))) && !Le(x, Extent(v, Exit(v, y)))
    ensures IsNonemptyAsWritten(v, x, y) == Le(x, v[Exit(v, y).r - 1])
  {
  }

  /** Case 3 of is_nonempty: x and y part at the exit node of their common prefix. */
  lemma AsWrittenThird(v: seq<Str>, x: Str, y: Str)
    requires Keys(v) && x != y
    requires !Le(x, Extent(v, Exit(v, x))) && Le(x, Extent(v, Exit(v, y)))
    requires !IsLeaf(Exit(v, CommonPrefix(x, y)))
    ensures var m := Mid(v, Exit(v, CommonPrefix(x, y)));
      IsNonemptyAsWritten(v, x, y) == (Le(x, v[m - 1]) || Lt(v[m], y))
  {
  }

  // ---------------------------------------------------------------------------------------
  // The third case: where x and y part.

  /** A string after y and at most the extent of y's exit node stops at that node too. */
  lemma AfterStaysAtExit(v: seq<Str>, x: Str, y: Str)
    requires Keys(v) && Lt(y, x)
    requires var ey := Exit(v, y); Wf(v, ey) && Le(x, Extent(v, ey))
    ensures Exit(v, x) == Exit(v, y)
  {
    var ey := Exit(v, y);
    var p := Extent(v, ey);
    ExitStops(v, y);
    var nm := Name(v, ey);
    BetweenSharesPrefix(y, x, p, |nm|);
    if IsPrefix(p, x) {
      PrefixLe(p, x);
      LeAntisymmetric(x, p);
    }
    StopIsExit(v, ey, x);
  }

  /**
   * An extension y of x stops where x stops, when x is greater than the extent of its exit
   * node: that extent either ends in a leaf or parts from x, and so from y.
   */
  lemma PrefixStaysAtExit(v: seq<Str>, x: Str, y: Str)
    requires Keys(v) && IsPrefix(x, y)
    requires var ex := Exit(v, x); Wf(v, ex) && !Le(x, Extent(v, ex))
    ensures Exit(v, y) == Exit(v, x)
  {
    var ex := Exit(v, x);
    var e := Extent(v, ex);
    ExitStops(v, x);
    PrefixTransitive(Name(v, ex), x, y);
    if IsPrefix(e, x) {
      PrefixLe(e, x);
    }
    if IsPrefix(e, y) {
      if |e| <= |x| {
        PrefixesComparable(e, x, y);
      } else {
        PrefixesComparable(x, e, y);
        PrefixLe(x, e);
      }
    }
    StopIsExit(v, ex, y);
  }

  /** The node where x and y part: internal, its extent the d bits they share. */
  ghost predicate Parts(v: seq<Str>, x: Str, d: nat, eta: Node) {
    Wf(v, eta) && !IsLeaf(eta) && Rind(v, eta) == d && d <= |x| && Extent(v, eta) == x[..d]
  }

  /**
   * For x less than y and parting from it at bit d, the exit node of their common prefix is
   * where they part, unless x is at most the extent of its own exit node or greater than the
   * extent of the exit node of y.
   */
  lemma PartingExit(v: seq<Str>, x: Str, y: Str, d: nat)
    requires Keys(v) && d == CommonPrefixLength(x, y) && d < |x| && d < |y| && !x[d] && y[d]
    ensures Parts(v, x, d, Exit(v, x[..d]))
      || Le(x, Extent(v, Exit(v, x)))
      || !Le(x, Extent(v, Exit(v, y)))
  {
    var z := x[..d];
    var eta := Exit(v, z);
    ExitStops(v, z);
    var nm := Name(v, eta);
    assert IsPrefix(z, x) && IsPrefix(z, y);
    PrefixTransitive(nm, z, x);
    PrefixTransitive(nm, z, y);
    if Descends(v, eta, x) {
      LeftDescends(v, x, y, d, eta);
    } else if Descends(v, eta, y) {
      RightDescends(v, x, y, d, eta);
    } else {
      StopIsExit(v, eta, x);
      StopIsExit(v, eta, y);
    }
  }

  /** The exit node of the common prefix, when the descent towards x goes on below it. */
  lemma LeftDescends(v: seq<Str>, x: Str, y: Str, d: nat, eta: Node)
    requires Keys(v) && d == CommonPrefixLength(x, y) && d < |x| && d < |y| && !x[d] && y[d]
    requires Stops(v, eta, x[..d]) && OnPath(v, eta, y) && Descends(v, eta, x)
    ensures Parts(v, x, d, eta) || !Le(x, Extent(v, Exit(v, y)))
  {
    var e := Extent(v, eta);
    assert |e| >= d;
    if |e| > d {
      assert e[d] == x[d];
      StopIsExit(v, eta, y);
      PrefixLe(e, x);
      CmpAntisymmetric(e, x);
    }
  }

  /** The exit node of the common prefix, when the descent towards y goes on below it. */
  lemma RightDescends(v: seq<Str>, x: Str, y: Str, d: nat, eta: Node)
    requires Keys(v) && d == CommonPrefixLength(x, y) && d < |x| && d < |y| && !x[d] && y[d]
    requires Stops(v, eta, x[..d]) && OnPath(v, eta, x) && Descends(v, eta, y)
    ensures Parts(v, x, d, eta) || Le(x, Extent(v, Exit(v, x)))
  {
    var e := Extent(v, eta);
    assert |e| >= d;
    assert e[..d] == y[..d];
    if |e| > d {
      assert e[d] == y[d];
      StopIsExit(v, eta, x);
      CmpAtDifference(x, e, d);
    }
  }

  /**
   * In the third case x is less than y, they part at bit d < |x|, |y| with a 0 in x, and the
   * exit node of their common prefix is the internal node where they part.
   */
  lemma PartingNode(v: seq<Str>, x: Str, y: Str)
    requires Keys(v) && x != y
    requires !Le(x, Extent(v, Exit(v, x))) && Le(x, Extent(v, Exit(v, y)))
    ensures Lt(x, y)
    ensures var d := CommonPrefixLength(x, y);
      d < |x| && d < |y| && !x[d] && y[d] && CommonPrefix(x, y) == x[..d]
      && Parts(v, x, d, Exit(v, CommonPrefix(x, y)))
  {
    ExitStops(v, x);
    ExitStops(v, y);
    LtTotal(x, y);
    if Lt(y, x) {
      AfterStaysAtExit(v, x, y);
    }
    if IsPrefix(x, y) {
      PrefixStaysAtExit(v, x, y);
    }
    LtDifference(x, y);
    PartingExit(v, x, y, CommonPrefixLength(x, y));
  }

  // ---------------------------------------------------------------------------------------
  // The three cases against the range of the keys.

  /** Case 1: the successor of x is the first key below its exit node. */
  lemma FirstCaseRange(v: seq<Str>, x: Str, y: Str)
    requires Keys(v)
    requires Le(x, Extent(v, Exit(v, x)))
    ensures ExRangeOf(v, x, y) <==> Lt(v[Exit(v, x).l], y)
  {
    ExitStops(v, x);
    StopLowerBound(v, Exit(v, x), x);
  }

  /**
   * Case 2 with x less than y and greater than the extent of the exit node of y: the keys less
   * than y are those up to that node, so one of them is at least x exactly when the last key
   * below that node is.
   */
  lemma SecondCaseRange(v: seq<Str>, x: Str, y: Str)
    requires Keys(v) && Lt(x, y) && !Le(x, Extent(v, Exit(v, y)))
    ensures ExRangeOf(v, x, y) <==> Le(x, v[Exit(v, y).r - 1])
  {
    var ey := Exit(v, y);
    ExitStops(v, y);
    AboveStaysAbove(x, y, Extent(v, ey));
    StopAboveBound(v, ey, y);
    RangeBelowBound(v, x, y, ey.r);
  }

  /** A string above the extent of its stopping node is greater than every key up to that node. */
  lemma StopAboveBound(v: seq<Str>, e: Node, y: Str)
    requires Stops(v, e, y) && !Le(y, Extent(v, e))
    ensures Sorted(v) && 0 < e.r <= |v| && LowerBound(v, y) == e.r
  {
    StopLowerBound(v, e, y);
  }

  /** A string above x is not at most a string that x is greater than. */
  lemma AboveStaysAbove(x: Str, y: Str, e: Str)
    requires Lt(x, y) && !Le(x, e)
    ensures !Le(y, e)
  {
    if Le(y, e) {
      LtLeTransitive(x, y, e);
    }
  }

  /** When exactly the first r keys are less than y, [x, y) holds a key exactly when x <= v[r - 1]. */
  lemma RangeBelowBound(v: seq<Str>, x: Str, y: Str, r: nat)
    requires Sorted(v) && 0 < r <= |v| && LowerBound(v, y) == r
    ensures ExRangeOf(v, x, y) <==> Le(x, v[r - 1])
  {
    var k := r - 1;
    RangeByBounds(v, x, y);
    LowerBoundAtMost(v, x, k);
    CmpAntisymmetric(v[k], x);
  }

  /**
   * Around a split point m of a sorted store, with the key before m less than y and x less
   * than the key at m, [x, y) holds a key exactly when it holds one of those two.
   */
  lemma RangeAroundSplit(v: seq<Str>, x: Str, y: Str, m: nat)
    requires Sorted(v) && 0 < m < |v| && Lt(v[m - 1], y) && Lt(x, v[m])
    ensures ExRangeOf(v, x, y) <==> Le(x, v[m - 1]) || Lt(v[m], y)
  {
    CmpAntisymmetric(x, v[m]);
    CmpAntisymmetric(v[m - 1], x);
    RangeByBounds(v, x, y);
    LowerBoundAtMost(v, y, m - 1);
    LowerBoundAtMost(v, y, m);
    LowerBoundAtMost(v, x, m - 1);
    LowerBoundAtMost(v, x, m);
  }

  /**
   * Below the node where x and y part, the last key on the left is less than y and the first
   * key on the right is greater than x: they part from y and x at the same bit.
   */
  lemma PartingSides(v: seq<Str>, x: Str, y: Str, d: nat, eta: Node)
    requires d == CommonPrefixLength(x, y) && d < |x| && d < |y| && !x[d] && y[d]
    requires Parts(v, x, d, eta)
    ensures var m := Mid(v, eta); 0 < m < |v| && Lt(v[m - 1], y) && Lt(x, v[m])
  {
    var e := Extent(v, eta);
    var m := Mid(v, eta);
    MidNeighbours(v, eta);
    BranchCompares(v[m - 1], y, e, false);
    BranchCompares(v[m], x, e, true);
  }

  /** A string below the branch bit of e compares with w, which takes the other branch, by that bit. */
  lemma BranchCompares(k: Str, w: Str, e: Str, bit: bool)
    requires IsPrefix(e + [bit], k) && |e| < |w| && w[..|e|] == e && w[|e|] != bit
    ensures Lt(k, w) <==> !bit
    ensures Lt(w, k) <==> bit
  {
    var d := |e|;
    assert k[..d] == (e + [bit])[..d] == e;
    assert k[d] == (e + [bit])[d];
    CmpAtDifference(k, w, d);
  }

  /**
   * Case 3: below the node where x and y part, the keys on the left are less than y and those
   * on the right greater than x, so [x, y) holds a key exactly when the last key on the left
   * is at least x or the first key on the right is less than y.
   */
  lemma ThirdCaseRange(v: seq<Str>, x: Str, y: Str, d: nat, eta: Node)
    requires d == CommonPrefixLength(x, y) && d < |x| && d < |y| && !x[d] && y[d]
    requires Parts(v, x, d, eta)
    ensures var m := Mid(v, eta); 0 < m < |v| && (ExRangeOf(v, x, y) <==> Le(x, v[m - 1]) || Lt(v[m], y))
  {
    PartingSides(v, x, y, d, eta);
    RangeAroundSplit(v, x, y, Mid(v, eta));
  }

  /** For x less than y, each case of is_nonempty answers the range query. */
  lemma IsNonemptyOrdered(v: seq<Str>, x: Str, y: Str)
    requires Keys(v) && Lt(x, y)
    ensures IsNonemptyAsWritten(v, x, y) == ExRangeOf(v, x, y)
  {
    LtIrreflexive(x);
    if Le(x, Extent(v, Exit(v, x))) {
      FirstCaseAnswers(v, x, y);
    } else if !Le(x, Extent(v, Exit(v, y))) {
      SecondCaseAnswers(v, x, y);
    } else {
      ThirdCaseAnswers(v, x, y);
    }
  }

  lemma FirstCaseAnswers(v: seq<Str>, x: Str, y: Str)
    requires Keys(v) && x != y && Le(x, Extent(v, Exit(v, x)))
    ensures IsNonemptyAsWritten(v, x, y) == ExRangeOf(v, x, y)
  {
    AsWrittenFirst(v, x, y);
    FirstCaseRange(v, x, y);
  }

  lemma SecondCaseAnswers(v: seq<Str>, x: Str, y: Str)
    requires Keys(v) && Lt(x, y) && x != y
    requires !Le(x, Extent(v, Exit(v, x))) && !Le(x, Extent(v, Exit(v, y)))
    ensures IsNonemptyAsWritten(v, x, y) == ExRangeOf(v, x, y)
  {
    AsWrittenSecond(v, x, y);
    SecondCaseRange(v, x, y);
  }

  lemma ThirdCaseAnswers(v: seq<Str>, x: Str, y: Str)
    requires Keys(v) && x != y
    requires !Le(x, Extent(v, Exit(v, x))) && Le(x, Extent(v, Exit(v, y)))
    ensures IsNonemptyAsWritten(v, x, y) == ExRangeOf(v, x, y)
  {
    PartedCaseRange(v, x, y);
    AsWrittenThird(v, x, y);
  }

  /** Case 3 stated on the exit node of the common prefix of x and y. */
  lemma PartedCaseRange(v: seq<Str>, x: Str, y: Str)
    requires Keys(v) && x != y
    requires !Le(x, Extent(v, Exit(v, x))) && Le(x, Extent(v, Exit(v, y)))
    ensures !IsLeaf(Exit(v, CommonPrefix(x, y)))
    ensures var m := Mid(v, Exit(v, CommonPrefix(x, y)));
      ExRangeOf(v, x, y) <==> Le(x, v[m - 1]) || Lt(v[m], y)
  {
    var eta := Exit(v, CommonPrefix(x, y));
    PartingNode(v, x, y);
    ThirdCaseRange(v, x, y, CommonPrefixLength(x, y), eta);
    var m := Mid(v, eta);
    assert ExRangeOf(v, x, y) <==> Le(x, v[m - 1]) || Lt(v[m], y);
  }

  /**
   * is_nonempty as written answers the range query whenever x is not greater than y: it is
   * false for x == y and, for x < y, true exactly when some key s has x <= s < y.
   */
  lemma IsNonemptyCorrect(v: seq<Str>, x: Str, y: Str)
    requires Keys(v) && !Lt(y, x)
    ensures IsNonemptyAsWritten(v, x, y) == ExRangeOf(v, x, y)
    ensures IsNonemptyAsWritten(v, x, y) <==> exists s :: s in v && Le(x, s) && Lt(s, y)
  {
    if x == y {
      ExRangeEmpty(v, x, y);
    } else {
      LtTotal(x, y);
      IsNonemptyOrdered(v, x, y);
    }
    ExRangeIff(v, x, y);
  }

  /**
   * With y less than x the second case can answer true: over the keys 0 and 1, x = 00 is
   * greater than the empty extent of the root, where the empty y exits, and at most the last
   * key 1, so is_nonempty(00, empty) is true, though no key is less than the empty string.
   */
  lemma IsNonemptyWhenReversed()
    ensures var v, x, y := [[false], [true]], [false, false], [];
      Keys(v) && Lt(y, x) && IsNonemptyAsWritten(v, x, y) && !ExRangeOf(v, x, y)
  {
    var v: seq<Str>, x: Str, y: Str := [[false], [true]], [false, false], [];
    assert v[1][..1] == [true];
    assert Keys(v);
    assert Lt(y, x);
    ExitStops(v, x);
    ExitStops(v, y);
    var root := Root(v);
    assert Rind(v, root) == 0;
    assert Exit(v, y) == root;
    assert Descends(v, root, x);
    assert Exit(v, x) == DescendTo(v, Next(v, root, x), x, |x|);
    assert !Le(x, Extent(v, Exit(v, x)));
    assert !Le(x, Extent(v, root));
    assert Le(x, v[1]);
    ExRangeEmpty(v, x, y);
  }
}
