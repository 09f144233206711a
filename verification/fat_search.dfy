/**
 * The fat binary search of the z-fast tries (`locate_exit_or_parex_prob` and `locate_parex` in
 * z_fast_trie.rs and z_fast_trie_sux.rs), stated on the structure of the trie.
 *
 * The search keeps an interval [a, b] of positions of x and a mask; at each step it queries the
 * z-map for the prefix of x whose length f is the fattest number of [a, b] (the value of b with
 * the bits below the highest bit where a - 1 and b differ cleared). When a node with handle length
 * f is accepted, a moves past its extent; otherwise b moves below f.
 *
 * `parex` selects the acceptance test: in the exit search a node is a hit when its handle begins
 * x, in the parent-of-exit search when its extent is a proper prefix of x. The search ends on the
 * deepest hit, `Target`: in the exit search the exit node itself when its handle begins x, and
 * otherwise the parent of the exit node (None at the root). An approximate z-map may accept a
 * node that is not a hit (`SearchBad`); such a result is recognised afterwards, since its handle
 * does not begin x.
 */
module FatSearch {
  import opened Wrappers
  import opened Strings
  import opened BitwiseOperations
  import opened TrieStructure
  import opened TrieHandles

  /** A node the search accepts rightly. */
  ghost predicate Hit(v: seq<Str>, x: Str, parex: bool, n: Node) {
    && IsNode(v, n) && Wf(v, n) && !IsLeaf(n)
    && (if parex then ProperPrefix(Extent(v, n), x) else IsPrefix(Handle(v, n), x))
  }

  /**
   * The node the descent reaches for the position just before the label of the exit node: the
   * parent of the exit node (by ParentOfExit).
   */
  function ExitParent(v: seq<Str>, x: Str): Node
    requires |v| >= 1 && Exit(v, x).lind >= 1
  {
    var f := Exit(v, x).lind - 1;
    DescendTo(v, Root(v), x, f)
  }

  /** The deepest hit: where the search ends (a hit by TargetIsHit). */
  ghost function Target(v: seq<Str>, x: Str, parex: bool): Option<Node>
    requires |v| >= 1
  {
    var e := Exit(v, x);
    if !parex && Wf(v, e) && !IsLeaf(e) && IsPrefix(Handle(v, e), x) then Some(e)
    else if e.lind == 0 then None
    else Some(ExitParent(v, x))
  }

  lemma TargetIsHit(v: seq<Str>, x: Str, parex: bool)
    requires Keys(v)
    ensures var t := Target(v, x, parex);
      t.Some? ==> Hit(v, x, parex, t.value)
  {
    ExitStops(v, x);
    var e := Exit(v, x);
    if e.lind >= 1 {
      ParentOfExit(v, x, e, ExitParent(v, x));
    }
  }

  // ---------------------------------------------------------------------------------------
  // Nodes on the path of x.

  /** A proper prefix of a prefix of x is a proper prefix of x. */
  lemma ProperPrefixOfPrefix(p: Str, q: Str, x: Str)
    requires ProperPrefix(p, q) && IsPrefix(q, x)
    ensures ProperPrefix(p, x)
  {
    PrefixTransitive(p, q, x);
  }

  /** What lying below p tells about n, stated for any two nodes. */
  lemma BelowImplies(v: seq<Str>, p: Node, n: Node)
    ensures Below(v, p, n) ==>
      && Wf(v, p) && Wf(v, n) && p.l <= n.l < n.r <= p.r && p.lind <= n.lind
      && (n != p ==> !IsLeaf(p) && ProperPrefix(Extent(v, p), Name(v, n)) && Rind(v, p) < n.lind)
  {
    if Below(v, p, n) {
      BelowWf(v, p, n);
    }
  }

  /** Of two nodes on the path of x, one lies below the other. */
  lemma OnPathComparable(v: seq<Str>, x: Str, m1: Node, m2: Node)
    requires Keys(v) && OnPath(v, m1, x) && OnPath(v, m2, x)
    ensures Below(v, m1, m2) || Below(v, m2, m1)
  {
    if m1.lind <= m2.lind {
      PathOrdered(v, m1, m2, x);
    } else {
      PathOrdered(v, m2, m1, x);
    }
  }

  /** A hit lies on the path of x, and its handle begins x. */
  lemma HitOnPath(v: seq<Str>, x: Str, parex: bool, n: Node)
    requires Hit(v, x, parex, n)
    ensures OnPath(v, n, x) && IsPrefix(Handle(v, n), x)
  {
    if parex {
      PrefixTransitive(Handle(v, n), Extent(v, n), x);
    }
    PrefixTransitive(Name(v, n), Handle(v, n), x);
  }

  /** A node whose extent is a proper prefix of x is a hit of both searches. */
  lemma ParexHitIsHit(v: seq<Str>, x: Str, n: Node)
    requires Hit(v, x, true, n)
    ensures Hit(v, x, false, n)
  {
    PrefixTransitive(Handle(v, n), Extent(v, n), x);
  }

  /**
   * The node the descent reaches for position f, where e is the exit node and f = e.lind - 1,
   * is internal, its extent is a proper prefix of x and it ends at f.
   */
  lemma ParentOfExitDescends(v: seq<Str>, x: Str, e: Node, f: nat, p: Node)
    requires Keys(v) && e == Exit(v, x) && f + 1 == e.lind && p == DescendTo(v, Root(v), x, f)
    ensures IsNode(v, p) && Wf(v, p) && !IsLeaf(p)
    ensures ProperPrefix(Extent(v, p), x) && Rind(v, p) + 1 == e.lind
  {
    ExitStops(v, x);
    RootWf(v);
    DescendFacts(v, Root(v), x, f);
    DescendOrdered(v, Root(v), x, f, |x|);
    BelowWf(v, p, e);
    ProperPrefixOfPrefix(Extent(v, p), Name(v, e), x);
  }

  /** Two nodes on the path of x whose labels start at the same position are the same node. */
  lemma SameStartOnPath(v: seq<Str>, x: Str, m1: Node, m2: Node)
    requires Keys(v) && OnPath(v, m1, x) && OnPath(v, m2, x) && m1.lind == m2.lind
    ensures m1 == m2
  {
    PathOrdered(v, m1, m2, x);
    PathOrdered(v, m2, m1, x);
    BelowWf(v, m1, m2);
    BelowWf(v, m2, m1);
  }

  /** The child towards x of a node on the path of x lies on the path of x. */
  lemma NextOnPath(v: seq<Str>, x: Str, p: Node)
    requires IsNode(v, p) && Wf(v, p) && Descends(v, p, x)
    ensures OnPath(v, Next(v, p, x), x) && Next(v, p, x).lind == Rind(v, p) + 1
  {
    ChildOnWay(v, p, x);
    ChildBelow(v, Root(v), p, x[Rind(v, p)]);
  }

  /**
   * Below a node whose label starts at e.lind > 0 on the path of x, the node the descent reaches
   * for position e.lind - 1 is the parent of the exit node: a hit of the parent-of-exit search
   * whose child towards x is the exit node.
   */
  lemma ParentOfExit(v: seq<Str>, x: Str, e: Node, p: Node)
    requires Keys(v) && e == Exit(v, x) && e.lind >= 1 && p == ExitParent(v, x)
    ensures Hit(v, x, true, p) && Hit(v, x, false, p)
    ensures Descends(v, p, x) && Next(v, p, x) == e
  {
    var f := e.lind - 1;
    assert p == DescendTo(v, Root(v), x, f);
    ParentOfExitDescends(v, x, e, f, p);
    ParexHitIsHit(v, x, p);
    ExitStops(v, x);
    NextOnPath(v, x, p);
    SameStartOnPath(v, x, Next(v, p, x), e);
  }

  /** A node with a node of the path of x strictly below it is one the descent goes on from. */
  lemma AboveDescends(v: seq<Str>, x: Str, p: Node, n: Node)
    ensures Below(v, p, n) && n != p && Wf(v, n) && IsPrefix(Name(v, n), x) ==>
      InRange(v, p) && Descends(v, p, x)
  {
    if Below(v, p, n) && n != p && Wf(v, n) && IsPrefix(Name(v, n), x) {
      BelowWf(v, p, n);
      ProperPrefixOfPrefix(Extent(v, p), Name(v, n), x);
    }
  }

  /** A hit is the exit node itself (only in the exit search) or lies strictly above it. */
  lemma HitAboveExit(v: seq<Str>, x: Str, parex: bool, n: Node)
    requires Keys(v) && Hit(v, x, parex, n)
    ensures var e := Exit(v, x);
      (n == e && !parex) || (Below(v, n, e) && n != e && Rind(v, n) < e.lind)
  {
    ExitStops(v, x);
    var e := Exit(v, x);
    HitOnPath(v, x, parex, n);
    OnPathComparable(v, x, n, e);
    BelowImplies(v, n, e);
    AboveDescends(v, x, e, n);
  }

  /** Every hit lies above the target, which therefore exists when there is a hit. */
  lemma HitBelowTarget(v: seq<Str>, x: Str, parex: bool, n: Node)
    requires Keys(v) && Hit(v, x, parex, n)
    ensures Target(v, x, parex).Some? && Below(v, n, Target(v, x, parex).value)
  {
    ExitStops(v, x);
    RootWf(v);
    var e := Exit(v, x);
    HitAboveExit(v, x, parex, n);
    var t := Target(v, x, parex);
    if n != e && t != Some(e) {
      var f := e.lind - 1;
      HitOnPath(v, x, parex, n);
      DescendFinds(v, Root(v), n, x, n.lind);
      DescendOrdered(v, Root(v), x, n.lind, f);
    }
  }

  /** Where the exit node lies relative to the target: at it, or at its child towards x. */
  lemma TargetLocatesExit(v: seq<Str>, x: Str, parex: bool)
    requires Keys(v)
    ensures var t := Target(v, x, parex);
      && (t.Some? ==> Hit(v, x, parex, t.value))
      && (t.None? ==> Exit(v, x) == Root(v))
      && (t.Some? && Descends(v, t.value, x) ==> Next(v, t.value, x) == Exit(v, x))
      && (t.Some? && !Descends(v, t.value, x) ==> t.value == Exit(v, x))
  {
    ExitStops(v, x);
    TargetIsHit(v, x, parex);
    var e := Exit(v, x);
    if e.lind == 0 {
      RootOnlyAtZero(v, e);
    } else {
      ParentOfExit(v, x, e, ExitParent(v, x));
    }
  }

  // ---------------------------------------------------------------------------------------
  // The search invariant.

  /** f is the length the search queries for the interval [a, b]. */
  ghost predicate QueryPoint(a: nat, b: nat, f: nat) {
    a <= b && if a == 0 then f == 0 else IsFattest(f, a, b)
  }

  /**
   * Every node accepted so far was a hit, the last one is res (a lies just past its extent,
   * and is 0 before the first), and either res is already the target or the handle length of
   * the target lies in [a, b].
   */
  ghost predicate SearchGood(v: seq<Str>, x: Str, parex: bool, a: nat, b: nat, res: Option<Node>)
    requires Keys(v)
  {
    && (res.None? ==> a == 0)
    && (res.Some? ==> Hit(v, x, parex, res.value) && a == Rind(v, res.value) + 1)
    && (var t := Target(v, x, parex);
        res == t || (t.Some? && Wf(v, t.value) && a <= Fat(v, t.value) <= b))
  }

  /** A wrongly accepted node res: not a hit, and a lies past the target's handle length. */
  ghost predicate SearchBad(v: seq<Str>, x: Str, parex: bool, a: nat, res: Option<Node>)
    requires Keys(v)
  {
    && res.Some? && IsNode(v, res.value) && Wf(v, res.value) && !IsLeaf(res.value)
    && !Hit(v, x, parex, res.value) && a == Rind(v, res.value) + 1
    && (var t := Target(v, x, parex); t.Some? ==> Wf(v, t.value) && Fat(v, t.value) < a)
  }

  /** The search starts with nothing accepted and the interval [0, |x|]. */
  lemma SearchStarts(v: seq<Str>, x: Str, parex: bool)
    requires Keys(v)
    ensures SearchGood(v, x, parex, 0, |x|, None)
  {
    TargetIsHit(v, x, parex);
    var t := Target(v, x, parex);
    if t.Some? {
      var t0 := t.value;
      HitOnPath(v, x, parex, t0);
      assert |Handle(v, t0)| <= |x|;
    }
  }

  /**
   * The heart of the search: while the target is still ahead, a query at or before the target's
   * handle length finds the node of the path of x whose label covers f, which is a hit with
   * handle length f.
   */
  lemma QueryBeforeTarget(v: seq<Str>, x: Str, parex: bool, a: nat, b: nat, res: Option<Node>, f: nat)
    requires Keys(v) && SearchGood(v, x, parex, a, b, res) && QueryPoint(a, b, f)
    ensures var t := Target(v, x, parex);
      var n := DescendTo(v, Root(v), x, f);
      res != t && t.Some? && f <= Fat(v, t.value) ==> Hit(v, x, parex, n) && Fat(v, n) == f
  {
    var t := Target(v, x, parex);
    if res != t && t.Some? && f <= Fat(v, t.value) {
      RootWf(v);
      TargetIsHit(v, x, parex);
      var t0 := t.value;
      var n := DescendTo(v, Root(v), x, f);
      HitOnPath(v, x, parex, t0);
      if t0.lind <= f {
        DescendFinds(v, Root(v), t0, x, f);
        if a >= 1 {
          FattestUnique(f, a, b, Fat(v, t0), t0.lind, Rind(v, t0));
        }
      } else {
        DescendFacts(v, Root(v), x, f);
        DescendFinds(v, Root(v), t0, x, t0.lind);
        DescendOrdered(v, Root(v), x, f, t0.lind);
        BelowWf(v, n, t0);
        ProperPrefixOfPrefix(Extent(v, n), Name(v, t0), x);
        PrefixTransitive(Handle(v, n), Extent(v, n), x);
        if a >= 1 {
          var r := res.value;
          HitOnPath(v, x, parex, r);
          OnPathComparable(v, x, r, n);
          BelowImplies(v, r, n);
          BelowImplies(v, n, r);
          FattestUnique(f, a, b, Fat(v, n), n.lind, Rind(v, n));
        }
      }
    }
  }

  /** Accepting a hit whose handle length is the queried f keeps the search good. */
  lemma AcceptHit(v: seq<Str>, x: Str, parex: bool, a: nat, b: nat, res: Option<Node>, f: nat, n: Node)
    requires Keys(v) && SearchGood(v, x, parex, a, b, res) && QueryPoint(a, b, f)
    requires Hit(v, x, parex, n) && Fat(v, n) == f
    ensures SearchGood(v, x, parex, Rind(v, n) + 1, b, Some(n))
  {
    HitBelowTarget(v, x, parex, n);
    var t0 := Target(v, x, parex).value;
    BelowImplies(v, n, t0);
    if res.Some? {
      HitBelowTarget(v, x, parex, res.value);
      BelowImplies(v, res.value, t0);
    }
  }

  /**
   * When the node of the path for f is not a hit with handle length f, the target's handle is
   * shorter than f: the interval shrinks to [a, b'] with b' = f - 1, and at f = 0 the search
   * is done.
   */
  lemma Miss(v: seq<Str>, x: Str, parex: bool, a: nat, b: nat, res: Option<Node>, f: nat, b': nat)
    requires Keys(v) && SearchGood(v, x, parex, a, b, res) && QueryPoint(a, b, f)
    requires var n := DescendTo(v, Root(v), x, f);
      !(Hit(v, x, parex, n) && Fat(v, n) == f)
    requires f >= 1 ==> b' + 1 == f
    ensures f == 0 ==> res == Target(v, x, parex)
    ensures f >= 1 ==> SearchGood(v, x, parex, a, b', res)
  {
    QueryBeforeTarget(v, x, parex, a, b, res, f);
  }

  /** A hit is never accepted once a wrong node has been. */
  lemma BadRejectsHits(v: seq<Str>, x: Str, parex: bool, a: nat, b: nat, res: Option<Node>, f: nat, n: Node)
    requires Keys(v) && QueryPoint(a, b, f)
    ensures SearchBad(v, x, parex, a, res) ==> !(Hit(v, x, parex, n) && Fat(v, n) == f)
  {
    if Hit(v, x, parex, n) {
      HitBelowTarget(v, x, parex, n);
      BelowImplies(v, n, Target(v, x, parex).value);
    }
  }

  /**
   * Accepting a node that is not a hit, when the node of the path for f is not a hit with handle
   * length f, leaves the search in the bad state.
   */
  lemma AcceptWrong(v: seq<Str>, x: Str, parex: bool, a: nat, b: nat, res: Option<Node>, f: nat, n: Node)
    requires Keys(v) && QueryPoint(a, b, f)
    requires SearchGood(v, x, parex, a, b, res) || SearchBad(v, x, parex, a, res)
    requires IsNode(v, n) && Wf(v, n) && !IsLeaf(n) && !Hit(v, x, parex, n) && Fat(v, n) == f
    requires var m := DescendTo(v, Root(v), x, f);
      !(Hit(v, x, parex, m) && Fat(v, m) == f)
    ensures SearchBad(v, x, parex, Rind(v, n) + 1, Some(n))
  {
    if SearchGood(v, x, parex, a, b, res) {
      QueryBeforeTarget(v, x, parex, a, b, res, f);
      var t := Target(v, x, parex);
      if t.Some? && res == t {
        BelowImplies(v, t.value, t.value);
      }
    }
  }

  // ---------------------------------------------------------------------------------------
  // The mask. The search keeps a mask m = !(2^j - 1), represented by j, starting at calc(|x|)
  // and shifted right once per round; m & w is KeepHigh(w, j). A query is made when a == 0 or
  // when a - 1 and b differ under the mask, and then f = m & b.

  /**
   * m >> 1 on the mask with exponent j. calc(0) is !0, which keeps every bit, and its shift
   * !0 >> 1 is read as keeping every bit too: that holds for the lengths the search compares,
   * which stay below 2^63, while on the machine word the shift clears the top bit.
   */
  function ShiftMask(j: nat): (j': nat)
    ensures j' <= j && (j >= 1 ==> j' + 1 == j)
  {
    if j == 0 then 0 else j - 1
  }

  /** A query is made in the round with interval [a, b] and mask j. */
  predicate Queries(a: nat, b: nat, j: nat) {
    a == 0 || KeepHigh(a - 1, j) != KeepHigh(b, j)
  }

  /** The length queried in that round. */
  function QueryLength(a: nat, b: nat, j: nat): nat {
    if a == 0 then 0 else KeepHigh(b, j)
  }

  /**
   * What the mask keeps: a - 1 and b agree above bit j, and before the first acceptance b lies
   * below 2^j.
   */
  ghost predicate MaskInv(a: nat, b: nat, j: nat) {
    && (a >= 1 && a <= b ==> KeepHigh(a - 1, j + 1) == KeepHigh(b, j + 1))
    && (a == 0 ==> b < Pow2(j))
  }

  lemma MaskStarts(n: nat)
    ensures MaskInv(0, n, Calc(n))
  {
  }

  /** When a query is made, the length queried is the fattest number of [a, b]. */
  lemma MaskQuery(a: nat, b: nat, j: nat)
    requires MaskInv(a, b, j) && a <= b && Queries(a, b, j)
    ensures QueryPoint(a, b, QueryLength(a, b, j))
  {
    if a >= 1 {
      SplitIsFattest(a - 1, b, j);
    }
  }

  /** A round without a query can only happen above bit 0, and shifting keeps the invariant. */
  lemma MaskSkip(a: nat, b: nat, j: nat)
    requires MaskInv(a, b, j) && a <= b && !Queries(a, b, j)
    ensures j >= 1 && MaskInv(a, b, ShiftMask(j))
  {
  }

  /** Accepting a node whose label ends at r >= f keeps the invariant with a = r + 1. */
  lemma MaskHit(a: nat, b: nat, j: nat, r: nat)
    requires MaskInv(a, b, j) && a <= b && Queries(a, b, j)
    requires QueryLength(a, b, j) <= r
    ensures MaskInv(r + 1, b, ShiftMask(j))
  {
    var j' := ShiftMask(j);
    if r + 1 <= b {
      if a == 0 {
        KeepHighSmall(r, j);
        KeepHighSmall(b, j);
      } else {
        var f := KeepHigh(b, j);
        KeepHighIdempotent(b, j);
        KeepHighMono(f, r, j);
        KeepHighMono(r, b, j);
      }
    }
  }

  /** Rejecting the length f >= 1 keeps the invariant with b = f - 1. */
  lemma MaskMiss(a: nat, b: nat, j: nat, f: nat, g: nat)
    requires MaskInv(a, b, j) && 1 <= a <= b && Queries(a, b, j) && f == QueryLength(a, b, j)
    requires g + 1 == f
    ensures MaskInv(a, g, ShiftMask(j))
  {
    MaskQuery(a, b, j);
    KeepHighMono(a - 1, g, j + 1);
    KeepHighMono(g, b, j + 1);
    KeepHighStep(g, j);
    KeepHighBounds(g, j);
    KeepHighStep(a - 1, j);
    KeepHighStep(b, j);
    KeepHighMono(a - 1, b, j);
  }
}
