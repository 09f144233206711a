/**
 * The compacted binary trie of tries/compact_trie.rs: a tree of owned nodes, each labelled with
 * the bits that its keys share below its parent's branching bit. `TrieNode::new` builds it
 * recursively from the sorted input; the predecessor and successor queries walk it while
 * threading the bits read so far (`curr`) and whether the answer is already decided (`found`).
 */
module CompactTrie {
  import opened Wrappers
  import opened Strings
  import opened SortedStrings
  import opened NaiveTrie
  import opened TrieStructure

  /** A node owns its label and its optional children. */
  datatype TrieNode = TrieNode(s: Str, left: Option<TrieNode>, right: Option<TrieNode>)

  /**
   * The tree built for node n of the trie of v: its label is the part of its extent after its
   * name, and an internal node has both children.
   */
  function Tree(v: seq<Str>, n: Node): (t: TrieNode)
    requires InRange(v, n)
    ensures t.left.Some? == t.right.Some? && t.left.Some? == !IsLeaf(n)
    decreases n.r - n.l
  {
    var s := v[n.l][Min(n.lind, Rind(v, n))..Rind(v, n)];
    if IsLeaf(n) then TrieNode(s, None, None)
    else TrieNode(s, Some(Tree(v, Left(v, n))), Some(Tree(v, Right(v, n))))
  }

  /** Every node of a tree has zero or two children. */
  predicate ZeroOrTwo(t: TrieNode) {
    && t.left.Some? == t.right.Some?
    && (t.left.Some? ==> ZeroOrTwo(t.left.value))
    && (t.right.Some? ==> ZeroOrTwo(t.right.value))
  }

  /** The strings spelled from t down to its leaves, left to right: labels joined by branch bits. */
  function Spelled(t: TrieNode): seq<Str> {
    match (t.left, t.right)
    case (Some(l), Some(r)) =>
      Prepend(t.s + [false], Spelled(l)) + Prepend(t.s + [true], Spelled(r))
    case _ => [t.s]
  }

  function Prepend(p: Str, ws: seq<Str>): (r: seq<Str>)
    ensures |r| == |ws| && forall i :: 0 <= i < |ws| ==> r[i] == p + ws[i]
  {
    seq(|ws|, i requires 0 <= i < |ws| => p + ws[i])
  }

  // ---------------------------------------------------------------------------------------
  // Building.

  /** The node reached after the bits of a collapsed level has the same tree below it. */
  lemma TreeCollapse(v: seq<Str>, l: nat, r: nat, ind: nat, ind1: nat)
    requires InRange(v, Node(l, r, ind)) && !IsLeaf(Node(l, r, ind)) && ind1 == ind + 1
    requires ind1 <= Rind(v, Node(l, r, ind1))
    ensures ind < Rind(v, Node(l, r, ind))
    ensures var t := Tree(v, Node(l, r, ind1));
      Tree(v, Node(l, r, ind)) == t.(s := [v[l][ind]] + t.s)
  {
    var n, m := Node(l, r, ind), Node(l, r, ind1);
    var d := Rind(v, n);
    assert Rind(v, m) == d && Mid(v, m) == Mid(v, n);
    assert v[l][ind..d] == [v[l][ind]] + v[l][ind + 1..d];
  }

  /** A range whose keys split at bit ind is an internal node with an empty label. */
  lemma TreeSplit(v: seq<Str>, l: nat, mid: nat, r: nat, ind: nat, ind1: nat)
    requires l < mid < r <= |v| && SharePrefix(v, l, r, ind) && ind1 == ind + 1
    requires forall k :: l <= k < r ==> ind < |v[k]| && (v[k][ind] <==> mid <= k)
    ensures Rind(v, Node(l, r, ind)) == ind
    ensures Tree(v, Node(l, r, ind))
      == TrieNode([], Some(Tree(v, Node(l, mid, ind1))), Some(Tree(v, Node(mid, r, ind1))))
  {
    SplitAt(v, l, mid, r, ind);
    var n := Node(l, r, ind);
    assert Left(v, n) == Node(l, mid, ind1) && Right(v, n) == Node(mid, r, ind1);
  }

  /**
   * Where the scan for the first key with bit ind set stops, the range splits by that bit, and
   * it is prefix-free exactly when both sides are.
   */
  lemma SplitFound(v: seq<Str>, l: nat, mid: nat, r: nat, ind: nat)
    requires Sorted(v) && l <= mid <= r <= |v| && SharePrefix(v, l, r, ind)
    requires forall k :: l <= k < r ==> ind < |v[k]|
    requires forall k :: l <= k < mid ==> !v[k][ind]
    requires mid < r ==> v[mid][ind]
    ensures forall k :: l <= k < r ==> (v[k][ind] <==> mid <= k)
    ensures RangePrefixFree(v, l, r) <==> RangePrefixFree(v, l, mid) && RangePrefixFree(v, mid, r)
  {
    forall k | mid <= k < r
      ensures v[k][ind]
    {
      if k > mid {
        BitStaysSet(v, l, r, ind, mid, k);
      }
    }
    PrefixFreeJoin(v, l, mid, r, ind);
  }

  /**
   * `TrieNode::new(v, ind, l, r)`: the tree of the keys v[l..r), which share their first ind
   * bits. It panics, through the assertion that reads v[l], exactly when the range lies past the
   * end of v or is not prefix-free, and otherwise returns the tree of Node(l, r, ind).
   */
  method New(v: seq<Str>, ind: nat, l: nat, r: nat) returns (out: Outcome, t: Option<TrieNode>)
    requires Sorted(v) && l <= r <= |v| && SharePrefix(v, l, r, ind)
    ensures out.Done? <==> l < |v| && RangePrefixFree(v, l, r)
    ensures out.Done? && l == r ==> t == None
    ensures out.Done? && l < r ==>
      ind <= Rind(v, Node(l, r, ind)) && t == Some(Tree(v, Node(l, r, ind)))
    decreases r - l, if l < r then |v[l]| - ind else 0
  {
    if l >= |v| {
      return Panic, None;
    }
    if !(ind < |v[l]| || l + 1 >= r) {
      assert v[l] == v[l + 1][..ind];
      return Panic, None;
    }
    if l == r {
      return Done, None;
    }
    if l + 1 == r {
      return Done, Some(TrieNode(v[l][ind..|v[l]|], None, None));
    }
    SharedPrefixLonger(v, l, r, ind);
    var mid := l;
    while mid < r && !v[mid][ind]
      invariant l <= mid <= r
      invariant forall k :: l <= k < mid ==> !v[k][ind]
    {
      mid := mid + 1;
    }
    SplitFound(v, l, mid, r, ind);
    if mid != l && mid != r {
      ShareOneMore(v, l, mid, ind, false);
      ShareOneMore(v, mid, r, ind, true);
      var ind1 := ind + 1;
      var o1, lt := New(v, ind1, l, mid);
      var o2, rt := New(v, ind1, mid, r);
      if o1.Panic? || o2.Panic? {
        return Panic, None;
      }
      TreeSplit(v, l, mid, r, ind, ind1);
      return Done, Some(TrieNode([], lt, rt));
    } else {
      ShareOneMore(v, l, r, ind, v[l][ind]);
      var ind1 := ind + 1;
      var o, x := New(v, ind1, l, r);
      if o.Panic? {
        return Panic, None;
      }
      assert x.Some?;
      var res := x.value;
      res := res.(s := [v[l][ind]] + res.s);
      TreeCollapse(v, l, r, ind, ind1);
      return Done, Some(res);
    }
  }

  // ---------------------------------------------------------------------------------------
  // What a query returns below a node.

  /** The successor of x among the keys of n: the first of them, from n.l on, not less than x. */
  function SuccIn(v: seq<Str>, n: Node, x: Str): Option<Str>
    requires InRange(v, n)
  {
    var k := LowerBoundFrom(v, x, n.l);
    if k < n.r then Some(v[k]) else None
  }

  /** The predecessor of x among the keys of n: the last of them that is less than x. */
  function PredIn(v: seq<Str>, n: Node, x: Str): Option<Str>
    requires InRange(v, n)
  {
    var k := LowerBoundFrom(v, x, n.l);
    if k >= n.r then Some(v[n.r - 1]) else if k > n.l then Some(v[k - 1]) else None
  }

  /** The lower bound from i is i itself when v[i] is at least x. */
  lemma LowerBoundFromAt(v: seq<Str>, x: Str, i: nat)
    requires i < |v| && Le(x, v[i])
    ensures LowerBoundFrom(v, x, i) == i
  {
    CmpAntisymmetric(x, v[i]);
  }

  /** Skipping keys less than x does not move the lower bound. */
  lemma LowerBoundFromSkip(v: seq<Str>, x: Str, i: nat, j: nat)
    requires i <= j <= |v| && forall k :: i <= k < j ==> Lt(v[k], x)
    ensures LowerBoundFrom(v, x, i) == LowerBoundFrom(v, x, j)
  {
    var a, b := LowerBoundFrom(v, x, i), LowerBoundFrom(v, x, j);
    assert j <= a;
  }

  /** The lower bound from i stops at the latest at a key that is at least x. */
  lemma LowerBoundFromAtMost(v: seq<Str>, x: Str, i: nat, m: nat)
    requires i <= m < |v| && Le(x, v[m])
    ensures LowerBoundFrom(v, x, i) <= m
  {
    CmpAntisymmetric(x, v[m]);
  }

  /** In a sorted sequence, everything up to a key less than x is less than x. */
  lemma BelowUpTo(v: seq<Str>, x: Str, l: nat, r: nat)
    requires Sorted(v) && l < r <= |v| && Lt(v[r - 1], x)
    ensures forall k :: l <= k < r ==> Lt(v[k], x)
  {
    forall k | l <= k < r - 1
      ensures Lt(v[k], x)
    {
      LeLtTransitive(v[k], v[r - 1], x);
    }
  }

  /** Keys of n that are all less than x leave the lower bound at or past n.r. */
  lemma AllKeysBelow(v: seq<Str>, n: Node, x: Str)
    requires Sorted(v) && InRange(v, n) && Lt(v[n.r - 1], x)
    ensures LowerBoundFrom(v, x, n.l) >= n.r
  {
    BelowUpTo(v, x, n.l, n.r);
  }

  /** A string beginning with e + [false] is less than one beginning with e + [true]. */
  lemma SiblingsCompare(e: Str, s: Str, t: Str)
    requires IsPrefix(e + [false], s) && IsPrefix(e + [true], t)
    ensures Lt(s, t)
  {
    var p, q := e + [false], e + [true];
    assert p[..|e|] == q[..|e|];
    CmpAtDifference(p, q, |e|);
    ExtensionsCompare(p, q, s, t, |e|);
  }

  /** A key is at least x when its node's extent is. */
  lemma AboveExtends(x: Str, a: Str, b: Str)
    requires Le(x, a) && IsPrefix(a, b)
    ensures Le(x, b)
  {
    PrefixLe(a, b);
    LeTransitive(x, a, b);
  }

  /**
   * a and x first differ at a bit that is 0 in a and 1 in x; then every string beginning with a
   * is less than x.
   */
  predicate BranchesBelow(a: Str, x: Str) {
    var d := CommonPrefixLength(a, x);
    d < |a| && d < |x| && !a[d] && x[d]
  }

  lemma BranchesBelowExtends(a: Str, b: Str, x: Str)
    requires BranchesBelow(a, x) && IsPrefix(a, b)
    ensures BranchesBelow(b, x) && Lt(b, x)
  {
    var d := CommonPrefixLength(a, x);
    assert b[..d] == a[..d];
    CommonPrefixLengthUnique(b, x, d);
    CmpAtDifference(b, x, d);
  }

  /** The keys below n are all at least x when its extent is: the successor is its first key. */
  lemma SuccFound(v: seq<Str>, n: Node, x: Str)
    requires Wf(v, n) && Le(x, Extent(v, n))
    ensures SuccIn(v, n, x) == Some(v[n.l])
    ensures IsLeaf(n) ==> Extent(v, n) == v[n.l]
    ensures !IsLeaf(n) ==> SuccIn(v, Left(v, n), x) == SuccIn(v, n, x)
  {
    AboveExtends(x, Extent(v, n), v[n.l]);
    LowerBoundFromAt(v, x, n.l);
  }

  /** The keys below n are all less than x when its extent branches below x: no successor. */
  lemma SuccBranchesBelow(v: seq<Str>, n: Node, x: Str)
    requires Wf(v, n) && BranchesBelow(Extent(v, n), x)
    ensures SuccIn(v, n, x) == None
  {
    BranchesBelowExtends(Extent(v, n), v[n.r - 1], x);
    AllKeysBelow(v, n, x);
  }

  /** A leaf whose key is a proper prefix of x has no successor of x. */
  lemma SuccLeafBelow(v: seq<Str>, n: Node, x: Str)
    requires Wf(v, n) && IsLeaf(n) && ProperPrefix(Extent(v, n), x)
    ensures SuccIn(v, n, x) == None
  {
    PrefixLe(v[n.l], x);
    AllKeysBelow(v, n, x);
  }

  /** When x continues the extent with a 1, the successor lies in the right child. */
  lemma SuccGoesRight(v: seq<Str>, n: Node, x: Str)
    requires Wf(v, n) && !IsLeaf(n) && IsPrefix(Extent(v, n) + [true], x)
    ensures SuccIn(v, n, x) == SuccIn(v, Right(v, n), x)
  {
    var m := Mid(v, n);
    ChildKeys(v, n, false);
    SiblingsCompare(Extent(v, n), v[m - 1], x);
    BelowUpTo(v, x, n.l, m);
    LowerBoundFromSkip(v, x, n.l, m);
  }

  /**
   * When x continues the extent with a 0, the successor is the one in the left child, or else
   * the first key of the right child.
   */
  lemma SuccTriesLeft(v: seq<Str>, n: Node, x: Str)
    requires Wf(v, n) && !IsLeaf(n) && IsPrefix(Extent(v, n) + [false], x)
    ensures SuccIn(v, n, x) ==
      if SuccIn(v, Left(v, n), x).Some? then SuccIn(v, Left(v, n), x) else SuccIn(v, Right(v, n), x)
    ensures SuccIn(v, Right(v, n), x) == Some(v[Mid(v, n)])
  {
    var m := Mid(v, n);
    ChildKeys(v, n, true);
    SiblingsCompare(Extent(v, n), x, v[m]);
    LowerBoundFromAt(v, x, m);
    LowerBoundFromAtMost(v, x, n.l, m);
  }

  /** When the lower bound reaches the end of a node c that begins with n, n and c agree. */
  lemma PredInPrefixNode(v: seq<Str>, x: Str, n: Node, c: Node)
    requires InRange(v, n) && InRange(v, c) && c.l == n.l && c.r <= n.r
    requires LowerBoundFrom(v, x, n.l) <= c.r
    ensures PredIn(v, n, x) == PredIn(v, c, x)
  {
  }

  /** When the lower bound skips past the start of a node c that ends n, n defers to c. */
  lemma PredInSuffixNode(v: seq<Str>, x: Str, n: Node, c: Node)
    requires InRange(v, n) && InRange(v, c) && n.l < c.l && c.r == n.r
    requires LowerBoundFrom(v, x, n.l) == LowerBoundFrom(v, x, c.l)
    ensures PredIn(v, n, x) == if PredIn(v, c, x).Some? then PredIn(v, c, x) else Some(v[c.l - 1])
  {
  }

  /** When the lower bound passes the end of node c, its last key is the predecessor. */
  lemma PredInAllBelow(v: seq<Str>, x: Str, c: Node)
    requires InRange(v, c) && LowerBoundFrom(v, x, c.l) >= c.r
    ensures PredIn(v, c, x) == Some(v[c.r - 1])
  {
  }

  /** The keys below n are all less than x: the predecessor is its last key. */
  lemma PredFound(v: seq<Str>, n: Node, x: Str)
    requires Wf(v, n) && BranchesBelow(Extent(v, n), x)
    ensures PredIn(v, n, x) == Some(v[n.r - 1])
    ensures IsLeaf(n) ==> Extent(v, n) == v[n.l]
    ensures !IsLeaf(n) ==> PredIn(v, Right(v, n), x) == PredIn(v, n, x)
  {
    BranchesBelowExtends(Extent(v, n), v[n.r - 1], x);
    AllKeysBelow(v, n, x);
    PredInAllBelow(v, x, n);
    if !IsLeaf(n) {
      var m := Mid(v, n);
      BelowUpTo(v, x, n.l, n.r);
      LowerBoundFromSkip(v, x, n.l, m);
      PredInSuffixNode(v, x, n, Right(v, n));
    }
  }

  /** The keys below n are all at least x when its extent is: no predecessor. */
  lemma PredAbove(v: seq<Str>, n: Node, x: Str)
    requires Wf(v, n) && Le(x, Extent(v, n))
    ensures PredIn(v, n, x) == None
  {
    AboveExtends(x, Extent(v, n), v[n.l]);
    LowerBoundFromAt(v, x, n.l);
  }

  /** A leaf whose key is a proper prefix of x is the predecessor of x below it. */
  lemma PredLeafBelow(v: seq<Str>, n: Node, x: Str)
    requires Wf(v, n) && IsLeaf(n) && ProperPrefix(Extent(v, n), x)
    ensures PredIn(v, n, x) == Some(v[n.l]) && Extent(v, n) == v[n.l]
  {
    PrefixLe(v[n.l], x);
    AllKeysBelow(v, n, x);
  }

  /** When x continues the extent with a 0, the predecessor lies in the left child. */
  lemma PredGoesLeft(v: seq<Str>, n: Node, x: Str)
    requires Wf(v, n) && !IsLeaf(n) && IsPrefix(Extent(v, n) + [false], x)
    ensures PredIn(v, n, x) == PredIn(v, Left(v, n), x)
  {
    var m := Mid(v, n);
    ChildKeys(v, n, true);
    SiblingsCompare(Extent(v, n), x, v[m]);
    LowerBoundFromAtMost(v, x, n.l, m);
    PredInPrefixNode(v, x, n, Left(v, n));
  }

  /**
   * When x continues the extent with a 1, the predecessor is the one in the right child, or
   * else the last key of the left child.
   */
  lemma PredTriesRight(v: seq<Str>, n: Node, x: Str)
    requires Wf(v, n) && !IsLeaf(n) && IsPrefix(Extent(v, n) + [true], x)
    ensures PredIn(v, n, x) ==
      if PredIn(v, Right(v, n), x).Some? then PredIn(v, Right(v, n), x) else PredIn(v, Left(v, n), x)
    ensures PredIn(v, Left(v, n), x) == Some(v[Mid(v, n) - 1])
  {
    var L, R := Left(v, n), Right(v, n);
    var k := Mid(v, n) - 1;
    assert InRange(v, L) && InRange(v, R) && L.l == n.l && L.r == R.l == k + 1 && R.r == n.r;
    LeftKeysBelow(v, n, x);
    PredAcrossSplit(v, x, n, L, R, k);
  }

  /** Node n split into L and R with every key of L less than x: R's predecessor, else L's last key. */
  lemma PredAcrossSplit(v: seq<Str>, x: Str, n: Node, L: Node, R: Node, k: nat)
    requires InRange(v, n) && InRange(v, L) && InRange(v, R)
    requires L.l == n.l && L.r == R.l == k + 1 && R.r == n.r
    requires LowerBoundFrom(v, x, n.l) == LowerBoundFrom(v, x, R.l) >= R.l
    ensures PredIn(v, n, x) == if PredIn(v, R, x).Some? then PredIn(v, R, x) else PredIn(v, L, x)
    ensures PredIn(v, L, x) == Some(v[k])
  {
    PredInAllBelow(v, x, L);
    PredInSuffixNode(v, x, n, R);
  }

  /** When x continues the extent with a 1, every key of the left child is less than x. */
  lemma LeftKeysBelow(v: seq<Str>, n: Node, x: Str)
    requires Wf(v, n) && !IsLeaf(n) && IsPrefix(Extent(v, n) + [true], x)
    ensures var m := Mid(v, n);
      LowerBoundFrom(v, x, n.l) == LowerBoundFrom(v, x, m) && LowerBoundFrom(v, x, m) >= m
  {
    var m := Mid(v, n);
    MidNeighbours(v, n);
    SiblingsCompare(Extent(v, n), v[m - 1], x);
    BelowUpTo(v, x, n.l, m);
    LowerBoundFromSkip(v, x, n.l, m);
  }

  // ---------------------------------------------------------------------------------------
  // The successor query.

  /**
   * The state succ_query threads down the tree: once `found`, every string beginning with
   * `curr` is at least x; before, `curr` is a prefix of x.
   */
  predicate SuccState(x: Str, curr: Str, found: bool) {
    if found then Le(x, curr) else IsPrefix(curr, x)
  }

  /** The same state once a bit has been read: an unfound `curr` is then a proper prefix of x. */
  predicate SuccReady(x: Str, curr: Str, found: bool) {
    if found then Le(x, curr) else ProperPrefix(curr, x)
  }

  /**
   * `upd_curr_succ`: append bit c to curr. Before the answer is found it compares c with the
   * next bit of x, which panics when curr already has the length of x: a 0 against a 1 refuses
   * the bit, a 1 against a 0 finds the answer, and reaching the length of x finds it too.
   */
  method UpdCurrSucc(x: Str, curr: Str, found: bool, c: bool)
    returns (out: Outcome, ok: bool, curr': Str, found': bool)
    ensures out.Panic? <==> !found && |curr| >= |x|
    ensures out.Done? ==> (ok <==> found || c || !x[|curr|])
    ensures out.Done? && !ok ==> curr' == curr && found' == found
    ensures out.Done? && ok ==> curr' == curr + [c] && (found ==> found')
    ensures out.Done? && SuccState(x, curr, found) ==>
      if ok then SuccReady(x, curr', found') else BranchesBelow(curr + [c], x)
  {
    curr', found' := curr, found;
    if !found {
      if |curr| >= |x| {
        return Panic, false, curr', found';
      }
      if c != x[|curr|] {
        if !c {
          if SuccState(x, curr, found) {
            CommonPrefixLengthUnique(curr + [c], x, |curr|);
          }
          return Done, false, curr', found';
        }
        found' := true;
      }
    }
    curr' := curr' + [c];
    if |curr'| == |x| {
      found' := true;
    }
    out, ok := Done, true;
    if SuccState(x, curr, found) {
      if found {
        AboveExtends(x, curr, curr');
      } else if c != x[|curr|] {
        assert curr'[..|curr|] == x[..|curr|];
        CmpAtDifference(x, curr', |curr|);
      } else if |curr'| == |x| {
        assert curr' == x;
      } else {
        assert curr' == x[..|curr'|];
      }
    }
  }

  /** The `for c in &self.s` loop of succ_query: feed the node's label to UpdCurrSucc. */
  method ReadLabelSucc(s: Str, x: Str, curr0: Str, found0: bool)
    returns (out: Outcome, ok: bool, curr: Str, found: bool)
    requires SuccState(x, curr0, found0)
    ensures out.Panic? <==> |s| > 0 && !found0 && |curr0| == |x|
    ensures out.Done? && ok ==> curr == curr0 + s && (found0 ==> found) && SuccState(x, curr, found)
    ensures out.Done? && ok ==> if |s| == 0 then found == found0 else SuccReady(x, curr, found)
    ensures out.Done? && !ok ==> !found0 && found == found0 && BranchesBelow(curr0 + s, x)
  {
    curr, found := curr0, found0;
    out, ok := Done, true;
    for i := 0 to |s|
      invariant curr == curr0 + s[..i] && (found0 ==> found) && SuccState(x, curr, found)
      invariant if i == 0 then found == found0 else SuccReady(x, curr, found)
      invariant i > 0 ==> found0 || |curr0| < |x|
    {
      var o, b;
      o, b, curr, found := UpdCurrSucc(x, curr, found, s[i]);
      if o.Panic? {
        return Panic, false, curr, found;
      }
      if !b {
        assert curr + [s[i]] == curr0 + s[..i + 1];
        BranchesBelowExtends(curr0 + s[..i + 1], curr0 + s, x);
        return Done, false, curr, found;
      }
      assert curr == curr0 + s[..i + 1];
    }
    assert s[..|s|] == s;
  }

  /**
   * `TrieNode::succ_query` on the tree t of node n, entered with the bits curr of n's name. It
   * panics exactly when entered unfound with all of x read, and otherwise returns the
   * successor of x among n's keys; when it returns nothing, `found` was and stays unset.
   */
  method SuccFrom(t: TrieNode, ghost v: seq<Str>, ghost n: Node, x: Str, curr0: Str, found0: bool)
    returns (out: Outcome, res: Option<Str>, found: bool)
    requires Wf(v, n) && t == Tree(v, n) && curr0 == Name(v, n) && SuccState(x, curr0, found0)
    ensures out.Panic? <==> !found0 && |curr0| == |x|
    ensures out.Done? ==> res == SuccIn(v, n, x)
    ensures out.Done? && res.None? ==> !found0 && !found
    decreases n.r - n.l, 2
  {
    var ok, curr;
    out, ok, curr, found := ReadLabelSucc(t.s, x, curr0, found0);
    if out.Panic? {
      return Panic, None, found;
    }
    assert t.s == v[n.l][n.lind..Rind(v, n)];
    assert curr0 + t.s == Extent(v, n);
    if !ok {
      SuccBranchesBelow(v, n, x);
      return Done, None, found;
    }
    out, res, found := SuccBelow(t, v, n, x, curr, found);
  }

  /**
   * The rest of succ_query at node n once its label has been read into curr, the extent of n:
   * it descends into the children as the state and the next bit of x direct.
   */
  method SuccBelow(t: TrieNode, ghost v: seq<Str>, ghost n: Node, x: Str, curr0: Str, found0: bool)
    returns (out: Outcome, res: Option<Str>, found: bool)
    requires Wf(v, n) && t == Tree(v, n) && curr0 == Extent(v, n) && SuccState(x, curr0, found0)
    ensures out.Panic? <==> !found0 && |curr0| >= |x|
    ensures out.Done? ==> res == SuccIn(v, n, x)
    ensures out.Done? && res.None? ==> !found0 && !found
    decreases n.r - n.l, 1
  {
    if found0 {
      out, res, found := SuccLeftmost(t, v, n, x, curr0);
    } else if |curr0| >= |x| {
      return Panic, None, found0;
    } else if x[|curr0|] {
      out, res, found := SuccOneBit(t, v, n, x, curr0);
    } else {
      out, res, found := SuccZeroBit(t, v, n, x, curr0);
    }
  }

  /** Once found, the successor is the first key below n: the walk keeps to the left children. */
  method SuccLeftmost(t: TrieNode, ghost v: seq<Str>, ghost n: Node, x: Str, curr: Str)
    returns (out: Outcome, res: Option<Str>, found: bool)
    requires Wf(v, n) && t == Tree(v, n) && curr == Extent(v, n) && Le(x, curr)
    ensures out.Done? && res == SuccIn(v, n, x) && res.Some?
    decreases n.r - n.l, 0
  {
    assert !(t.left.Some? && t.right.None?) && !(t.left.None? && t.right.Some?);
    SuccFound(v, n, x);
    if t.left.Some? {
      var o, b, curr1;
      o, b, curr1, found := UpdCurrSucc(x, curr, true, false);
      assert o.Done? && b;
      ChildWf(v, n, false);
      out, res, found := SuccFrom(t.left.value, v, Left(v, n), x, curr1, found);
    } else {
      out, res, found := Done, Some(curr), true;
    }
  }

  /** Before anything is found, with a 1 next in x: only the right child can hold the successor. */
  method SuccOneBit(t: TrieNode, ghost v: seq<Str>, ghost n: Node, x: Str, curr: Str)
    returns (out: Outcome, res: Option<Str>, found: bool)
    requires Wf(v, n) && t == Tree(v, n) && curr == Extent(v, n) && ProperPrefix(curr, x) && x[|curr|]
    ensures out.Done? && res == SuccIn(v, n, x)
    ensures res.None? ==> !found
    decreases n.r - n.l, 0
  {
    assert !(t.left.Some? && t.right.None?) && !(t.left.None? && t.right.Some?);
    if t.right.Some? {
      var o, b, curr1;
      o, b, curr1, found := UpdCurrSucc(x, curr, false, true);
      assert o.Done? && b;
      ChildWf(v, n, true);
      SuccGoesRight(v, n, x);
      out, res, found := SuccFrom(t.right.value, v, Right(v, n), x, curr1, found);
    } else {
      SuccLeafBelow(v, n, x);
      out, res, found := Done, None, false;
    }
  }

  /**
   * Before anything is found, with a 0 next in x: the successor is the one in the left child,
   * or else the first key of the right child.
   */
  method SuccZeroBit(t: TrieNode, ghost v: seq<Str>, ghost n: Node, x: Str, curr: Str)
    returns (out: Outcome, res: Option<Str>, found: bool)
    requires Wf(v, n) && t == Tree(v, n) && curr == Extent(v, n) && ProperPrefix(curr, x) && !x[|curr|]
    ensures out.Done? && res == SuccIn(v, n, x)
    ensures res.None? ==> !found
    decreases n.r - n.l, 0
  {
    assert !(t.left.Some? && t.right.None?) && !(t.left.None? && t.right.Some?);
    if t.left.Some? {
      var o, b, tmp;
      o, b, tmp, found := UpdCurrSucc(x, curr, false, false);
      assert o.Done? && b;
      ChildWf(v, n, false);
      ChildWf(v, n, true);
      SuccTriesLeft(v, n, x);
      out, res, found := SuccFrom(t.left.value, v, Left(v, n), x, tmp, found);
      if res.Some? {
        return;
      }
      var curr1;
      o, b, curr1, found := UpdCurrSucc(x, curr, found, true);
      assert o.Done? && b;
      out, res, found := SuccFrom(t.right.value, v, Right(v, n), x, curr1, found);
    } else {
      SuccLeafBelow(v, n, x);
      out, res, found := Done, None, false;
    }
  }

  // ---------------------------------------------------------------------------------------
  // The predecessor query.

  /**
   * The state pred_query threads down the tree: once `found`, every string beginning with
   * `curr` is less than x; before, `curr` is a prefix of x.
   */
  predicate PredState(x: Str, curr: Str, found: bool) {
    if found then BranchesBelow(curr, x) else IsPrefix(curr, x)
  }

  /**
   * `upd_curr_pred`: append bit c to curr. Before the answer is found, a curr as long as x or a
   * 1 against a 0 of x refuses the bit, and a 0 against a 1 finds the answer.
   */
  method UpdCurrPred(x: Str, curr: Str, found: bool, c: bool) returns (ok: bool, curr': Str, found': bool)
    requires PredState(x, curr, found)
    ensures ok <==> found || (|curr| < |x| && (c == x[|curr|] || !c))
    ensures !ok ==> curr' == curr && found' == found
    ensures ok ==> curr' == curr + [c] && found' == (found || c != x[|curr|])
    ensures if ok then PredState(x, curr', found') else Le(x, curr + [c])
  {
    curr', found' := curr, found;
    if !found {
      if |curr| == |x| {
        assert curr == x && IsPrefix(x, curr + [c]);
        PrefixLe(x, curr + [c]);
        return false, curr', found';
      } else if c != x[|curr|] {
        if c {
          assert (curr + [c])[..|curr|] == x[..|curr|];
          CmpAtDifference(x, curr + [c], |curr|);
          return false, curr', found';
        } else {
          found' := true;
          CommonPrefixLengthUnique(curr + [c], x, |curr|);
        }
      } else {
        assert curr + [c] == x[..|curr| + 1];
      }
    } else {
      BranchesBelowExtends(curr, curr + [c], x);
    }
    curr' := curr' + [c];
    ok := true;
  }

  /** The `for c in &self.s` loop of pred_query: feed the node's label to UpdCurrPred. */
  method ReadLabelPred(s: Str, x: Str, curr0: Str, found0: bool) returns (ok: bool, curr: Str, found: bool)
    requires PredState(x, curr0, found0)
    ensures ok ==> curr == curr0 + s && (found0 ==> found) && PredState(x, curr, found)
    ensures ok && |s| == 0 ==> found == found0
    ensures !ok ==> !found0 && found == found0 && Le(x, curr0 + s)
  {
    curr, found := curr0, found0;
    ok := true;
    for i := 0 to |s|
      invariant curr == curr0 + s[..i] && (found0 ==> found) && PredState(x, curr, found)
      invariant i == 0 ==> found == found0
    {
      var b;
      b, curr, found := UpdCurrPred(x, curr, found, s[i]);
      if !b {
        assert curr + [s[i]] == curr0 + s[..i + 1];
        AboveExtends(x, curr0 + s[..i + 1], curr0 + s);
        return false, curr, found;
      }
      assert curr == curr0 + s[..i + 1];
    }
    assert s[..|s|] == s;
  }

  /**
   * `TrieNode::pred_query` on the tree t of node n, entered with the bits curr of n's name: the
   * predecessor of x among n's keys; when it returns nothing, it has not set `found`.
   */
  method PredFrom(t: TrieNode, ghost v: seq<Str>, ghost n: Node, x: Str, curr0: Str, found0: bool)
    returns (res: Option<Str>, found: bool)
    requires Wf(v, n) && t == Tree(v, n) && curr0 == Name(v, n) && PredState(x, curr0, found0)
    ensures res == PredIn(v, n, x)
    ensures res.None? ==> found == found0
    decreases n.r - n.l
  {
    assert !(t.left.Some? && t.right.None?) && !(t.left.None? && t.right.Some?);
    var ok, curr;
    ok, curr, found := ReadLabelPred(t.s, x, curr0, found0);
    assert t.s == v[n.l][n.lind..Rind(v, n)];
    assert curr0 + t.s == Extent(v, n);
    if !ok {
      PredAbove(v, n, x);
      return None, found;
    }
    var b;
    if found {
      PredFound(v, n, x);
      if t.right.Some? {
        b, curr, found := UpdCurrPred(x, curr, found, true);
        assert b;
        ChildWf(v, n, true);
        res, found := PredFrom(t.right.value, v, Right(v, n), x, curr, found);
        assert res.Some?;
      } else {
        res := Some(curr);
      }
    } else {
      if |x| == |curr| {
        assert x == curr;
        PredAbove(v, n, x);
        res := None;
      } else if !x[|curr|] {
        if t.left.Some? {
          b, curr, found := UpdCurrPred(x, curr, found, false);
          assert b;
          ChildWf(v, n, false);
          PredGoesLeft(v, n, x);
          res, found := PredFrom(t.left.value, v, Left(v, n), x, curr, found);
        } else {
          PredLeafBelow(v, n, x);
          res := Some(curr);
        }
      } else {
        if t.right.Some? {
          var tmp := curr;
          b, tmp, found := UpdCurrPred(x, tmp, found, true);
          assert b;
          ChildWf(v, n, false);
          ChildWf(v, n, true);
          PredTriesRight(v, n, x);
          res, found := PredFrom(t.right.value, v, Right(v, n), x, tmp, found);
          if res.Some? {
            return;
          }
          assert t.left.Some?;
          b, curr, found := UpdCurrPred(x, curr, found, false);
          assert b;
          res, found := PredFrom(t.left.value, v, Left(v, n), x, curr, found);
          assert res.Some?;
        } else {
          PredLeafBelow(v, n, x);
          res := Some(curr);
        }
      }
    }
  }

  // ---------------------------------------------------------------------------------------
  // The shape of the built tree.

  /** Every node of the tree has zero or two children, as the queries assert on entry. */
  lemma {:induction false} TreeZeroOrTwo(v: seq<Str>, n: Node)
    requires InRange(v, n)
    ensures ZeroOrTwo(Tree(v, n))
    decreases n.r - n.l
  {
    if !IsLeaf(n) {
      TreeZeroOrTwo(v, Left(v, n));
      TreeZeroOrTwo(v, Right(v, n));
    }
  }

  /** Below bit `d` a key splits into the bits before it, the bit itself, and the rest. */
  lemma SplitAtBit(w: Str, e: Str, lind: nat, d: nat, b: bool, rest: Str)
    requires lind <= d < |w| && w[lind..d] == e && w[d] == b && rest == w[d + 1..]
    ensures w[lind..] == e + [b] + rest
  {
  }

  /** The suffixes after position lind of the keys v[l..r). */
  function Suffixes(v: seq<Str>, l: nat, r: nat, lind: nat): (ws: seq<Str>)
    requires l <= r <= |v| && forall k :: l <= k < r ==> lind <= |v[k]|
    ensures |ws| == r - l
  {
    seq(r - l, i requires 0 <= i < r - l => v[l + i][lind..])
  }

  /**
   * Joining the spellings of two children: keys that share the bits e after the name, then
   * branch at bit d, are spelled by e, their branch bit and their child's spelling.
   */
  lemma SpellJoin(v: seq<Str>, l: nat, m: nat, r: nat, lind: nat, d: nat, e: Str)
    requires l < m < r <= |v| && lind <= d
    requires forall i :: l <= i < r ==> d < |v[i]| && v[i][lind..d] == e
    requires forall i :: l <= i < m ==> !v[i][d]
    requires forall i :: m <= i < r ==> v[i][d]
    ensures Prepend(e + [false], Suffixes(v, l, m, d + 1)) + Prepend(e + [true], Suffixes(v, m, r, d + 1))
      == Suffixes(v, l, r, lind)
  {
    var sl, sr := Suffixes(v, l, m, d + 1), Suffixes(v, m, r, d + 1);
    var sp := Prepend(e + [false], sl) + Prepend(e + [true], sr);
    forall i | l <= i < r
      ensures sp[i - l] == v[i][lind..]
    {
      if i < m {
        SplitAtBit(v[i], e, lind, d, false, sl[i - l]);
      } else {
        SplitAtBit(v[i], e, lind, d, true, sr[i - m]);
      }
    }
  }

  /** Every key of a well-formed node is at least as long as the node's name. */
  lemma KeysOutgrowName(v: seq<Str>, n: Node)
    requires Wf(v, n)
    ensures forall k :: n.l <= k < n.r ==> n.lind <= |v[k]|
  {
    assert forall i :: n.l <= i < n.r ==> IsPrefix(Extent(v, n), v[i]);
  }

  /** A leaf spells its key after its name. */
  lemma LeafSpells(v: seq<Str>, n: Node)
    requires Wf(v, n) && IsLeaf(n)
    ensures Spelled(Tree(v, n)) == Suffixes(v, n.l, n.r, n.lind)
  {
    assert Min(n.lind, Rind(v, n)) == n.lind && Rind(v, n) == |v[n.l]|;
    assert Tree(v, n).s == v[n.l][n.lind..];
    assert Suffixes(v, n.l, n.r, n.lind)[0] == v[n.l][n.lind..];
  }

  /** An internal node spells what its children spell, after its label and their branch bits. */
  lemma InternalSpells(v: seq<Str>, n: Node)
    requires Wf(v, n) && !IsLeaf(n)
    requires Wf(v, Left(v, n)) && Wf(v, Right(v, n))
    requires Spelled(Tree(v, Left(v, n))) == Suffixes(v, n.l, Mid(v, n), Rind(v, n) + 1)
    requires Spelled(Tree(v, Right(v, n))) == Suffixes(v, Mid(v, n), n.r, Rind(v, n) + 1)
    ensures Spelled(Tree(v, n)) == Suffixes(v, n.l, n.r, n.lind)
  {
    var d := Rind(v, n);
    MidSplits(v, n);
    var e := v[n.l][n.lind..d];
    InternalSpelled(v, n);
    LabelShared(v, n);
    SpellJoin(v, n.l, Mid(v, n), n.r, n.lind, d, e);
  }

  /** The tree of an internal node spells its label and a branch bit before each child's spelling. */
  lemma InternalSpelled(v: seq<Str>, n: Node)
    requires Wf(v, n) && !IsLeaf(n)
    ensures var e := v[n.l][n.lind..Rind(v, n)];
      Spelled(Tree(v, n))
      == Prepend(e + [false], Spelled(Tree(v, Left(v, n)))) + Prepend(e + [true], Spelled(Tree(v, Right(v, n))))
  {
  }

  /** Every key below an internal node carries the node's label and a bit after it. */
  lemma LabelShared(v: seq<Str>, n: Node)
    requires Wf(v, n) && !IsLeaf(n)
    ensures var d := Rind(v, n);
      forall i :: n.l <= i < n.r ==> d < |v[i]| && v[i][n.lind..d] == v[n.l][n.lind..d]
  {
    var d := Rind(v, n);
    MidSplits(v, n);
    forall i | n.l <= i < n.r
      ensures d < |v[i]| && v[i][n.lind..d] == v[n.l][n.lind..d]
    {
      assert IsPrefix(Extent(v, n), v[i]);
      assert v[i][..d] == v[n.l][..d];
    }
  }

  /** The tree of a node spells, left to right, the suffixes of its keys after its name. */
  lemma {:induction false} TreeSpells(v: seq<Str>, n: Node)
    requires Wf(v, n)
    ensures forall k :: n.l <= k < n.r ==> n.lind <= |v[k]|
    ensures Spelled(Tree(v, n)) == Suffixes(v, n.l, n.r, n.lind)
    decreases n.r - n.l
  {
    KeysOutgrowName(v, n);
    if IsLeaf(n) {
      LeafSpells(v, n);
    } else {
      ChildWf(v, n, false);
      ChildWf(v, n, true);
      TreeSpells(v, Left(v, n));
      TreeSpells(v, Right(v, n));
      InternalSpells(v, n);
    }
  }

  /** The tree of the whole key set spells exactly the keys, in order. */
  lemma TreeSpellsKeys(v: seq<Str>)
    requires Keys(v)
    ensures Spelled(Tree(v, Root(v))) == v
  {
    RootWf(v);
    TreeSpells(v, Root(v));
  }

  // ---------------------------------------------------------------------------------------
  // The trie.

  /**
   * `CompactTrie`: the root of the tree built from the sorted keys, or nothing before `build`.
   * The sorted keys are kept as a ghost to state what the tree holds.
   */
  class CompactTrie {
    var root: Option<TrieNode>
    ghost var keys: seq<Str>

    ghost predicate Valid()
      reads this
    {
      || (root.None? && keys == [])
      || (Keys(keys) && root == Some(Tree(keys, Root(keys))))
    }

    constructor ()
      ensures Valid() && root.None? && keys == []
    {
      root := None;
      keys := [];
    }

    /**
     * `build`: sort a copy of the input and build the tree from it. The build panics exactly
     * when the sorted input is empty or not prefix-free.
     */
    method Build(input: seq<Str>) returns (out: Outcome)
      modifies this
      ensures Sorted(keys) && multiset(keys) == multiset(input)
      ensures out.Done? <==> Keys(keys)
      ensures out.Done? ==> Valid()
      ensures out.Panic? ==> root == old(root)
    {
      var x := SortByCmp(input);
      assert |x| == |multiset(x)| == |multiset(input)| == |input|;
      keys := x;
      var t;
      out, t := New(x, 0, 0, |input|);
      if out.Done? {
        root := t;
      }
    }

    /** `succ_query` as written: it starts unfound, so an empty x makes it read a missing bit. */
    method SuccQueryAsWritten(x: Str) returns (out: Outcome, r: Option<Str>)
      requires Valid()
      ensures out.Panic? <==> |keys| > 0 && |x| == 0
      ensures out.Done? ==> r == SuccOf(keys, x)
    {
      if root.Some? {
        RootWf(keys);
        var found;
        out, r, found := SuccFrom(root.value, keys, Root(keys), x, [], false);
        SuccInRoot(keys, x);
      } else {
        out, r := Done, None;
      }
    }

    /** `succ_query`, starting found when x is empty: the least key not less than x. */
    method SuccQuery(x: Str) returns (r: Option<Str>)
      requires Valid()
      ensures r == SuccOf(keys, x)
    {
      if root.Some? {
        RootWf(keys);
        var out, found;
        out, r, found := SuccFrom(root.value, keys, Root(keys), x, [], |x| == 0);
        SuccInRoot(keys, x);
      } else {
        r := None;
      }
    }

    /** `pred_query`: the greatest key less than x. */
    method PredQuery(x: Str) returns (r: Option<Str>)
      requires Valid()
      ensures r == PredOf(keys, x)
    {
      if root.Some? {
        RootWf(keys);
        var found;
        r, found := PredFrom(root.value, keys, Root(keys), x, [], false);
        PredInRoot(keys, x);
      } else {
        r := None;
      }
    }

    /** `ex_pref_query`: the successor of x begins with x. */
    method ExPrefQuery(x: Str) returns (b: bool)
      requires Valid()
      ensures b == ExPrefOf(keys, x)
    {
      var s := SuccQuery(x);
      if s.Some? {
        var i := s.value;
        b := i[..Min(|i|, |x|)] == x;
      } else {
        b := false;
      }
    }

    /** `ex_range_query`: the successor of x is less than y. */
    method ExRangeQuery(x: Str, y: Str) returns (b: bool)
      requires Valid()
      ensures b == ExRangeOf(keys, x, y)
    {
      var s := SuccQuery(x);
      if s.Some? {
        b := Lt(s.value, y);
      } else {
        b := false;
      }
    }
  }

  /** At the root, the successor among the node's keys is the successor among all keys. */
  lemma SuccInRoot(v: seq<Str>, x: Str)
    requires |v| > 0
    ensures SuccIn(v, Root(v), x) == SuccOf(v, x)
  {
  }

  /** At the root, the predecessor among the node's keys is the predecessor among all keys. */
  lemma PredInRoot(v: seq<Str>, x: Str)
    requires |v| > 0
    ensures PredIn(v, Root(v), x) == PredOf(v, x)
  {
  }

  /** For the empty x that makes succ_query panic, the successor is the first key. */
  lemma EmptySuccIsFirst(v: seq<Str>)
    requires |v| > 0
    ensures SuccOf(v, []) == Some(v[0])
  {
    LowerBoundFromAt(v, [], 0);
  }
}
