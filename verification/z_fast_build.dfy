/**
 * Building the z-fast trie (z_fast_trie.rs `build_tree`, 61-124): the nodes of the trie of the
 * sorted keys are appended to the arena in post-order, each leaf is threaded to the previous
 * one through `last_leaf_ref`, and each internal node reads its extent from the last leaf of its
 * left subtree, which links back to it.
 */
module ZFastBuild {
  import opened Wrappers
  import opened Strings
  import opened SortedStrings
  import opened BitwiseOperations
  import opened TrieStructure
  import opened TrieHandles
  import opened ZFastNodes

  // ---------------------------------------------------------------------------------------
  // What the builder leaves in the arena.

  /** Link p leads to an internal node that reads its extent from leaf j. */
  ghost predicate BacksUp(nodes: seq<TrieNode>, shape: seq<Node>, p: Option<nat>, j: nat) {
    && p.Some? && p.value < |nodes| && p.value < |shape|
    && !IsLeaf(shape[p.value]) && nodes[p.value].toLeaf == Some(j)
  }

  /**
   * The links build_tree sets on index j when building the keys v[l..r) after the leaf
   * `before`: a leaf points back to the previous leaf (`before` for the first) and forward to
   * the next one, and the leaf an internal node reads its extent from points back to that node;
   * the last leaf's forward links are left for later. Internal nodes get no jump links yet.
   */
  ghost predicate Threaded(nodes: seq<TrieNode>, shape: seq<Node>, j: nat, l: nat, r: nat, before: Option<nat>)
    requires |nodes| == |shape| && j < |nodes|
  {
    var m, nd := shape[j], nodes[j];
    if IsLeaf(m) then
      && (if m.l == l then nd.jumpLeft == before else LeafEndsAt(shape, nd.jumpLeft, m.l))
      && (if m.r == r then nd.jumpRight.None? && nd.toInternal.None?
          else LeafStartsAt(shape, nd.jumpRight, m.r) && BacksUp(nodes, shape, nd.toInternal, j))
    else
      nd.jumpLeft.None? && nd.jumpRight.None? && nd.toInternal.None?
  }

  /**
   * The indices from lo on hold the nodes below n, each once, threaded after `before`, and the
   * last of them is n itself.
   */
  ghost predicate Subtree(v: seq<Str>, nodes: seq<TrieNode>, shape: seq<Node>, lo: nat, n: Node, before: Option<nat>)
  {
    && |nodes| == |shape| && lo < |nodes|
    && shape[|nodes| - 1] == n
    && (forall j {:trigger NodeOk(v, nodes, shape, j)} :: lo <= j < |nodes| ==> NodeOk(v, nodes, shape, j))
    && (forall j {:trigger Below(v, n, shape[j])} :: lo <= j < |nodes| ==> Below(v, n, shape[j]))
    && (forall j {:trigger Threaded(nodes, shape, j, n.l, n.r, before)} :: lo <= j < |nodes| ==> Threaded(nodes, shape, j, n.l, n.r, before))
    && (forall i, j :: lo <= i < j < |nodes| ==> shape[i] != shape[j])
  }

  /** The arena after building, before the new indices: only `before` got a forward link. */
  ghost predicate Patched(nodes: seq<TrieNode>, nodes': seq<TrieNode>, before: Option<nat>, first: nat) {
    && |nodes| <= |nodes'|
    && forall j :: 0 <= j < |nodes| ==>
         nodes'[j] == if before == Some(j) then nodes[j].(jumpRight := Some(first)) else nodes[j]
  }

  /** Every key that begins with the first ind bits of v[l] lies in v[l..r). */
  ghost predicate Claims(v: seq<Str>, l: nat, r: nat, ind: nat) {
    l < r ==>
      && l < |v| && ind <= |v[l]|
      && forall k :: 0 <= k < |v| && IsPrefix(v[l][..ind], v[k]) ==> l <= k < r
  }

  /** Two records that differ at most in their jump and back links. */
  predicate SameRecord(a: TrieNode, b: TrieNode) {
    a.left == b.left && a.right == b.right && a.lind == b.lind && a.toLeaf == b.toLeaf
    && a.extent == b.extent
  }

  // ---------------------------------------------------------------------------------------
  // Structural facts the builder relies on.

  /** A range of keys sharing ind bits, and claiming them, is a well-formed node with label start ind. */
  lemma RangeWf(v: seq<Str>, l: nat, r: nat, ind: nat)
    requires Sorted(v) && l < r <= |v| && SharePrefix(v, l, r, ind)
    requires RangePrefixFree(v, l, r) && Claims(v, l, r, ind)
    ensures Wf(v, Node(l, r, ind))
  {
    var n := Node(l, r, ind);
    RangeAllExtend(v, n);
    if !IsLeaf(n) {
      CommonPrefixAtLeast(v[l], v[r - 1], ind);
    }
  }

  /** The keys with bit ind equal to b of a claimed range are claimed by their part. */
  lemma ClaimsPart(v: seq<Str>, l: nat, r: nat, ind: nat, l': nat, r': nat, b: bool)
    requires l <= l' < r' <= r <= |v| && SharePrefix(v, l, r, ind) && Claims(v, l, r, ind)
    requires forall k :: l <= k < r ==> ind < |v[k]| && (v[k][ind] == b <==> l' <= k < r')
    ensures Claims(v, l', r', ind + 1)
  {
    forall k | 0 <= k < |v| && IsPrefix(v[l'][..ind + 1], v[k])
      ensures l' <= k < r'
    {
      assert v[l'][..ind] == v[l][..ind];
      assert IsPrefix(v[l][..ind], v[k]);
      assert v[k][ind] == v[l'][ind];
    }
  }

  /** Below a node, distinct leaves end at distinct positions. */
  lemma {:induction false} LeafUnique(v: seq<Str>, p: Node, a: Node, b: Node)
    requires Below(v, p, a) && Below(v, p, b) && IsLeaf(a) && IsLeaf(b) && a.r == b.r
    ensures a == b
    decreases p.r - p.l
  {
    if a != p && b != p {
      ChildWf(v, p, false);
      ChildWf(v, p, true);
      var ca := Below(v, Right(v, p), a);
      var cb := Below(v, Right(v, p), b);
      BelowWf(v, Child(v, p, ca), a);
      BelowWf(v, Child(v, p, cb), b);
      if ca == cb {
        LeafUnique(v, Child(v, p, ca), a, b);
      }
    }
  }

  /** A node strictly below p has fewer keys than p. */
  lemma BelowSmaller(v: seq<Str>, p: Node, n: Node)
    requires Below(v, p, n) && n != p
    ensures n.r - n.l < p.r - p.l
  {
    ChildWf(v, p, false);
    ChildWf(v, p, true);
    if Below(v, Left(v, p), n) {
      BelowWf(v, Left(v, p), n);
    } else {
      BelowWf(v, Right(v, p), n);
    }
  }

  /**
   * Starting the label of a node earlier keeps what lies strictly below it: the children do not
   * depend on where the label starts.
   */
  lemma CollapseBelow(v: seq<Str>, l: nat, r: nat, ind: nat, ind1: nat, n: Node)
    requires ind1 == ind + 1 && Wf(v, Node(l, r, ind))
    requires Below(v, Node(l, r, ind1), n) && n != Node(l, r, ind1)
    ensures Below(v, Node(l, r, ind), n)
  {
    var p, q := Node(l, r, ind), Node(l, r, ind1);
    assert Rind(v, p) == Rind(v, q);
    assert Left(v, q) == Left(v, p) && Right(v, q) == Right(v, p);
  }

  /** A record keeps standing for its node when nothing it reads changes. */
  lemma NodeOkFrame(v: seq<Str>, a: seq<TrieNode>, sa: seq<Node>, b: seq<TrieNode>, sb: seq<Node>, j: nat)
    requires |a| == |sa| && |b| == |sb| && j < |a| && j < |b|
    requires NodeOk(v, a, sa, j) && SameRecord(a[j], b[j])
    requires forall k :: 0 <= k <= j ==> sb[k] == sa[k]
    ensures NodeOk(v, b, sb, j)
  {
  }

  // ---------------------------------------------------------------------------------------
  // build_tree.

  /**
   * What build_tree leaves after building the non-empty range v[l..r) into `nodes` after the
   * leaf `before`: the new indices hold the subtree of Node(l, r, ind), the last of them its
   * root `res`; the earlier indices are unchanged except that `before` links forward to the
   * first new leaf; and the last new leaf `pr` is the new last leaf.
   */
  ghost predicate Built(v: seq<Str>, l: nat, r: nat, ind: nat, nodes: seq<TrieNode>, before: Option<nat>,
                        shape: seq<Node>, nodes': seq<TrieNode>, last: Option<nat>, res: Option<nat>,
                        pr: Option<nat>, shape': seq<Node>, first: nat)
  {
    && Subtree(v, nodes', shape', |nodes|, Node(l, r, ind), before)
    && res == Some(|nodes'| - 1)
    && shape <= shape' && Patched(nodes, nodes', before, first)
    && |nodes| <= first && LeafStartsAt(shape', Some(first), l)
    && last == pr && pr.Some? && |nodes| <= pr.value && LeafEndsAt(shape', pr, r)
  }

  /**
   * `build_tree(v, ind, l, r, last_leaf_ref)`: append the nodes of the keys v[l..r), which
   * share their first ind bits, to the arena, threading the leaves after `lastLeaf`. Like the
   * source it panics, through the assertion that reads v[l], exactly when the range lies past
   * the end of v or is not prefix-free; an empty range adds nothing.
   */
  method BuildTree(v: seq<Str>, ind: nat, l: nat, r: nat, nodes: seq<TrieNode>, lastLeaf: Option<nat>,
                   ghost shape: seq<Node>)
    returns (out: Outcome, nodes': seq<TrieNode>, lastLeaf': Option<nat>, res: Option<nat>, pr: Option<nat>,
             ghost shape': seq<Node>, ghost first: nat)
    requires Sorted(v) && l <= r <= |v| && SharePrefix(v, l, r, ind) && Claims(v, l, r, ind)
    requires |nodes| == |shape| && (lastLeaf.Some? ==> lastLeaf.value < |nodes|)
    ensures out.Done? <==> l < |v| && RangePrefixFree(v, l, r)
    ensures out.Done? && l == r ==>
      nodes' == nodes && shape' == shape && lastLeaf' == lastLeaf && res.None? && pr.None?
    ensures out.Done? && l < r ==> Built(v, l, r, ind, nodes, lastLeaf, shape, nodes', lastLeaf', res, pr, shape', first)
    decreases r - l, if l < r then |v[l]| - ind else 0, 1
  {
    nodes', lastLeaf', res, pr, shape', first := nodes, lastLeaf, None, None, shape, 0;
    if l >= |v| {
      return Panic, nodes', lastLeaf', res, pr, shape', first;
    }
    if !(ind < |v[l]| || l + 1 >= r) {
      assert v[l] == v[l + 1][..ind];
      return Panic, nodes', lastLeaf', res, pr, shape', first;
    }
    if l == r {
      return Done, nodes', lastLeaf', res, pr, shape', first;
    }
    if l + 1 == r {
      var i := |nodes|;
      var leaf := TrieNode(None, None, ind, lastLeaf, None, None, None, Some(v[l]));
      nodes' := nodes + [leaf];
      if lastLeaf.Some? {
        var x := lastLeaf.value;
        nodes' := nodes'[x := nodes'[x].(jumpRight := Some(i))];
      }
      shape' := shape + [Node(l, r, ind)];
      LeafCase(v, l, r, ind, nodes, lastLeaf, shape, nodes', shape');
      return Done, nodes', Some(i), Some(i), Some(i), shape', i;
    }
    SharedPrefixLonger(v, l, r, ind);
    var mid := l;
    while mid < r && !v[mid][ind]
      invariant l <= mid <= r
      invariant forall k :: l <= k < mid ==> !v[k][ind]
    {
      mid := mid + 1;
    }
    forall k | mid <= k < r
      ensures v[k][ind]
    {
      if k > mid {
        BitStaysSet(v, l, r, ind, mid, k);
      }
    }
    if mid != l && mid != r {
      out, nodes', lastLeaf', res, pr, shape', first := BuildSplit(v, ind, l, mid, r, nodes, lastLeaf, shape);
    } else {
      out, nodes', lastLeaf', res, pr, shape', first := BuildCollapse(v, ind, l, r, v[l][ind], nodes, lastLeaf, shape);
    }
  }

  /** The split case of build_tree: the keys of v[l..r) differ at bit ind, v[mid] the first with it set. */
  method BuildSplit(v: seq<Str>, ind: nat, l: nat, mid: nat, r: nat, nodes: seq<TrieNode>, lastLeaf: Option<nat>,
                    ghost shape: seq<Node>)
    returns (out: Outcome, nodes': seq<TrieNode>, lastLeaf': Option<nat>, res: Option<nat>, pr: Option<nat>,
             ghost shape': seq<Node>, ghost first: nat)
    requires Sorted(v) && l < mid < r <= |v| && SharePrefix(v, l, r, ind) && Claims(v, l, r, ind)
    requires forall k :: l <= k < r ==> ind < |v[k]| && (v[k][ind] <==> mid <= k)
    requires |nodes| == |shape| && (lastLeaf.Some? ==> lastLeaf.value < |nodes|)
    ensures out.Done? <==> RangePrefixFree(v, l, r)
    ensures out.Done? ==> Built(v, l, r, ind, nodes, lastLeaf, shape, nodes', lastLeaf', res, pr, shape', first)
    decreases r - l, |v[l]| - ind, 0
  {
    PrefixFreeJoin(v, l, mid, r, ind);
    ShareOneMore(v, l, mid, ind, false);
    ShareOneMore(v, mid, r, ind, true);
    ClaimsPart(v, l, r, ind, l, mid, false);
    ClaimsPart(v, l, r, ind, mid, r, true);
    var ind1 := ind + 1;
    var o1, n1, ll1, lres, pl, s1, f1 := BuildTree(v, ind1, l, mid, nodes, lastLeaf, shape);
    if o1.Panic? {
      return Panic, n1, ll1, None, None, s1, f1;
    }
    var o2, n2, ll2, rres, pr2, s2, f2 := BuildTree(v, ind1, mid, r, n1, ll1, s1);
    if o2.Panic? {
      return Panic, n2, ll2, None, None, s2, f2;
    }
    var t := |n2|;
    var n3 := n2 + [TrieNode(lres, rres, ind, None, None, pl, None, None)];
    var p := pl.value;
    n3 := n3[p := n3[p].(toInternal := Some(t))];
    var s3 := s2 + [Node(l, r, ind)];
    SplitAt(v, l, mid, r, ind);
    RangeWf(v, l, r, ind);
    SplitCase(v, l, mid, r, ind, ind1, nodes, shape, lastLeaf, n1, s1, f1, lres, pl, n2, s2, f2, rres, pr2, n3, s3);
    return Done, n3, ll2, Some(t), pr2, s3, f1;
  }

  /** The collapse case of build_tree: all keys of v[l..r) have bit ind equal to b. */
  method BuildCollapse(v: seq<Str>, ind: nat, l: nat, r: nat, b: bool, nodes: seq<TrieNode>, lastLeaf: Option<nat>,
                       ghost shape: seq<Node>)
    returns (out: Outcome, nodes': seq<TrieNode>, lastLeaf': Option<nat>, res: Option<nat>, pr: Option<nat>,
             ghost shape': seq<Node>, ghost first: nat)
    requires Sorted(v) && l + 1 < r <= |v| && SharePrefix(v, l, r, ind) && Claims(v, l, r, ind)
    requires forall k :: l <= k < r ==> ind < |v[k]| && v[k][ind] == b
    requires |nodes| == |shape| && (lastLeaf.Some? ==> lastLeaf.value < |nodes|)
    ensures out.Done? <==> RangePrefixFree(v, l, r)
    ensures out.Done? ==> Built(v, l, r, ind, nodes, lastLeaf, shape, nodes', lastLeaf', res, pr, shape', first)
    decreases r - l, |v[l]| - ind, 0
  {
    ShareOneMore(v, l, r, ind, b);
    ClaimsPart(v, l, r, ind, l, r, b);
    var ind1 := ind + 1;
    var o, n1, ll1, x, y, s1, f1 := BuildTree(v, ind1, l, r, nodes, lastLeaf, shape);
    if o.Panic? {
      return Panic, n1, ll1, None, None, s1, f1;
    }
    var t := x.value;
    var n2 := n1[t := n1[t].(lind := ind)];
    var s2 := s1[t := Node(l, r, ind)];
    RangeWf(v, l, r, ind);
    CollapseCase(v, l, r, ind, ind1, nodes, shape, lastLeaf, n1, s1, f1, y, t, n2, s2);
    return Done, n2, ll1, Some(t), y, s2, f1;
  }

  /** The leaf case of build_tree. */
  lemma LeafCase(v: seq<Str>, l: nat, r: nat, ind: nat, nodes: seq<TrieNode>, before: Option<nat>,
                 shape: seq<Node>, nodes': seq<TrieNode>, shape': seq<Node>)
    requires Sorted(v) && l + 1 == r <= |v| && SharePrefix(v, l, r, ind) && Claims(v, l, r, ind)
    requires |nodes| == |shape| && (before.Some? ==> before.value < |nodes|)
    requires var i := |nodes|;
      var nodes1 := nodes + [TrieNode(None, None, ind, before, None, None, None, Some(v[l]))];
      nodes' == if before.Some? then nodes1[before.value := nodes1[before.value].(jumpRight := Some(i))] else nodes1
    requires shape' == shape + [Node(l, r, ind)]
    ensures Subtree(v, nodes', shape', |nodes|, Node(l, r, ind), before)
    ensures shape <= shape' && Patched(nodes, nodes', before, |nodes|)
    ensures LeafStartsAt(shape', Some(|nodes|), l) && LeafEndsAt(shape', Some(|nodes|), r)
  {
    RangeWf(v, l, r, ind);
    var i := |nodes|;
    assert NodeOk(v, nodes', shape', i);
    assert Threaded(nodes', shape', i, l, r, before);
  }

  /**
   * What the split case of build_tree has after its two recursive calls: the subtree of the
   * left half after `before`, the subtree of the right half after the left half's last leaf pl,
   * and their parent appended, with pl linking back to it.
   */
  ghost predicate SplitState(v: seq<Str>, l: nat, mid: nat, r: nat, ind: nat, ind1: nat,
                             n0: seq<TrieNode>, s0: seq<Node>, before: Option<nat>,
                             n1: seq<TrieNode>, s1: seq<Node>, f1: nat, lres: Option<nat>, pl: Option<nat>,
                             n2: seq<TrieNode>, s2: seq<Node>, f2: nat, rres: Option<nat>, pr: Option<nat>,
                             n4: seq<TrieNode>, s3: seq<Node>)
  {
    && l < mid < r && ind1 == ind + 1 && |n0| == |s0|
    && Wf(v, Node(l, r, ind)) && Rind(v, Node(l, r, ind)) == ind && Mid(v, Node(l, r, ind)) == mid
    && Built(v, l, mid, ind1, n0, before, s0, n1, pl, lres, pl, s1, f1)
    && Built(v, mid, r, ind1, n1, pl, s1, n2, pr, rres, pr, s2, f2)
    && (var n3 := n2 + [TrieNode(lres, rres, ind, None, None, pl, None, None)];
        n4 == n3[pl.value := n3[pl.value].(toInternal := Some(|n2|))])
    && s3 == s2 + [Node(l, r, ind)]
  }

  /** The split case of build_tree: the two subtrees and their parent make the subtree of the range. */
  lemma SplitCase(v: seq<Str>, l: nat, mid: nat, r: nat, ind: nat, ind1: nat,
                  n0: seq<TrieNode>, s0: seq<Node>, before: Option<nat>,
                  n1: seq<TrieNode>, s1: seq<Node>, f1: nat, lres: Option<nat>, pl: Option<nat>,
                  n2: seq<TrieNode>, s2: seq<Node>, f2: nat, rres: Option<nat>, pr: Option<nat>,
                  n4: seq<TrieNode>, s3: seq<Node>)
    requires SplitState(v, l, mid, r, ind, ind1, n0, s0, before, n1, s1, f1, lres, pl, n2, s2, f2, rres, pr, n4, s3)
    ensures Built(v, l, r, ind, n0, before, s0, n4, pr, Some(|n2|), pr, s3, f1)
  {
    SplitLinks(v, l, mid, r, ind, ind1, n0, s0, before, n1, s1, f1, lres, pl, n2, s2, f2, rres, pr, n4, s3);
    SplitNodes(v, l, mid, r, ind, ind1, n0, s0, before, n1, s1, f1, lres, pl, n2, s2, f2, rres, pr, n4, s3);
    forall i, j | |n0| <= i < j <= |n2|
      ensures s3[i] != s3[j]
    {
      SplitDistinct(v, l, mid, r, ind, ind1, n0, s0, before, n1, s1, f1, lres, pl, n2, s2, f2, rres, pr, n4, s3, i, j);
    }
  }

  /** Every new index of the split case stands for a node below the range's node, threaded. */
  lemma SplitNodes(v: seq<Str>, l: nat, mid: nat, r: nat, ind: nat, ind1: nat,
                   n0: seq<TrieNode>, s0: seq<Node>, before: Option<nat>,
                   n1: seq<TrieNode>, s1: seq<Node>, f1: nat, lres: Option<nat>, pl: Option<nat>,
                   n2: seq<TrieNode>, s2: seq<Node>, f2: nat, rres: Option<nat>, pr: Option<nat>,
                   n4: seq<TrieNode>, s3: seq<Node>)
    requires SplitState(v, l, mid, r, ind, ind1, n0, s0, before, n1, s1, f1, lres, pl, n2, s2, f2, rres, pr, n4, s3)
    ensures |n4| == |s3| == |n2| + 1
    ensures forall j {:trigger NodeOk(v, n4, s3, j)} :: |n0| <= j <= |n2| ==> NodeOk(v, n4, s3, j)
    ensures forall j {:trigger s3[j]} :: |n0| <= j <= |n2| ==> Below(v, Node(l, r, ind), s3[j])
    ensures forall j {:trigger Threaded(n4, s3, j, l, r, before)} :: |n0| <= j <= |n2| ==> Threaded(n4, s3, j, l, r, before)
  {
    var p := Node(l, r, ind);
    SplitLinks(v, l, mid, r, ind, ind1, n0, s0, before, n1, s1, f1, lres, pl, n2, s2, f2, rres, pr, n4, s3);
    SplitLeftNodes(v, l, mid, r, ind, ind1, n0, s0, before, n1, s1, f1, lres, pl, n2, s2, f2, rres, pr, n4, s3);
    SplitRightNodes(v, l, mid, r, ind, ind1, n0, s0, before, n1, s1, f1, lres, pl, n2, s2, f2, rres, pr, n4, s3);
    TopOk(v, p, n4, s3, |n2|, |n1| - 1, |n2| - 1, pl, before);
  }

  lemma SplitLeftNodes(v: seq<Str>, l: nat, mid: nat, r: nat, ind: nat, ind1: nat,
                       n0: seq<TrieNode>, s0: seq<Node>, before: Option<nat>,
                       n1: seq<TrieNode>, s1: seq<Node>, f1: nat, lres: Option<nat>, pl: Option<nat>,
                       n2: seq<TrieNode>, s2: seq<Node>, f2: nat, rres: Option<nat>, pr: Option<nat>,
                       n4: seq<TrieNode>, s3: seq<Node>)
    requires SplitState(v, l, mid, r, ind, ind1, n0, s0, before, n1, s1, f1, lres, pl, n2, s2, f2, rres, pr, n4, s3)
    ensures |n4| == |s3| == |n2| + 1
    ensures forall j {:trigger NodeOk(v, n4, s3, j)} :: |n0| <= j < |n1| ==> NodeOk(v, n4, s3, j)
    ensures forall j {:trigger s3[j]} :: |n0| <= j < |n1| ==> Below(v, Node(l, r, ind), s3[j])
    ensures forall j {:trigger Threaded(n4, s3, j, l, r, before)} :: |n0| <= j < |n1| ==> Threaded(n4, s3, j, l, r, before)
  {
    var p := Node(l, r, ind);
    SplitLinks(v, l, mid, r, ind, ind1, n0, s0, before, n1, s1, f1, lres, pl, n2, s2, f2, rres, pr, n4, s3);
    forall j | |n0| <= j < |n1|
      ensures NodeOk(v, n4, s3, j) && Below(v, p, s3[j]) && Threaded(n4, s3, j, l, r, before)
    {
      LeftIndex(v, p, n1, s1, n4, s3, j);
      LeftIndexLinks(v, p, mid, n1, s1, n4, s3, j, before, pl, f2, |n2|);
    }
  }

  lemma SplitRightNodes(v: seq<Str>, l: nat, mid: nat, r: nat, ind: nat, ind1: nat,
                        n0: seq<TrieNode>, s0: seq<Node>, before: Option<nat>,
                        n1: seq<TrieNode>, s1: seq<Node>, f1: nat, lres: Option<nat>, pl: Option<nat>,
                        n2: seq<TrieNode>, s2: seq<Node>, f2: nat, rres: Option<nat>, pr: Option<nat>,
                        n4: seq<TrieNode>, s3: seq<Node>)
    requires SplitState(v, l, mid, r, ind, ind1, n0, s0, before, n1, s1, f1, lres, pl, n2, s2, f2, rres, pr, n4, s3)
    ensures forall j {:trigger NodeOk(v, n4, s3, j)} :: |n1| <= j < |n2| ==> NodeOk(v, n4, s3, j)
    ensures forall j {:trigger s3[j]} :: |n1| <= j < |n2| ==> Below(v, Node(l, r, ind), s3[j])
    ensures forall j {:trigger Threaded(n4, s3, j, l, r, before)} :: |n1| <= j < |n2| ==> Threaded(n4, s3, j, l, r, before)
  {
    var p := Node(l, r, ind);
    SplitLinks(v, l, mid, r, ind, ind1, n0, s0, before, n1, s1, f1, lres, pl, n2, s2, f2, rres, pr, n4, s3);
    forall j | |n1| <= j < |n2|
      ensures NodeOk(v, n4, s3, j) && Below(v, p, s3[j]) && Threaded(n4, s3, j, l, r, before)
    {
      RightIndex(v, p, mid, n2, s2, n4, s3, j, before, pl);
    }
  }

  /** What the parent's back link changes in the arena of the split case. */
  lemma SplitLinks(v: seq<Str>, l: nat, mid: nat, r: nat, ind: nat, ind1: nat,
                   n0: seq<TrieNode>, s0: seq<Node>, before: Option<nat>,
                   n1: seq<TrieNode>, s1: seq<Node>, f1: nat, lres: Option<nat>, pl: Option<nat>,
                   n2: seq<TrieNode>, s2: seq<Node>, f2: nat, rres: Option<nat>, pr: Option<nat>,
                   n4: seq<TrieNode>, s3: seq<Node>)
    requires SplitState(v, l, mid, r, ind, ind1, n0, s0, before, n1, s1, f1, lres, pl, n2, s2, f2, rres, pr, n4, s3)
    ensures s1 <= s3 && s2 <= s3 && |n4| == |s3| == |n2| + 1
    ensures n4[pl.value] == n1[pl.value].(jumpRight := Some(f2), toInternal := Some(|n2|))
    ensures BacksUp(n4, s3, Some(|n2|), pl.value) && LeafStartsAt(s3, Some(f2), mid)
    ensures forall k :: 0 <= k < |n2| && k != pl.value ==> n4[k] == n2[k]
    ensures forall k :: 0 <= k < |n1| && k != pl.value ==> n4[k] == n1[k]
    ensures Patched(n0, n4, before, f1) && LeafStartsAt(s3, Some(f1), l)
    ensures s3[|n2|] == Node(l, r, ind) && LeafEndsAt(s3, pl, mid) && pl.value < |n2|
    ensures s3[|n1| - 1] == Left(v, Node(l, r, ind)) && s3[|n2| - 1] == Right(v, Node(l, r, ind))
    ensures n4[|n2|] == TrieNode(Some(|n1| - 1), Some(|n2| - 1), ind, None, None, pl, None, None)
  {
    var q, t := pl.value, |n2|;
    assert s3[|n1| - 1] == s1[|n1| - 1];
    assert s3[q] == s1[q];
    assert n2[q] == n1[q].(jumpRight := Some(f2));
    forall k | 0 <= k < |n1| && k != q
      ensures n4[k] == n1[k]
    {
      assert n2[k] == n1[k];
    }
  }

  /** A node of the left half stays in place, below the range's node, once the rest is added. */
  lemma LeftIndex(v: seq<Str>, p: Node, n1: seq<TrieNode>, s1: seq<Node>, n4: seq<TrieNode>,
                  s3: seq<Node>, j: nat)
    requires Wf(v, p) && !IsLeaf(p)
    requires |n1| == |s1| && |n4| == |s3| && j < |n1| && s1 <= s3
    requires NodeOk(v, n1, s1, j) && Below(v, Left(v, p), s1[j]) && SameRecord(n1[j], n4[j])
    ensures NodeOk(v, n4, s3, j) && Below(v, p, s3[j])
  {
    NodeOkFrame(v, n1, s1, n4, s3, j);
    BelowChild(v, p, false, s1[j]);
  }

  /** The links of a node of the left half, once the rest is added. */
  lemma LeftIndexLinks(v: seq<Str>, p: Node, mid: nat, n1: seq<TrieNode>, s1: seq<Node>, n4: seq<TrieNode>,
                       s3: seq<Node>, j: nat, before: Option<nat>, pl: Option<nat>, f2: nat, t: nat)
    requires Wf(v, p) && !IsLeaf(p) && Mid(v, p) == mid
    requires |n1| == |s1| && |n4| == |s3| && j < |n1| && s1 <= s3
    requires Below(v, Left(v, p), s1[j]) && Threaded(n1, s1, j, p.l, mid, before)
    requires pl.Some? && pl.value < |n1| && LeafEndsAt(s1, pl, mid) && Below(v, Left(v, p), s1[pl.value])
    requires s1[j] == s1[pl.value] ==> j == pl.value
    requires forall k :: 0 <= k < |n1| && k != pl.value ==> n4[k] == n1[k]
    requires n4[pl.value] == n1[pl.value].(jumpRight := Some(f2), toInternal := Some(t))
    requires LeafStartsAt(s3, Some(f2), mid) && BacksUp(n4, s3, Some(t), pl.value)
    ensures Threaded(n4, s3, j, p.l, p.r, before)
  {
    assert Left(v, p).r == mid;
    BelowWf(v, Left(v, p), s1[j]);
    if IsLeaf(s1[j]) && s1[j].r == mid {
      LeafUnique(v, Left(v, p), s1[j], s1[pl.value]);
    }
    LeftPartThreaded(n1, s1, n4, s3, j, p.l, mid, p.r, before, pl, f2, t);
  }

  /** A node of the right half stays in place, below the range's node, once the parent is added. */
  lemma RightIndex(v: seq<Str>, p: Node, mid: nat, n2: seq<TrieNode>, s2: seq<Node>, n4: seq<TrieNode>,
                   s3: seq<Node>, j: nat, before: Option<nat>, pl: Option<nat>)
    requires Wf(v, p) && !IsLeaf(p) && Mid(v, p) == mid
    requires |n2| == |s2| && |n4| == |s3| && j < |n2| && s2 <= s3
    requires NodeOk(v, n2, s2, j) && Below(v, Right(v, p), s2[j]) && Threaded(n2, s2, j, mid, p.r, pl)
    requires LeafEndsAt(s3, pl, mid)
    requires forall k :: 0 <= k < |n2| && k != pl.value ==> n4[k] == n2[k]
    ensures NodeOk(v, n4, s3, j) && Below(v, p, s3[j]) && Threaded(n4, s3, j, p.l, p.r, before)
  {
    BelowWf(v, Right(v, p), s2[j]);
    assert s3[j] == s2[j];
    assert n4[j] == n2[j];
    NodeOkFrame(v, n2, s2, n4, s3, j);
    BelowChild(v, p, true, s2[j]);
    RightPartThreaded(n2, s2, n4, s3, j, p.l, mid, p.r, before, pl);
  }

  /** The links of a node of the left half, once the right half and the parent are added. */
  lemma LeftPartThreaded(n1: seq<TrieNode>, s1: seq<Node>, n4: seq<TrieNode>, s3: seq<Node>, j: nat,
                         l: nat, mid: nat, r: nat, before: Option<nat>, pl: Option<nat>, f2: nat, t: nat)
    requires |n1| == |s1| && |n4| == |s3| && j < |n1| && s1 <= s3 && mid < r
    requires pl.Some? && pl.value < |n1|
    requires Threaded(n1, s1, j, l, mid, before)
    requires forall k :: 0 <= k < |n1| && k != pl.value ==> n4[k] == n1[k]
    requires n4[pl.value] == n1[pl.value].(jumpRight := Some(f2), toInternal := Some(t))
    requires LeafStartsAt(s3, Some(f2), mid) && BacksUp(n4, s3, Some(t), pl.value)
    requires LeafEndsAt(s1, pl, mid) && s1[j].r <= mid
    requires IsLeaf(s1[j]) && s1[j].r == mid ==> j == pl.value
    ensures Threaded(n4, s3, j, l, r, before)
  {
    assert s3[j] == s1[j];
    var m := s1[j];
    if !IsLeaf(m) {
      assert n4[j] == n1[j];
    } else {
      assert n4[j].jumpLeft == n1[j].jumpLeft;
      if m.l != l {
        var a := n1[j].jumpLeft.value;
        assert s3[a] == s1[a];
      }
      if m.r != mid {
        assert n4[j] == n1[j];
        var b := n1[j].toInternal.value;
        var c := n1[j].jumpRight.value;
        assert s3[b] == s1[b] && n4[b] == n1[b] && s3[c] == s1[c];
      }
    }
  }

  /** The links of a node of the right half, once the parent is added. */
  lemma RightPartThreaded(n2: seq<TrieNode>, s2: seq<Node>, n4: seq<TrieNode>, s3: seq<Node>, j: nat,
                          l: nat, mid: nat, r: nat, before: Option<nat>, pl: Option<nat>)
    requires |n2| == |s2| && |n4| == |s3| && j < |n2| && s2 <= s3 && l < mid
    requires Threaded(n2, s2, j, mid, r, pl) && mid <= s2[j].l
    requires LeafEndsAt(s3, pl, mid)
    requires forall k :: 0 <= k < |n2| && k != pl.value ==> n4[k] == n2[k]
    requires n4[j] == n2[j]
    ensures Threaded(n4, s3, j, l, r, before)
  {
    assert s3[j] == s2[j];
    var m := s2[j];
    if IsLeaf(m) && m.l != mid {
      var a := n2[j].jumpLeft.value;
      assert s3[a] == s2[a];
    }
    if IsLeaf(m) && m.r != r {
      var b := n2[j].toInternal.value;
      var c := n2[j].jumpRight.value;
      assert s3[b] == s2[b] && n4[b] == n2[b] && s3[c] == s2[c];
    }
  }

  /** The parent appended by the split case stands for the range's node. */
  lemma TopOk(v: seq<Str>, p: Node, n4: seq<TrieNode>, s3: seq<Node>, t: nat, a: nat, b: nat, pl: Option<nat>,
              before: Option<nat>)
    requires Wf(v, p) && !IsLeaf(p) && |n4| == |s3| && t < |n4|
    requires s3[t] == p && n4[t] == TrieNode(Some(a), Some(b), p.lind, None, None, pl, None, None)
    requires a < t && b < t && s3[a] == Left(v, p) && s3[b] == Right(v, p)
    requires LeafEndsAt(s3, pl, Mid(v, p)) && pl.value < t
    ensures NodeOk(v, n4, s3, t) && Below(v, p, s3[t])
    ensures Threaded(n4, s3, t, p.l, p.r, before)
  {
  }

  lemma SplitDistinct(v: seq<Str>, l: nat, mid: nat, r: nat, ind: nat, ind1: nat,
                      n0: seq<TrieNode>, s0: seq<Node>, before: Option<nat>,
                      n1: seq<TrieNode>, s1: seq<Node>, f1: nat, lres: Option<nat>, pl: Option<nat>,
                      n2: seq<TrieNode>, s2: seq<Node>, f2: nat, rres: Option<nat>, pr: Option<nat>,
                      n4: seq<TrieNode>, s3: seq<Node>, i: nat, j: nat)
    requires SplitState(v, l, mid, r, ind, ind1, n0, s0, before, n1, s1, f1, lres, pl, n2, s2, f2, rres, pr, n4, s3)
    requires |n0| <= i < j <= |n2|
    ensures s3[i] != s3[j]
  {
    var p := Node(l, r, ind);
    if i < |n1| {
      assert s3[i] == s1[i];
      BelowWf(v, Left(v, p), s1[i]);
      if j < |n1| {
        assert s3[j] == s1[j];
      } else if j < |n2| {
        BelowWf(v, Right(v, p), s2[j]);
      }
    } else if j < |n2| {
      assert s3[i] == s2[i] && s3[j] == s2[j];
    } else {
      BelowWf(v, Right(v, p), s2[i]);
    }
  }

  /**
   * What the collapse case of build_tree has after its recursive call: the subtree of the range
   * with labels starting at ind + 1, whose root t gets the label start ind.
   */
  ghost predicate CollapseState(v: seq<Str>, l: nat, r: nat, ind: nat, ind1: nat,
                     n0: seq<TrieNode>, s0: seq<Node>, before: Option<nat>,
                     n1: seq<TrieNode>, s1: seq<Node>, f1: nat, pr: Option<nat>, t: nat,
                     n2: seq<TrieNode>, s2: seq<Node>) {
    && ind1 == ind + 1 && l + 1 < r && Wf(v, Node(l, r, ind)) && |n0| == |s0|
    && Built(v, l, r, ind1, n0, before, s0, n1, pr, Some(t), pr, s1, f1)
    && n2 == n1[t := n1[t].(lind := ind)]
    && s2 == s1[t := Node(l, r, ind)]
  }

  /** The collapse case of build_tree: the label of the subtree's root starts one bit earlier. */
  lemma CollapseCase(v: seq<Str>, l: nat, r: nat, ind: nat, ind1: nat,
                     n0: seq<TrieNode>, s0: seq<Node>, before: Option<nat>,
                     n1: seq<TrieNode>, s1: seq<Node>, f1: nat, pr: Option<nat>, t: nat,
                     n2: seq<TrieNode>, s2: seq<Node>)
    requires CollapseState(v, l, r, ind, ind1, n0, s0, before, n1, s1, f1, pr, t, n2, s2)
    ensures Built(v, l, r, ind, n0, before, s0, n2, pr, Some(t), pr, s2, f1)
  {
    CollapseNodes(v, l, r, ind, ind1, n0, s0, before, n1, s1, f1, pr, t, n2, s2);
    CollapseTop(v, Node(l, r, ind), Node(l, r, ind1), n1, s1, n2, s2, t, before);
    CollapseDistinct(v, l, r, ind, ind1, n0, s0, before, n1, s1, f1, pr, t, n2, s2);
    assert s2[f1] == s1[f1] && s2[pr.value] == s1[pr.value];
    forall j | 0 <= j < |n0|
      ensures n2[j] == n1[j]
    {
    }
  }

  lemma CollapseNodes(v: seq<Str>, l: nat, r: nat, ind: nat, ind1: nat,
                     n0: seq<TrieNode>, s0: seq<Node>, before: Option<nat>,
                     n1: seq<TrieNode>, s1: seq<Node>, f1: nat, pr: Option<nat>, t: nat,
                     n2: seq<TrieNode>, s2: seq<Node>)
    requires CollapseState(v, l, r, ind, ind1, n0, s0, before, n1, s1, f1, pr, t, n2, s2)
    ensures forall j {:trigger NodeOk(v, n2, s2, j)} :: |n0| <= j < t ==> NodeOk(v, n2, s2, j)
    ensures forall j {:trigger s2[j]} :: |n0| <= j < t ==> Below(v, Node(l, r, ind), s2[j])
    ensures forall j {:trigger Threaded(n2, s2, j, l, r, before)} :: |n0| <= j < t ==> Threaded(n2, s2, j, l, r, before)
  {
    var p, q := Node(l, r, ind), Node(l, r, ind1);
    forall j | |n0| <= j < t
      ensures NodeOk(v, n2, s2, j) && Below(v, p, s2[j]) && Threaded(n2, s2, j, l, r, before)
    {
      CollapseIndex(v, p, q, n1, s1, n2, s2, t, j, before);
    }
  }

  lemma CollapseDistinct(v: seq<Str>, l: nat, r: nat, ind: nat, ind1: nat,
                     n0: seq<TrieNode>, s0: seq<Node>, before: Option<nat>,
                     n1: seq<TrieNode>, s1: seq<Node>, f1: nat, pr: Option<nat>, t: nat,
                     n2: seq<TrieNode>, s2: seq<Node>)
    requires CollapseState(v, l, r, ind, ind1, n0, s0, before, n1, s1, f1, pr, t, n2, s2)
    ensures forall i, j :: |n0| <= i < j <= t ==> s2[i] != s2[j]
  {
    var q := Node(l, r, ind1);
    forall i, j | |n0| <= i < j <= t
      ensures s2[i] != s2[j]
    {
      if j == t {
        BelowWf(v, q, s1[i]);
      }
    }
  }

  /** A node below the collapsed root keeps its place and its links. */
  lemma CollapseIndex(v: seq<Str>, p: Node, q: Node, n1: seq<TrieNode>, s1: seq<Node>,
                      n2: seq<TrieNode>, s2: seq<Node>, t: nat, j: nat, before: Option<nat>)
    requires q.l == p.l && q.r == p.r && q.lind == p.lind + 1 && Wf(v, p) && !IsLeaf(p)
    requires |n1| == |s1| && t < |n1| && j < t
    requires s2 == s1[t := p] && n2 == n1[t := n1[t].(lind := p.lind)]
    requires s1[t] == q && s1[j] != q
    requires NodeOk(v, n1, s1, j) && Below(v, q, s1[j]) && Threaded(n1, s1, j, p.l, p.r, before)
    ensures NodeOk(v, n2, s2, j) && Below(v, p, s2[j]) && Threaded(n2, s2, j, p.l, p.r, before)
  {
    NodeOkFrame(v, n1, s1, n2, s2, j);
    CollapseBelow(v, p.l, p.r, p.lind, q.lind, s1[j]);
    CollapseThreaded(n1, s1, n2, s2, t, j, p, q, before);
  }

  /** The links of a node below the collapsed root stay as they were. */
  lemma CollapseThreaded(n1: seq<TrieNode>, s1: seq<Node>, n2: seq<TrieNode>, s2: seq<Node>, t: nat, j: nat,
                         p: Node, q: Node, before: Option<nat>)
    requires q.l == p.l && q.r == p.r && !IsLeaf(p)
    requires |n1| == |s1| && t < |n1| && j < t
    requires s2 == s1[t := p] && n2 == n1[t := n1[t].(lind := p.lind)] && s1[t] == q
    requires Threaded(n1, s1, j, p.l, p.r, before)
    ensures Threaded(n2, s2, j, p.l, p.r, before)
  {
    var m, nd := s1[j], n1[j];
    if IsLeaf(m) {
      if m.l != p.l {
        assert s2[nd.jumpLeft.value] == s1[nd.jumpLeft.value];
      }
      if m.r != p.r {
        var b := nd.toInternal.value;
        var c := nd.jumpRight.value;
        assert s2[c] == s1[c];
        assert n2[b].toLeaf == n1[b].toLeaf && !IsLeaf(s2[b]);
      }
    }
  }

  /** The collapsed root stands for the range's node with the earlier label start. */
  lemma CollapseTop(v: seq<Str>, p: Node, q: Node, n1: seq<TrieNode>, s1: seq<Node>,
                    n2: seq<TrieNode>, s2: seq<Node>, t: nat, before: Option<nat>)
    requires q.l == p.l && q.r == p.r && q.lind == p.lind + 1 && Wf(v, p) && !IsLeaf(p)
    requires |n1| == |s1| && t < |n1|
    requires s2 == s1[t := p] && n2 == n1[t := n1[t].(lind := p.lind)]
    requires s1[t] == q && NodeOk(v, n1, s1, t) && Threaded(n1, s1, t, p.l, p.r, before)
    ensures NodeOk(v, n2, s2, t) && Below(v, p, s2[t]) && Threaded(n2, s2, t, p.l, p.r, before)
  {
    assert Rind(v, p) == Rind(v, q);
    assert Left(v, q) == Left(v, p) && Right(v, q) == Right(v, p) && Mid(v, q) == Mid(v, p);
    var nd := n1[t];
    assert s2[nd.left.value] == s1[nd.left.value];
    assert s2[nd.right.value] == s1[nd.right.value];
    assert s2[nd.toLeaf.value] == s1[nd.toLeaf.value];
  }
}
