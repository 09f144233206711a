/**
 * The nodes of the z-fast trie (z_fast_trie.rs `TrieNode` and its accessors), kept in an arena:
 * a sequence of node records whose links are indices into the sequence. The builder appends a
 * node after its children, so every child, and the leaf an internal node reads its extent from,
 * has a smaller index than the node.
 *
 * Next to the arena a ghost sequence `shape` says which node of the trie of the sorted keys v
 * (TrieStructure) each index stands for; the accessors are proved to compute, from the records
 * alone, the rind, extent, handle and spine nodes of that trie node.
 */
module ZFastNodes {
  import opened Wrappers
  import opened Strings
  import opened BitwiseOperations
  import opened TrieStructure
  import opened TrieHandles

  /**
   * A node record: an internal node has both children, the leaf its extent is read from
   * (`toLeaf`, the last leaf of its left subtree) and no extent of its own; a leaf stores its
   * key as its extent and is threaded to its neighbours through the two jump links.
   */
  datatype TrieNode = TrieNode(
    left: Option<nat>,
    right: Option<nat>,
    lind: nat,
    jumpLeft: Option<nat>,
    jumpRight: Option<nat>,
    toLeaf: Option<nat>,
    toInternal: Option<nat>,
    extent: Option<Str>)

  /**
   * What the accessors of node i rely on (the assertions and unwraps of get_rind and
   * get_extent): a left child comes first and starts its label at a positive position, a node
   * without a left child or without a leaf link stores an extent, and the linked leaf does.
   */
  predicate Linked(nodes: seq<TrieNode>, i: nat)
    requires i < |nodes|
  {
    var nd := nodes[i];
    && (nd.left.Some? ==> nd.left.value < i && nodes[nd.left.value].lind >= 1)
    && (nd.left.None? ==> nd.extent.Some?)
    && (nd.right.Some? ==> nd.right.value < i)
    && (nd.toLeaf.Some? ==> nd.toLeaf.value < |nodes| && nodes[nd.toLeaf.value].extent.Some?)
    && (nd.toLeaf.None? ==> nd.extent.Some?)
  }

  predicate AllLinked(nodes: seq<TrieNode>) {
    forall i :: 0 <= i < |nodes| ==> Linked(nodes, i)
  }

  /** After precalc_jumps every node without an extent has both jump links, to earlier nodes. */
  predicate JumpsLinked(nodes: seq<TrieNode>) {
    forall i :: 0 <= i < |nodes| && nodes[i].extent.None? ==>
      && nodes[i].jumpLeft.Some? && nodes[i].jumpLeft.value < i
      && nodes[i].jumpRight.Some? && nodes[i].jumpRight.value < i
  }

  /** get_rind: one before where the left child's label starts, or the length of the key. */
  function GetRind(nodes: seq<TrieNode>, i: nat): nat
    requires i < |nodes| && Linked(nodes, i)
  {
    match nodes[i].left
    case Some(p) => nodes[p].lind - 1
    case None => |nodes[i].extent.value|
  }

  /** The string get_extent cuts the extent from: the linked leaf's key, or the node's own. */
  function ExtentSource(nodes: seq<TrieNode>, i: nat): Str
    requires i < |nodes| && Linked(nodes, i)
  {
    match nodes[i].toLeaf
    case Some(p) => nodes[p].extent.value
    case None => nodes[i].extent.value
  }

  /** get_extent: the first rind bits of the source string (get_substr panics past its end). */
  function GetExtent(nodes: seq<TrieNode>, i: nat): Str
    requires i < |nodes| && Linked(nodes, i)
    requires GetRind(nodes, i) <= |ExtentSource(nodes, i)|
  {
    ExtentSource(nodes, i)[..GetRind(nodes, i)]
  }

  /** get_prefix_extent(x): the first min(rind, x) bits of the source string. */
  function GetPrefixExtent(nodes: seq<TrieNode>, i: nat, x: nat): Str
    requires i < |nodes| && Linked(nodes, i)
    requires Min(GetRind(nodes, i), x) <= |ExtentSource(nodes, i)|
  {
    ExtentSource(nodes, i)[..Min(GetRind(nodes, i), x)]
  }

  /**
   * get_handle: the first get_fattest(rind, lind) bits of the linked leaf's key; a node without
   * a leaf link (a leaf) has no handle.
   */
  function GetHandle(nodes: seq<TrieNode>, i: nat): Option<Str>
    requires i < |nodes| && Linked(nodes, i)
    requires nodes[i].lind <= GetRind(nodes, i) <= |ExtentSource(nodes, i)|
  {
    match nodes[i].toLeaf
    case Some(p) => Some(nodes[p].extent.value[..GetFattest(GetRind(nodes, i), nodes[i].lind)])
    case None => None
  }

  /**
   * get_kth_left(k): node i if its label covers position k, else the same from its left child;
   * a node without a left child is the answer.
   */
  function GetKthLeft(nodes: seq<TrieNode>, i: nat, k: nat): (j: nat)
    requires i < |nodes| && AllLinked(nodes)
    ensures j <= i
    decreases i
  {
    assert Linked(nodes, i);
    if nodes[i].lind <= k <= GetRind(nodes, i) then i
    else match nodes[i].left
      case Some(p) => GetKthLeft(nodes, p, k)
      case None => i
  }

  /** get_kth_right(k): the same along right children. */
  function GetKthRight(nodes: seq<TrieNode>, i: nat, k: nat): (j: nat)
    requires i < |nodes| && AllLinked(nodes)
    ensures j <= i
    decreases i
  {
    assert Linked(nodes, i);
    if nodes[i].lind <= k <= GetRind(nodes, i) then i
    else match nodes[i].right
      case Some(p) => GetKthRight(nodes, p, k)
      case None => i
  }

  /** get_leftmost: follow jump_left while the node stores no extent. */
  function GetLeftmost(nodes: seq<TrieNode>, i: nat): nat
    requires i < |nodes| && JumpsLinked(nodes)
    decreases i
  {
    if nodes[i].extent.None? then GetLeftmost(nodes, nodes[i].jumpLeft.value) else i
  }

  /** get_rightmost: follow jump_right while the node stores no extent. */
  function GetRightmost(nodes: seq<TrieNode>, i: nat): nat
    requires i < |nodes| && JumpsLinked(nodes)
    decreases i
  {
    if nodes[i].extent.None? then GetRightmost(nodes, nodes[i].jumpRight.value) else i
  }

  // ---------------------------------------------------------------------------------------
  // The arena against the trie.

  /** Link p leads to an index standing for node n. */
  ghost predicate Points(shape: seq<Node>, p: Option<nat>, n: Node) {
    p.Some? && p.value < |shape| && shape[p.value] == n
  }

  /** Link p leads to the leaf of the key just before position e (the leaf v[e - 1]). */
  ghost predicate LeafEndsAt(shape: seq<Node>, p: Option<nat>, e: nat) {
    p.Some? && p.value < |shape| && IsLeaf(shape[p.value]) && shape[p.value].r == e
  }

  /** Link p leads to the leaf of the key at position s. */
  ghost predicate LeafStartsAt(shape: seq<Node>, p: Option<nat>, s: nat) {
    p.Some? && p.value < |shape| && IsLeaf(shape[p.value]) && shape[p.value].l == s
  }

  /**
   * Index i stands for the well-formed node shape[i] of the trie of v: it has that node's
   * label start; a leaf has no children and stores its key; an internal node stores no extent,
   * its children are the indices of its two children, both earlier, and its leaf link leads to
   * the last leaf of its left subtree.
   */
  ghost predicate NodeOk(v: seq<Str>, nodes: seq<TrieNode>, shape: seq<Node>, i: nat)
    requires |nodes| == |shape| && i < |nodes|
  {
    var m, nd := shape[i], nodes[i];
    && Wf(v, m) && nd.lind == m.lind
    && if IsLeaf(m) then
         nd.left.None? && nd.right.None? && nd.toLeaf.None? && nd.extent == Some(v[m.l])
       else
         && nd.extent.None?
         && Points(shape, nd.left, Left(v, m)) && nd.left.value < i
         && Points(shape, nd.right, Right(v, m)) && nd.right.value < i
         && LeafEndsAt(shape, nd.toLeaf, Mid(v, m)) && nd.toLeaf.value < i
  }

  ghost predicate ArenaOk(v: seq<Str>, nodes: seq<TrieNode>, shape: seq<Node>) {
    && |nodes| == |shape|
    && forall i :: 0 <= i < |nodes| ==> NodeOk(v, nodes, shape, i)
  }

  /** After precalc_jumps the jump links of every internal node lead where JumpLeft/JumpRight say. */
  ghost predicate JumpsOk(v: seq<Str>, nodes: seq<TrieNode>, shape: seq<Node>)
    requires |nodes| == |shape|
  {
    forall i :: 0 <= i < |nodes| && Wf(v, shape[i]) && !IsLeaf(shape[i]) ==>
      && Points(shape, nodes[i].jumpLeft, JumpLeft(v, shape[i]))
      && Points(shape, nodes[i].jumpRight, JumpRight(v, shape[i]))
  }

  /** The key a leaf link leads to is the key at the leaf's position. */
  lemma LeafKey(v: seq<Str>, nodes: seq<TrieNode>, shape: seq<Node>, p: nat)
    requires ArenaOk(v, nodes, shape) && p < |nodes| && IsLeaf(shape[p])
    ensures Wf(v, shape[p])
    ensures nodes[p].extent == Some(v[shape[p].l]) && nodes[p].lind == shape[p].lind
  {
    assert NodeOk(v, nodes, shape, p);
  }

  /**
   * The accessors of a node of the arena read what they need: get_rind is the node's rind, and
   * the source string of its extent is one of its keys, so it begins with the extent.
   */
  lemma NodeLinked(v: seq<Str>, nodes: seq<TrieNode>, shape: seq<Node>, i: nat)
    requires ArenaOk(v, nodes, shape) && i < |nodes|
    ensures Wf(v, shape[i])
    ensures Linked(nodes, i) && GetRind(nodes, i) == Rind(v, shape[i])
    ensures IsPrefix(Extent(v, shape[i]), ExtentSource(nodes, i))
  {
    var m, nd := shape[i], nodes[i];
    assert NodeOk(v, nodes, shape, i);
    if !IsLeaf(m) {
      var p := nd.toLeaf.value;
      LeafKey(v, nodes, shape, p);
      assert NodeOk(v, nodes, shape, nd.left.value);
      ChildWf(v, m, false);
      MidSplits(v, m);
      assert m.l <= Mid(v, m) - 1 < m.r;
    }
  }

  lemma ArenaLinked(v: seq<Str>, nodes: seq<TrieNode>, shape: seq<Node>)
    requires ArenaOk(v, nodes, shape)
    ensures AllLinked(nodes)
  {
    forall i | 0 <= i < |nodes|
      ensures Linked(nodes, i)
    {
      NodeLinked(v, nodes, shape, i);
    }
  }

  /** get_extent computes the extent of the node. */
  lemma ExtentAgrees(v: seq<Str>, nodes: seq<TrieNode>, shape: seq<Node>, i: nat)
    requires ArenaOk(v, nodes, shape) && i < |nodes|
    ensures Wf(v, shape[i])
    ensures Linked(nodes, i) && GetRind(nodes, i) <= |ExtentSource(nodes, i)|
    ensures GetExtent(nodes, i) == Extent(v, shape[i])
  {
    NodeLinked(v, nodes, shape, i);
  }

  /** get_prefix_extent(x) computes the first min(rind, x) bits of the extent. */
  lemma PrefixExtentAgrees(v: seq<Str>, nodes: seq<TrieNode>, shape: seq<Node>, i: nat, x: nat)
    requires ArenaOk(v, nodes, shape) && i < |nodes|
    ensures Wf(v, shape[i])
    ensures Linked(nodes, i) && Min(GetRind(nodes, i), x) <= |ExtentSource(nodes, i)|
    ensures GetPrefixExtent(nodes, i, x) == Extent(v, shape[i])[..Min(Rind(v, shape[i]), x)]
  {
    NodeLinked(v, nodes, shape, i);
  }

  /** get_handle computes the handle of an internal node and nothing for a leaf. */
  lemma HandleAgrees(v: seq<Str>, nodes: seq<TrieNode>, shape: seq<Node>, i: nat)
    requires ArenaOk(v, nodes, shape) && i < |nodes|
    ensures Wf(v, shape[i])
    ensures Linked(nodes, i) && nodes[i].lind <= GetRind(nodes, i) <= |ExtentSource(nodes, i)|
    ensures GetHandle(nodes, i) == if IsLeaf(shape[i]) then None else Some(Handle(v, shape[i]))
  {
    NodeLinked(v, nodes, shape, i);
    assert NodeOk(v, nodes, shape, i);
    if !IsLeaf(shape[i]) {
      var m := shape[i];
      var f := Fat(v, m);
      assert ExtentSource(nodes, i)[..f] == Extent(v, m)[..f] == v[m.l][..f];
    }
  }

  /** get_kth_left from index i finds the index of KthLeft of its node. */
  lemma {:induction false} KthLeftAgrees(v: seq<Str>, nodes: seq<TrieNode>, shape: seq<Node>, i: nat, k: nat)
    requires ArenaOk(v, nodes, shape) && AllLinked(nodes) && i < |nodes|
    ensures Wf(v, shape[i])
    ensures shape[GetKthLeft(nodes, i, k)] == KthLeft(v, shape[i], k)
    decreases i
  {
    NodeLinked(v, nodes, shape, i);
    assert NodeOk(v, nodes, shape, i);
    if !(nodes[i].lind <= k <= GetRind(nodes, i)) && !IsLeaf(shape[i]) {
      KthLeftAgrees(v, nodes, shape, nodes[i].left.value, k);
    }
  }

  /** get_kth_right from index i finds the index of KthRight of its node. */
  lemma {:induction false} KthRightAgrees(v: seq<Str>, nodes: seq<TrieNode>, shape: seq<Node>, i: nat, k: nat)
    requires ArenaOk(v, nodes, shape) && AllLinked(nodes) && i < |nodes|
    ensures Wf(v, shape[i])
    ensures shape[GetKthRight(nodes, i, k)] == KthRight(v, shape[i], k)
    decreases i
  {
    NodeLinked(v, nodes, shape, i);
    assert NodeOk(v, nodes, shape, i);
    if !(nodes[i].lind <= k <= GetRind(nodes, i)) && !IsLeaf(shape[i]) {
      KthRightAgrees(v, nodes, shape, nodes[i].right.value, k);
    }
  }

  /** get_leftmost reaches the leaf of the node's first key. */
  lemma {:induction false} LeftmostAgrees(v: seq<Str>, nodes: seq<TrieNode>, shape: seq<Node>, i: nat)
    requires ArenaOk(v, nodes, shape) && JumpsLinked(nodes) && JumpsOk(v, nodes, shape)
    requires FitsUsize(v) && i < |nodes|
    ensures var j := GetLeftmost(nodes, i);
      j < |nodes| && IsLeaf(shape[j]) && shape[j].l == shape[i].l
    decreases i
  {
    assert NodeOk(v, nodes, shape, i);
    if nodes[i].extent.None? {
      var p := nodes[i].jumpLeft.value;
      JumpLeftDown(v, shape[i]);
      LeftmostAgrees(v, nodes, shape, p);
    }
  }

  /** get_rightmost reaches the leaf of the node's last key. */
  lemma {:induction false} RightmostAgrees(v: seq<Str>, nodes: seq<TrieNode>, shape: seq<Node>, i: nat)
    requires ArenaOk(v, nodes, shape) && JumpsLinked(nodes) && JumpsOk(v, nodes, shape)
    requires FitsUsize(v) && i < |nodes|
    ensures var j := GetRightmost(nodes, i);
      j < |nodes| && IsLeaf(shape[j]) && shape[j].r == shape[i].r
    decreases i
  {
    assert NodeOk(v, nodes, shape, i);
    if nodes[i].extent.None? {
      var p := nodes[i].jumpRight.value;
      JumpRightDown(v, shape[i]);
      RightmostAgrees(v, nodes, shape, p);
    }
  }
}
