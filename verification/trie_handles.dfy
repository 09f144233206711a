/**
 * Handles and jump pointers of the z-fast tries (z_fast_trie.rs and z_fast_trie_sux.rs).
 *
 * The handle of a node is the prefix of its extent whose length is the fattest number of the
 * interval [lind, rind] its label covers (`get_handle`); the z-map sends handles to nodes. The
 * jump pointers of an internal node lead down its left or right spine to the first node whose
 * label covers the position fattest + 2^(trailing zeros of fattest) (`precalc_jumps`), which is
 * always past the node's own extent.
 */
module TrieHandles {
  import opened Strings
  import opened SortedStrings
  import opened BitwiseOperations
  import opened TrieStructure

  /** `usize::MAX` on a 64-bit target: the jump target of the root. */
  const UsizeMax: nat := 0xFFFF_FFFF_FFFF_FFFF

  /** Every key is shorter than usize::MAX bits, as every bit vector is. */
  predicate FitsUsize(v: seq<Str>) {
    forall i :: 0 <= i < |v| ==> |v[i]| < UsizeMax
  }

  /** `get_fattest(rind, lind)`: the length of the node's handle. */
  function Fat(v: seq<Str>, n: Node): (f: nat)
    requires InRange(v, n) && n.lind <= Rind(v, n)
    ensures n.lind <= f <= Rind(v, n)
    ensures n.lind >= 1 ==> IsFattest(f, n.lind, Rind(v, n))
    ensures f == 0 <==> n.lind == 0
  {
    GetFattest(Rind(v, n), n.lind)
  }

  /** `get_handle`: the first Fat bits of the node's keys; it lies between name and extent. */
  function Handle(v: seq<Str>, n: Node): (h: Str)
    requires InRange(v, n) && n.lind <= Rind(v, n)
    ensures |h| == Fat(v, n)
    ensures IsPrefix(Name(v, n), h) && IsPrefix(h, Extent(v, n))
  {
    v[n.l][..Fat(v, n)]
  }

  /** A handle begins every key of its node. */
  lemma HandleBeginsKeys(v: seq<Str>, n: Node, i: nat)
    requires Wf(v, n) && n.l <= i < n.r
    ensures IsPrefix(Handle(v, n), v[i])
  {
    PrefixTransitive(Handle(v, n), Extent(v, n), v[i]);
  }

  /** Different nodes of the trie have different handles, so the z-map loses no node. */
  lemma HandlesInjective(v: seq<Str>, n1: Node, n2: Node)
    requires Keys(v) && IsNode(v, n1) && IsNode(v, n2)
    requires Wf(v, n1) && Wf(v, n2) && Handle(v, n1) == Handle(v, n2)
    ensures n1 == n2
  {
    var h := Handle(v, n1);
    if n1.lind <= n2.lind {
      HandleOrder(v, n1, n2, h);
    } else {
      HandleOrder(v, n2, n1, h);
    }
  }

  lemma HandleOrder(v: seq<Str>, n1: Node, n2: Node, h: Str)
    requires Keys(v) && IsNode(v, n1) && IsNode(v, n2) && Wf(v, n1) && Wf(v, n2)
    requires Handle(v, n1) == h && Handle(v, n2) == h && n1.lind <= n2.lind
    ensures n1 == n2
  {
    assert OnPath(v, n1, h) && OnPath(v, n2, h);
    PathOrdered(v, n1, n2, h);
    BelowWf(v, n1, n2);
  }

  /** The position the jump pointers of a node with handle length f aim at. */
  function JumpTarget(f: nat): nat {
    if f == 0 then UsizeMax else f + Pow2(TrailingZeros(f))
  }

  /** The jump target of a node lies past its extent. */
  lemma JumpBeyond(v: seq<Str>, n: Node)
    requires Wf(v, n) && FitsUsize(v)
    ensures JumpTarget(Fat(v, n)) > Rind(v, n)
  {
    var f := Fat(v, n);
    if f != 0 {
      TrailingZerosAfterLowBit(f);
    }
  }

  /**
   * `get_kth_left(k)`: the first node of the left spine from n whose label covers position k,
   * or the leaf at its end.
   */
  function KthLeft(v: seq<Str>, n: Node, k: nat): (m: Node)
    requires InRange(v, n)
    ensures InRange(v, m) && m.l == n.l && m.r <= n.r
    ensures (m.lind <= k <= Rind(v, m)) || IsLeaf(m)
    ensures n.lind <= k <= Rind(v, n) ==> m == n
    ensures m != n ==> !IsLeaf(n) && m.r < n.r
    decreases n.r - n.l
  {
    if n.lind <= k <= Rind(v, n) then n
    else if !IsLeaf(n) then KthLeft(v, Left(v, n), k)
    else n
  }

  /** `get_kth_right(k)`: the same along the right spine. */
  function KthRight(v: seq<Str>, n: Node, k: nat): (m: Node)
    requires InRange(v, n)
    ensures InRange(v, m) && m.r == n.r && n.l <= m.l
    ensures (m.lind <= k <= Rind(v, m)) || IsLeaf(m)
    ensures n.lind <= k <= Rind(v, n) ==> m == n
    ensures m != n ==> !IsLeaf(n) && n.l < m.l
    decreases n.r - n.l
  {
    if n.lind <= k <= Rind(v, n) then n
    else if !IsLeaf(n) then KthRight(v, Right(v, n), k)
    else n
  }

  lemma {:induction false} KthLeftBelow(v: seq<Str>, n: Node, k: nat)
    requires Wf(v, n)
    ensures Below(v, n, KthLeft(v, n, k))
    decreases n.r - n.l
  {
    if !(n.lind <= k <= Rind(v, n)) && !IsLeaf(n) {
      ChildWf(v, n, false);
      KthLeftBelow(v, Left(v, n), k);
    }
  }

  lemma {:induction false} KthRightBelow(v: seq<Str>, n: Node, k: nat)
    requires Wf(v, n)
    ensures Below(v, n, KthRight(v, n, k))
    decreases n.r - n.l
  {
    if !(n.lind <= k <= Rind(v, n)) && !IsLeaf(n) {
      ChildWf(v, n, true);
      KthRightBelow(v, Right(v, n), k);
    }
  }

  /** Where the jump_left pointer of an internal node leads. */
  function JumpLeft(v: seq<Str>, n: Node): Node
    requires InRange(v, n) && n.lind <= Rind(v, n)
  {
    KthLeft(v, n, JumpTarget(Fat(v, n)))
  }

  /** Where the jump_right pointer of an internal node leads. */
  function JumpRight(v: seq<Str>, n: Node): Node
    requires InRange(v, n) && n.lind <= Rind(v, n)
  {
    KthRight(v, n, JumpTarget(Fat(v, n)))
  }

  /**
   * The jump_left pointer of an internal node leads strictly down its left spine, to a node
   * covering the jump target or to the leftmost leaf.
   */
  lemma JumpLeftDown(v: seq<Str>, n: Node)
    requires Wf(v, n) && !IsLeaf(n) && FitsUsize(v)
    ensures var m := JumpLeft(v, n);
      && Below(v, n, m) && m != n && m.l == n.l
      && (IsLeaf(m) || m.lind <= JumpTarget(Fat(v, n)) <= Rind(v, m))
  {
    JumpBeyond(v, n);
    KthLeftBelow(v, n, JumpTarget(Fat(v, n)));
  }

  /** The same for jump_right and the right spine. */
  lemma JumpRightDown(v: seq<Str>, n: Node)
    requires Wf(v, n) && !IsLeaf(n) && FitsUsize(v)
    ensures var m := JumpRight(v, n);
      && Below(v, n, m) && m != n && m.r == n.r
      && (IsLeaf(m) || m.lind <= JumpTarget(Fat(v, n)) <= Rind(v, m))
  {
    JumpBeyond(v, n);
    KthRightBelow(v, n, JumpTarget(Fat(v, n)));
  }
}
