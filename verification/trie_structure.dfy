/**
 * The compacted binary trie that every tree builder of tries/ constructs from a sorted input v
 * (compact_trie.rs `TrieNode::new`, z_fast_trie.rs and z_fast_trie_sux.rs `build_tree`).
 *
 * A node is identified by the keys v[l..r) below it and the position `lind` at which its label
 * starts. The root is Node(0, |v|, 0). An internal node whose keys share their first `rind`
 * bits (its extent) and differ at bit `rind` has the children Node(l, mid, rind + 1) and
 * Node(mid, r, rind + 1), where v[mid] is the first key with bit `rind` set; a leaf holds one
 * key, which is its extent. The name of a node is the first `lind` bits of its extent.
 */
module TrieStructure {
  import opened Strings
  import opened SortedStrings
  import opened NaiveTrie

  /** No key of v[l..r) is a prefix of a later one; on sorted keys this makes them distinct. */
  predicate RangePrefixFree(v: seq<Str>, l: nat, r: nat) {
    r <= |v| && forall i, j :: l <= i < j < r ==> !IsPrefix(v[i], v[j])
  }

  /** The inputs a tree is built from without panicking: non-empty, sorted and prefix-free. */
  predicate Keys(v: seq<Str>) {
    |v| >= 1 && Sorted(v) && RangePrefixFree(v, 0, |v|)
  }

  datatype Node = Node(l: nat, r: nat, lind: nat)

  function Root(v: seq<Str>): Node {
    Node(0, |v|, 0)
  }

  predicate InRange(v: seq<Str>, n: Node) {
    n.l < n.r <= |v|
  }

  predicate IsLeaf(n: Node) {
    n.r == n.l + 1
  }

  /** Length of the extent: the key itself for a leaf, the common prefix of the keys otherwise. */
  function Rind(v: seq<Str>, n: Node): (d: nat)
    requires InRange(v, n)
    ensures d <= |v[n.l]|
  {
    if IsLeaf(n) then |v[n.l]| else CommonPrefixLength(v[n.l], v[n.r - 1])
  }

  function Extent(v: seq<Str>, n: Node): Str
    requires InRange(v, n)
  {
    v[n.l][..Rind(v, n)]
  }

  function Name(v: seq<Str>, n: Node): Str
    requires InRange(v, n) && n.lind <= Rind(v, n)
  {
    v[n.l][..n.lind]
  }

  /** Every key of the node begins with its extent. */
  ghost predicate AllExtend(v: seq<Str>, n: Node)
    requires InRange(v, n)
  {
    forall i :: n.l <= i < n.r ==> IsPrefix(Extent(v, n), v[i])
  }

  /** The keys that begin with the node's name are exactly its keys. */
  ghost predicate NameComplete(v: seq<Str>, n: Node)
    requires InRange(v, n) && n.lind <= Rind(v, n)
  {
    forall i :: 0 <= i < |v| && IsPrefix(Name(v, n), v[i]) ==> n.l <= i < n.r
  }

  /**
   * A well-formed node of a sorted sequence: its keys are prefix-free, its label starts no
   * later than it ends, its keys all begin with its extent, and they are exactly the keys that
   * begin with its name.
   */
  ghost predicate Wf(v: seq<Str>, n: Node) {
    && Sorted(v)
    && InRange(v, n)
    && RangePrefixFree(v, n.l, n.r)
    && n.lind <= Rind(v, n)
    && AllExtend(v, n)
    && NameComplete(v, n)
  }

  // ---------------------------------------------------------------------------------------
  // Keys.

  /** Sorted prefix-free keys are strictly increasing and neither is a prefix of the other. */
  lemma KeysIncrease(v: seq<Str>, l: nat, r: nat, i: nat, j: nat)
    requires Sorted(v) && RangePrefixFree(v, l, r) && l <= i < j < r
    ensures Lt(v[i], v[j]) && !IsPrefix(v[i], v[j]) && !IsPrefix(v[j], v[i])
  {
    assert Le(v[i], v[j]);
    if IsPrefix(v[j], v[i]) {
      PrefixLe(v[j], v[i]);
      LeAntisymmetric(v[i], v[j]);
    }
  }

  /** Two such keys differ at their common prefix length, the smaller with a 0 there. */
  lemma KeysDiffer(v: seq<Str>, l: nat, r: nat, i: nat, j: nat)
    requires Sorted(v) && RangePrefixFree(v, l, r) && l <= i < j < r
    ensures var d := CommonPrefixLength(v[i], v[j]);
      d < |v[i]| && d < |v[j]| && v[i][..d] == v[j][..d] && !v[i][d] && v[j][d]
  {
    KeysIncrease(v, l, r, i, j);
    LtDifference(v[i], v[j]);
  }

  /** The keys of a sorted range share the common prefix of its first and last key. */
  lemma RangeSharesPrefix(v: seq<Str>, l: nat, r: nat)
    requires Sorted(v) && l < r <= |v|
    ensures var d := CommonPrefixLength(v[l], v[r - 1]);
      forall i :: l <= i < r ==> IsPrefix(v[l][..d], v[i])
  {
    var d := CommonPrefixLength(v[l], v[r - 1]);
    forall i | l <= i < r
      ensures IsPrefix(v[l][..d], v[i])
    {
      if l < i {
        assert Le(v[l], v[i]);
      }
      if i < r - 1 {
        assert Le(v[i], v[r - 1]);
      }
      BetweenSharesPrefix(v[l], v[i], v[r - 1], d);
    }
  }

  /** In a sorted sequence, every key of a range begins with the range's extent. */
  lemma RangeAllExtend(v: seq<Str>, n: Node)
    requires Sorted(v) && InRange(v, n)
    ensures AllExtend(v, n)
  {
    if !IsLeaf(n) {
      RangeSharesPrefix(v, n.l, n.r);
    }
  }

  lemma RootWf(v: seq<Str>)
    requires Keys(v)
    ensures Wf(v, Root(v))
  {
    RangeAllExtend(v, Root(v));
  }

  // ---------------------------------------------------------------------------------------
  // Internal nodes and their children.

  /** Below an internal node every key has a bit at position rind, and these bits do not decrease. */
  lemma InternalBits(v: seq<Str>, n: Node)
    requires Wf(v, n) && !IsLeaf(n)
    ensures var d := Rind(v, n);
      && (forall i :: n.l <= i < n.r ==> d < |v[i]|)
      && !v[n.l][d] && v[n.r - 1][d]
      && (forall i, j :: n.l <= i < j < n.r && v[i][d] ==> v[j][d])
  {
    var d := Rind(v, n);
    KeysDiffer(v, n.l, n.r, n.l, n.r - 1);
    forall i | n.l <= i < n.r
      ensures d < |v[i]|
    {
      assert IsPrefix(Extent(v, n), v[i]);
    }
    forall i, j | n.l <= i < j < n.r && v[i][d]
      ensures v[j][d]
    {
      assert IsPrefix(Extent(v, n), v[i]) && IsPrefix(Extent(v, n), v[j]);
      assert v[i][..d] == v[j][..d];
      if !v[j][d] {
        CmpAtDifference(v[i], v[j], d);
        KeysIncrease(v, n.l, n.r, i, j);
      }
    }
  }

  /** First position in [i, hi) of a key whose bit d is set, or hi when there is none. */
  function MidFrom(v: seq<Str>, d: nat, i: nat, hi: nat): (m: nat)
    requires i <= hi <= |v|
    ensures i <= m <= hi
    ensures forall k :: i <= k < m ==> !(d < |v[k]| && v[k][d])
    ensures m < hi ==> d < |v[m]| && v[m][d]
    decreases hi - i
  {
    if i == hi || (d < |v[i]| && v[i][d]) then i else MidFrom(v, d, i + 1, hi)
  }

  /**
   * Where an internal node splits its keys: the first key with bit rind set, searched for
   * between the first and the last key, which are known to lie on either side.
   */
  function Mid(v: seq<Str>, n: Node): (m: nat)
    requires InRange(v, n) && !IsLeaf(n)
    ensures n.l < m < n.r
  {
    MidFrom(v, Rind(v, n), n.l + 1, n.r - 1)
  }

  /** Of the keys of an internal node, those before Mid have bit rind unset, the others set. */
  lemma MidSplits(v: seq<Str>, n: Node)
    requires Wf(v, n) && !IsLeaf(n)
    ensures forall i :: n.l <= i < Mid(v, n) ==> Rind(v, n) < |v[i]| && !v[i][Rind(v, n)]
    ensures forall i :: Mid(v, n) <= i < n.r ==> Rind(v, n) < |v[i]| && v[i][Rind(v, n)]
  {
    InternalBits(v, n);
  }

  function Left(v: seq<Str>, n: Node): Node
    requires InRange(v, n) && !IsLeaf(n)
  {
    Node(n.l, Mid(v, n), Rind(v, n) + 1)
  }

  function Right(v: seq<Str>, n: Node): Node
    requires InRange(v, n) && !IsLeaf(n)
  {
    Node(Mid(v, n), n.r, Rind(v, n) + 1)
  }

  /** The child an internal node leads to when the next bit is `bit`. */
  function Child(v: seq<Str>, n: Node, bit: bool): Node
    requires InRange(v, n) && !IsLeaf(n)
  {
    if bit then Right(v, n) else Left(v, n)
  }

  /** The keys of a child are the keys of its parent whose bit rind is the child's bit. */
  lemma ChildKeys(v: seq<Str>, n: Node, bit: bool)
    requires Wf(v, n) && !IsLeaf(n)
    ensures var c := Child(v, n, bit);
      && n.l <= c.l < c.r <= n.r && c.r - c.l < n.r - n.l
      && (forall i :: c.l <= i < c.r ==> IsPrefix(Extent(v, n) + [bit], v[i]))
      && (forall i :: n.l <= i < n.r && v[i][Rind(v, n)] == bit ==> c.l <= i < c.r)
  {
    var c := Child(v, n, bit);
    var d := Rind(v, n);
    var e := Extent(v, n);
    MidSplits(v, n);
    forall i | c.l <= i < c.r
      ensures IsPrefix(e + [bit], v[i])
    {
      assert IsPrefix(e, v[i]) && v[i][d] == bit;
      assert v[i][..d + 1] == v[i][..d] + [v[i][d]];
    }
  }

  /** Around the middle of an internal node, the last key on the left takes bit 0 after the extent, the first on the right bit 1. */
  lemma MidNeighbours(v: seq<Str>, n: Node)
    requires Wf(v, n) && !IsLeaf(n)
    ensures var m := Mid(v, n);
      0 < m < |v| && IsPrefix(Extent(v, n) + [false], v[m - 1]) && IsPrefix(Extent(v, n) + [true], v[m])
  {
    ChildKeys(v, n, false);
    ChildKeys(v, n, true);
  }

  /** A child's extent is at least one bit longer than its parent's. */
  lemma ChildRind(v: seq<Str>, n: Node, bit: bool)
    requires Wf(v, n) && !IsLeaf(n)
    ensures var c := Child(v, n, bit);
      InRange(v, c) && Rind(v, c) >= Rind(v, n) + 1 && v[c.l][..Rind(v, n) + 1] == Extent(v, n) + [bit]
  {
    var c := Child(v, n, bit);
    var k := Rind(v, n) + 1;
    ChildKeys(v, n, bit);
    assert IsPrefix(Extent(v, n) + [bit], v[c.l]);
    if !IsLeaf(c) {
      assert IsPrefix(Extent(v, n) + [bit], v[c.r - 1]);
      CommonPrefixAtLeast(v[c.l], v[c.r - 1], k);
    }
  }

  /** A child is well formed, and its name is its parent's extent followed by its bit. */
  lemma ChildWf(v: seq<Str>, n: Node, bit: bool)
    requires Wf(v, n) && !IsLeaf(n)
    ensures var c := Child(v, n, bit);
      && Wf(v, c)
      && c.lind == Rind(v, n) + 1
      && Name(v, c) == Extent(v, n) + [bit]
      && n.l <= c.l < c.r <= n.r && c.r - c.l < n.r - n.l
  {
    var c := Child(v, n, bit);
    var d := Rind(v, n);
    ChildKeys(v, n, bit);
    ChildRind(v, n, bit);
    RangeAllExtend(v, c);
    assert c.lind == d + 1;
    var name := Name(v, c);
    assert name == Extent(v, n) + [bit];
    forall i | 0 <= i < |v| && IsPrefix(name, v[i])
      ensures c.l <= i < c.r
    {
      ChildNameComplete(v, n, bit, i);
    }
  }

  /** The keys that begin with a child's name are keys of the child. */
  lemma ChildNameComplete(v: seq<Str>, n: Node, bit: bool, i: nat)
    requires Wf(v, n) && !IsLeaf(n) && i < |v|
    requires IsPrefix(Extent(v, n) + [bit], v[i])
    ensures Child(v, n, bit).l <= i < Child(v, n, bit).r
  {
    var d := Rind(v, n);
    assert IsPrefix(Name(v, n), v[i]) by {
      assert Name(v, n) == (Extent(v, n) + [bit])[..n.lind];
    }
    assert v[i][d] == (Extent(v, n) + [bit])[d];
    ChildKeys(v, n, bit);
  }

  /** A node keeps its keys, and stays well formed, when its label is made to start later. */
  lemma LaterLabelWf(v: seq<Str>, n: Node, lind: nat)
    requires Wf(v, n) && n.lind <= lind <= Rind(v, n)
    ensures Wf(v, Node(n.l, n.r, lind))
    ensures Rind(v, Node(n.l, n.r, lind)) == Rind(v, n)
  {
    var m := Node(n.l, n.r, lind);
    forall i | 0 <= i < |v| && IsPrefix(Name(v, m), v[i])
      ensures n.l <= i < n.r
    {
      assert Name(v, n) == Name(v, m)[..n.lind];
    }
  }

  // ---------------------------------------------------------------------------------------
  // What the tree builders rely on.

  /** The keys v[l..r) share their first ind bits. */
  ghost predicate SharePrefix(v: seq<Str>, l: nat, r: nat, ind: nat)
    requires r <= |v|
  {
    forall k :: l <= k < r ==> ind <= |v[k]| && ind <= |v[l]| && v[k][..ind] == v[l][..ind]
  }

  /** In a sorted range sharing ind bits, a first key longer than ind makes every key longer. */
  lemma SharedPrefixLonger(v: seq<Str>, l: nat, r: nat, ind: nat)
    requires Sorted(v) && l < r <= |v| && SharePrefix(v, l, r, ind) && ind < |v[l]|
    ensures forall k :: l <= k < r ==> ind < |v[k]|
  {
    forall k | l < k < r
      ensures ind < |v[k]|
    {
      if |v[k]| == ind {
        assert v[k] == v[l][..ind];
        assert ProperPrefix(v[k], v[l]);
        PrefixLe(v[k], v[l]);
        assert Le(v[l], v[k]);
        LeAntisymmetric(v[l], v[k]);
      }
    }
  }

  /** In a sorted range sharing ind bits, once bit ind is set it stays set. */
  lemma BitStaysSet(v: seq<Str>, l: nat, r: nat, ind: nat, j: nat, k: nat)
    requires Sorted(v) && l <= j < k < r <= |v| && SharePrefix(v, l, r, ind)
    requires ind < |v[j]| && ind < |v[k]| && v[j][ind]
    ensures v[k][ind]
  {
    assert v[j][..ind] == v[k][..ind];
    if !v[k][ind] {
      CmpAtDifference(v[j], v[k], ind);
      assert Le(v[j], v[k]);
      CmpAntisymmetric(v[j], v[k]);
    }
  }

  /** Keys that share ind bits and agree on bit ind share ind + 1 bits. */
  lemma ShareOneMore(v: seq<Str>, l: nat, r: nat, ind: nat, b: bool)
    requires l < r <= |v| && SharePrefix(v, l, r, ind)
    requires forall k :: l <= k < r ==> ind < |v[k]| && v[k][ind] == b
    ensures SharePrefix(v, l, r, ind + 1)
  {
    forall k | l <= k < r
      ensures v[k][..ind + 1] == v[l][..ind + 1]
    {
      assert v[k][..ind + 1] == v[k][..ind] + [v[k][ind]];
      assert v[l][..ind + 1] == v[l][..ind] + [v[l][ind]];
    }
  }

  /** Two prefix-free ranges whose keys differ at bit ind make a prefix-free range. */
  lemma PrefixFreeJoin(v: seq<Str>, l: nat, mid: nat, r: nat, ind: nat)
    requires l <= mid <= r <= |v| && SharePrefix(v, l, r, ind)
    requires forall k :: l <= k < r ==> ind < |v[k]| && (v[k][ind] <==> mid <= k)
    ensures RangePrefixFree(v, l, r) <==> RangePrefixFree(v, l, mid) && RangePrefixFree(v, mid, r)
  {
    forall i, j | l <= i < mid <= j < r
      ensures !IsPrefix(v[i], v[j])
    {
      assert v[i][..ind] == v[j][..ind];
    }
  }

  /** A range whose keys split at bit ind has extent length ind and splits at mid. */
  lemma SplitAt(v: seq<Str>, l: nat, mid: nat, r: nat, ind: nat)
    requires l < mid < r <= |v| && SharePrefix(v, l, r, ind)
    requires forall k :: l <= k < r ==> ind < |v[k]| && (v[k][ind] <==> mid <= k)
    ensures Rind(v, Node(l, r, ind)) == ind && Mid(v, Node(l, r, ind)) == mid
  {
    var n := Node(l, r, ind);
    assert ind < |v[l]| && !v[l][ind];
    assert ind < |v[r - 1]| && v[r - 1][ind];
    assert v[l][..ind] == v[r - 1][..ind];
    CommonPrefixLengthUnique(v[l], v[r - 1], ind);
    assert ind < |v[mid]| && v[mid][ind];
  }

  // ---------------------------------------------------------------------------------------
  // The nodes of the tree.

  /** n is p or a descendant of p. */
  ghost predicate Below(v: seq<Str>, p: Node, n: Node)
    decreases p.r - p.l
  {
    && Wf(v, p)
    && (n == p || (!IsLeaf(p) && (Below(v, Left(v, p), n) || Below(v, Right(v, p), n))))
  }

  /** n is a node of the trie built from v. */
  ghost predicate IsNode(v: seq<Str>, n: Node) {
    Below(v, Root(v), n)
  }

  /** What is below a child of n is below n. */
  lemma BelowChild(v: seq<Str>, n: Node, bit: bool, m: Node)
    requires Wf(v, n) && !IsLeaf(n) && Below(v, Child(v, n, bit), m)
    ensures Below(v, n, m)
  {
    ChildWf(v, n, false);
    ChildWf(v, n, true);
  }

  lemma {:induction false} BelowWf(v: seq<Str>, p: Node, n: Node)
    requires Below(v, p, n)
    ensures Wf(v, n)
    ensures p.l <= n.l < n.r <= p.r && p.lind <= n.lind
    ensures IsPrefix(Name(v, p), Name(v, n))
    ensures n != p ==> !IsLeaf(p) && ProperPrefix(Extent(v, p), Name(v, n))
    decreases p.r - p.l
  {
    if n != p {
      ChildWf(v, p, false);
      ChildWf(v, p, true);
      var bit := Below(v, Right(v, p), n);
      var c := Child(v, p, bit);
      BelowWf(v, c, n);
      var e := Extent(v, p);
      assert IsPrefix(Name(v, p), e);
      assert IsPrefix(e, e + [bit]);
      PrefixTransitive(e, e + [bit], Name(v, n));
      PrefixTransitive(Name(v, p), e, Name(v, n));
    }
  }

  lemma {:induction false} BelowTransitive(v: seq<Str>, a: Node, b: Node, c: Node)
    requires Below(v, a, b) && Below(v, b, c)
    ensures Below(v, a, c)
    decreases a.r - a.l
  {
    if b != a {
      if Below(v, Left(v, a), b) {
        BelowTransitive(v, Left(v, a), b, c);
      } else {
        BelowTransitive(v, Right(v, a), b, c);
      }
    }
  }

  /** The only node of the trie whose label starts at position 0 is the root. */
  lemma RootOnlyAtZero(v: seq<Str>, n: Node)
    requires IsNode(v, n) && n.lind == 0
    ensures n == Root(v)
  {
    BelowWf(v, Root(v), n);
  }

  /** The children of a node below p are below p. */
  lemma {:induction false} ChildBelow(v: seq<Str>, p: Node, n: Node, bit: bool)
    requires Below(v, p, n) && !IsLeaf(n)
    ensures Wf(v, n) && Below(v, p, Child(v, n, bit))
    decreases p.r - p.l
  {
    BelowWf(v, p, n);
    ChildWf(v, n, bit);
    ChildWf(v, p, false);
    ChildWf(v, p, true);
    var c := Child(v, n, bit);
    if n == p {
      assert Below(v, c, c);
    } else if Below(v, Left(v, p), n) {
      ChildBelow(v, Left(v, p), n, bit);
    } else {
      ChildBelow(v, Right(v, p), n, bit);
    }
  }

  // ---------------------------------------------------------------------------------------
  // The path of a query string and its exit node.

  /** The descent towards x goes on below n: n is internal and its extent a proper prefix of x. */
  predicate Descends(v: seq<Str>, n: Node, x: Str)
    requires InRange(v, n)
  {
    !IsLeaf(n) && ProperPrefix(Extent(v, n), x)
  }

  /** The child the descent towards x moves to from n: the one named by the bit after the extent. */
  function Next(v: seq<Str>, n: Node, x: Str): (c: Node)
    requires InRange(v, n) && Descends(v, n, x)
    ensures InRange(v, c) && n.l <= c.l && c.r <= n.r && c.r - c.l < n.r - n.l
  {
    Child(v, n, x[Rind(v, n)])
  }

  /**
   * The node of the path of x from n whose label reaches position f: the descent stops at the
   * first node whose extent is at least f bits long, or where the path ends.
   */
  function DescendTo(v: seq<Str>, n: Node, x: Str, f: nat): (c: Node)
    requires InRange(v, n)
    ensures InRange(v, c) && n.l <= c.l && c.r <= n.r
    decreases n.r - n.l
  {
    if Descends(v, n, x) && Rind(v, n) < f then DescendTo(v, Next(v, n, x), x, f) else n
  }

  /** The exit node of x: the last node of its path from the root. */
  function Exit(v: seq<Str>, x: Str): (e: Node)
    requires |v| >= 1
    ensures InRange(v, e)
  {
    DescendTo(v, Root(v), x, |x|)
  }

  /** A node of the path of x: a node whose name is a prefix of x. */
  ghost predicate OnPath(v: seq<Str>, m: Node, x: Str) {
    IsNode(v, m) && Wf(v, m) && IsPrefix(Name(v, m), x)
  }

  /** A node at which the descent towards x stops. */
  ghost predicate Stops(v: seq<Str>, e: Node, x: Str) {
    Wf(v, e) && IsPrefix(Name(v, e), x) && !Descends(v, e, x)
  }

  /** The child the descent moves to is well formed and its name is a prefix of x. */
  lemma ChildOnWay(v: seq<Str>, n: Node, x: Str)
    requires Wf(v, n) && Descends(v, n, x)
    ensures var c := Next(v, n, x);
      Wf(v, c) && IsPrefix(Name(v, c), x) && c.lind == Rind(v, n) + 1
  {
    var bit := x[Rind(v, n)];
    ChildWf(v, n, bit);
    assert x[..Rind(v, n) + 1] == x[..Rind(v, n)] + [bit];
  }

  /**
   * The node the descent from n reaches for position f lies below n, its name is a prefix of x,
   * its label starts no later than f, and the descent either ends there or its extent reaches f.
   */
  lemma {:induction false} DescendFacts(v: seq<Str>, n: Node, x: Str, f: nat)
    requires Wf(v, n) && IsPrefix(Name(v, n), x) && n.lind <= f
    ensures var m := DescendTo(v, n, x, f);
      && Below(v, n, m) && Wf(v, m) && IsPrefix(Name(v, m), x)
      && m.lind <= f && (Descends(v, m, x) ==> f <= Rind(v, m))
    decreases n.r - n.l
  {
    if Descends(v, n, x) && Rind(v, n) < f {
      ChildOnWay(v, n, x);
      var c := Next(v, n, x);
      DescendFacts(v, c, x, f);
      BelowChild(v, n, x[Rind(v, n)], DescendTo(v, c, x, f));
    }
  }

  /** The exit node of x is a node of the trie at which the descent stops. */
  lemma ExitStops(v: seq<Str>, x: Str)
    requires Keys(v)
    ensures OnPath(v, Exit(v, x), x) && Stops(v, Exit(v, x), x)
  {
    RootWf(v);
    DescendFacts(v, Root(v), x, |x|);
  }

  /**
   * A node below n whose name is a prefix of x is where the descent from n arrives for every
   * position its label covers, and for every later one when the descent stops there.
   */
  lemma {:induction false} DescendFinds(v: seq<Str>, n: Node, m: Node, x: Str, f: nat)
    requires Below(v, n, m) && Wf(v, m) && IsPrefix(Name(v, m), x)
    requires m.lind <= f && (f <= Rind(v, m) || !Descends(v, m, x))
    ensures DescendTo(v, n, x, f) == m
    decreases n.r - n.l
  {
    if m != n {
      BelowWf(v, n, m);
      var bit := Below(v, Right(v, n), m);
      var c := Child(v, n, bit);
      ChildWf(v, n, bit);
      BelowWf(v, c, m);
      var e := Extent(v, n);
      assert IsPrefix(e + [bit], x) by {
        PrefixTransitive(Name(v, c), Name(v, m), x);
      }
      assert x[Rind(v, n)] == (e + [bit])[Rind(v, n)];
      assert ProperPrefix(e, x) by {
        assert IsPrefix(e, e + [bit]);
        PrefixTransitive(e, e + [bit], x);
      }
      assert Next(v, n, x) == c;
      DescendFinds(v, c, m, x, f);
    }
  }

  /** Along the path, the node reached for a later position lies below the one for an earlier one. */
  lemma {:induction false} DescendOrdered(v: seq<Str>, n: Node, x: Str, f1: nat, f2: nat)
    requires Wf(v, n) && IsPrefix(Name(v, n), x) && n.lind <= f1 <= f2
    ensures Below(v, DescendTo(v, n, x, f1), DescendTo(v, n, x, f2))
    decreases n.r - n.l
  {
    if Descends(v, n, x) && Rind(v, n) < f1 {
      ChildOnWay(v, n, x);
      DescendOrdered(v, Next(v, n, x), x, f1, f2);
    } else {
      DescendFacts(v, n, x, f2);
    }
  }

  /** Of two nodes on the path of x, one lies below the other. */
  lemma PathOrdered(v: seq<Str>, m1: Node, m2: Node, x: Str)
    requires Keys(v) && OnPath(v, m1, x) && OnPath(v, m2, x) && m1.lind <= m2.lind
    ensures Below(v, m1, m2)
  {
    RootWf(v);
    DescendFinds(v, Root(v), m1, x, m1.lind);
    DescendFinds(v, Root(v), m2, x, m2.lind);
    DescendOrdered(v, Root(v), x, m1.lind, m2.lind);
  }

  /** A node on the path of x at which the descent stops is the exit node. */
  lemma StopIsExit(v: seq<Str>, m: Node, x: Str)
    requires Keys(v) && OnPath(v, m, x) && !Descends(v, m, x)
    ensures m == Exit(v, x)
  {
    DescendFinds(v, Root(v), m, x, |x|);
  }

  // ---------------------------------------------------------------------------------------
  // What a stopping node tells about x.

  /** Keys left of a stopping node are less than x. */
  lemma StopLeft(v: seq<Str>, e: Node, x: Str, i: nat)
    requires Stops(v, e, x) && i < e.l
    ensures Lt(v[i], x)
  {
    var name := Name(v, e);
    assert IsPrefix(name, v[e.l]);
    assert Le(v[i], v[e.l]);
    BeforeExtensions(v[i], v[e.l], name, x);
  }

  /** Keys right of a stopping node are greater than x. */
  lemma StopRight(v: seq<Str>, e: Node, x: Str, i: nat)
    requires Stops(v, e, x) && e.r <= i < |v|
    ensures Lt(x, v[i])
  {
    var name := Name(v, e);
    assert IsPrefix(name, v[e.r - 1]) by {
      PrefixTransitive(name, Extent(v, e), v[e.r - 1]);
    }
    assert Le(v[e.r - 1], v[i]);
    AfterExtensions(v[i], v[e.r - 1], name, x);
  }

  /** The keys of a stopping node are all less than x, or none is, as its extent is or not. */
  lemma StopInside(v: seq<Str>, e: Node, x: Str, i: nat)
    requires Stops(v, e, x) && e.l <= i < e.r
    ensures Lt(v[i], x) <==> !Le(x, Extent(v, e))
  {
    var p := Extent(v, e);
    if IsLeaf(e) {
      assert v[i] == p;
      LtTotal(x, p);
      CmpAntisymmetric(x, p);
    } else {
      ExtensionVersusStop(p, v[i], x);
    }
  }

  /** The index of the first key not less than x is k when k has that property. */
  lemma LowerBoundUnique(v: seq<Str>, x: Str, k: nat)
    requires k <= |v|
    requires forall j :: 0 <= j < k ==> Lt(v[j], x)
    requires k < |v| ==> !Lt(v[k], x)
    ensures LowerBound(v, x) == k
  {
  }

  /**
   * Where the keys not less than x begin, read off a stopping node e: at its first key when x
   * is at most its extent, after its last key otherwise. The predecessor and successor queries
   * of the z-fast tries rest on this.
   */
  lemma StopLowerBound(v: seq<Str>, e: Node, x: Str)
    requires Stops(v, e, x)
    ensures LowerBound(v, x) == if Le(x, Extent(v, e)) then e.l else e.r
  {
    var k := if Le(x, Extent(v, e)) then e.l else e.r;
    forall j | 0 <= j < k
      ensures Lt(v[j], x)
    {
      if j < e.l {
        StopLeft(v, e, x, j);
      } else {
        StopInside(v, e, x, j);
      }
    }
    if k < |v| {
      if k == e.l {
        StopInside(v, e, x, k);
      } else {
        StopRight(v, e, x, k);
        CmpAntisymmetric(x, v[k]);
      }
    }
    LowerBoundUnique(v, x, k);
  }

  /** Some key begins with x exactly when x is a prefix of the extent of its stopping node. */
  lemma StopPrefix(v: seq<Str>, e: Node, x: Str)
    requires Stops(v, e, x)
    ensures (exists i :: 0 <= i < |v| && IsPrefix(x, v[i])) <==> IsPrefix(x, Extent(v, e))
  {
    var p := Extent(v, e);
    if IsPrefix(x, p) {
      PrefixTransitive(x, p, v[e.l]);
    }
    if i :| 0 <= i < |v| && IsPrefix(x, v[i]) {
      PrefixTransitive(Name(v, e), x, v[i]);
      assert IsPrefix(p, v[i]);
      if |x| <= |p| {
        PrefixesComparable(x, p, v[i]);
      } else {
        PrefixesComparable(p, x, v[i]);
      }
    }
  }
}
