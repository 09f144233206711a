/**
 * The two passes that finish the z-fast trie once its nodes are built (z_fast_trie.rs
 * `precalc_jumps`, 443-466, and `precalc_z_map`, 481-497). Both walk the tree from a node down
 * through its child links, first the left subtree and then the right one.
 *
 * `precalc_jumps` sets the two jump links of every internal node (KthLeft/KthRight of the jump
 * target); `precalc_z_map` records every internal node under its handle. The z-map is keyed by
 * the digest of the naive (identity) prefix hash, so its keys are the handles themselves.
 */
module ZFastPrecalc {
  import opened Wrappers
  import opened Strings
  import opened BitwiseOperations
  import opened TrieStructure
  import opened TrieHandles
  import opened ZFastNodes
  import opened ZFastBuild
  import NH = NaiveHash

  /** Two arenas that differ at most in the jump links of their records. */
  predicate SameRecords(a: seq<TrieNode>, b: seq<TrieNode>) {
    |a| == |b| && forall j :: 0 <= j < |a| ==> SameRecord(a[j], b[j])
  }

  /** Every index stands for a different node of the trie. */
  ghost predicate DistinctShapes(shape: seq<Node>) {
    forall a, b :: 0 <= a < b < |shape| ==> shape[a] != shape[b]
  }

  /** The jump links of internal node j are set, to earlier indices, where JumpLeft/JumpRight say. */
  ghost predicate JumpAt(v: seq<Str>, nodes: seq<TrieNode>, shape: seq<Node>, j: nat)
    requires |nodes| == |shape| && j < |nodes| && Wf(v, shape[j])
  {
    && Points(shape, nodes[j].jumpLeft, JumpLeft(v, shape[j])) && nodes[j].jumpLeft.value < j
    && Points(shape, nodes[j].jumpRight, JumpRight(v, shape[j])) && nodes[j].jumpRight.value < j
  }

  /** Changing only jump links keeps the arena standing for the same trie. */
  lemma RecordsKeepArena(v: seq<Str>, a: seq<TrieNode>, b: seq<TrieNode>, shape: seq<Node>)
    requires ArenaOk(v, a, shape) && SameRecords(a, b)
    ensures ArenaOk(v, b, shape) && AllLinked(b)
  {
    forall j | 0 <= j < |b|
      ensures NodeOk(v, b, shape, j)
    {
      assert NodeOk(v, a, shape, j);
    }
    ArenaLinked(v, b, shape);
  }

  /** Whatever is below one child of an internal node is not below the other one. */
  lemma ChildrenApart(v: seq<Str>, n: Node, m: Node)
    requires Wf(v, n) && !IsLeaf(n) && Below(v, Left(v, n), m)
    ensures !Below(v, Right(v, n), m)
  {
    ChildWf(v, n, false);
    ChildWf(v, n, true);
    MidSplits(v, n);
    BelowWf(v, Left(v, n), m);
    if Below(v, Right(v, n), m) {
      BelowWf(v, Right(v, n), m);
    }
  }

  // ---------------------------------------------------------------------------------------
  // precalc_jumps

  /**
   * precalc_jumps from index i: every internal node below node i gets its jump links, and
   * nothing else of the arena changes.
   */
  method PrecalcJumps(nodes: seq<TrieNode>, i: nat, ghost v: seq<Str>, ghost shape: seq<Node>)
    returns (nodes': seq<TrieNode>)
    requires ArenaOk(v, nodes, shape) && DistinctShapes(shape) && FitsUsize(v) && i < |nodes|
    ensures SameRecords(nodes, nodes')
    ensures forall j :: 0 <= j < |nodes| && (IsLeaf(shape[j]) || !Below(v, shape[i], shape[j])) ==>
      nodes'[j] == nodes[j]
    ensures forall j :: 0 <= j < |nodes| && Below(v, shape[i], shape[j]) && Wf(v, shape[j]) && !IsLeaf(shape[j]) ==>
      JumpAt(v, nodes', shape, j)
    decreases i
  {
    ArenaLinked(v, nodes, shape);
    NodeLinked(v, nodes, shape, i);
    assert NodeOk(v, nodes, shape, i);
    var k := GetFattest(GetRind(nodes, i), nodes[i].lind);
    var target := if k == 0 then UsizeMax else k + Pow2(TrailingZeros(k));
    if nodes[i].left.None? {
      return nodes;
    }
    var x, y := nodes[i].left.value, nodes[i].right.value;
    assert target == JumpTarget(Fat(v, shape[i]));
    var jl := GetKthLeft(nodes, i, target);
    KthLeftAgrees(v, nodes, shape, i, target);
    var n1 := nodes[i := nodes[i].(jumpLeft := Some(jl))];
    RecordsKeepArena(v, nodes, n1, shape);
    var n2 := PrecalcJumps(n1, x, v, shape);
    RecordsKeepArena(v, n1, n2, shape);
    var jr := GetKthRight(n2, i, target);
    KthRightAgrees(v, n2, shape, i, target);
    var n3 := n2[i := n2[i].(jumpRight := Some(jr))];
    RecordsKeepArena(v, n2, n3, shape);
    nodes' := PrecalcJumps(n3, y, v, shape);
    JumpLeftDown(v, shape[i]);
    JumpRightDown(v, shape[i]);
    assert jl < i && shape[jl] == JumpLeft(v, shape[i]);
    assert jr < i && shape[jr] == JumpRight(v, shape[i]);
    assert SameRecords(n1, n2) && SameRecords(n3, nodes');
    JumpsStep(v, nodes, shape, i, x, y, jl, n1, n2, jr, n3, nodes');
  }

  /** What one call of precalc_jumps at internal node i has done, and what its two recursive calls promise. */
  ghost predicate JumpsState(v: seq<Str>, nodes: seq<TrieNode>, shape: seq<Node>, i: nat, x: nat, y: nat,
                             jl: nat, n1: seq<TrieNode>, n2: seq<TrieNode>, jr: nat, n3: seq<TrieNode>,
                             n4: seq<TrieNode>)
  {
    && |nodes| == |shape| && DistinctShapes(shape) && i < |nodes|
    && |n1| == |nodes| && |n2| == |nodes| && |n3| == |nodes| && |n4| == |nodes|
    && Wf(v, shape[i]) && !IsLeaf(shape[i])
    && x < |shape| && shape[x] == Left(v, shape[i])
    && y < |shape| && shape[y] == Right(v, shape[i])
    && jl < i && shape[jl] == JumpLeft(v, shape[i])
    && jr < i && shape[jr] == JumpRight(v, shape[i])
    && n1 == nodes[i := nodes[i].(jumpLeft := Some(jl))]
    && n3 == n2[i := n2[i].(jumpRight := Some(jr))]
    && SameRecords(n1, n2) && SameRecords(n3, n4)
    && (forall j :: 0 <= j < |nodes| && (IsLeaf(shape[j]) || !Below(v, shape[x], shape[j])) ==>
         n2[j] == n1[j])
    && (forall j :: 0 <= j < |nodes| && Below(v, shape[x], shape[j]) && Wf(v, shape[j]) && !IsLeaf(shape[j]) ==>
         JumpAt(v, n2, shape, j))
    && (forall j :: 0 <= j < |nodes| && (IsLeaf(shape[j]) || !Below(v, shape[y], shape[j])) ==>
         n4[j] == n3[j])
    && (forall j :: 0 <= j < |nodes| && Below(v, shape[y], shape[j]) && Wf(v, shape[j]) && !IsLeaf(shape[j]) ==>
         JumpAt(v, n4, shape, j))
  }

  lemma JumpsStep(v: seq<Str>, nodes: seq<TrieNode>, shape: seq<Node>, i: nat, x: nat, y: nat,
                  jl: nat, n1: seq<TrieNode>, n2: seq<TrieNode>, jr: nat, n3: seq<TrieNode>,
                  n4: seq<TrieNode>)
    requires JumpsState(v, nodes, shape, i, x, y, jl, n1, n2, jr, n3, n4)
    ensures SameRecords(nodes, n4)
    ensures forall j :: 0 <= j < |nodes| && (IsLeaf(shape[j]) || !Below(v, shape[i], shape[j])) ==>
      n4[j] == nodes[j]
    ensures forall j :: 0 <= j < |nodes| && Below(v, shape[i], shape[j]) && Wf(v, shape[j]) && !IsLeaf(shape[j]) ==>
      JumpAt(v, n4, shape, j)
  {
    var p := shape[i];
    NotBelowChild(v, p, false);
    NotBelowChild(v, p, true);
    assert n4[i] == n3[i];
    assert n2[i] == n1[i];
    assert JumpAt(v, n4, shape, i);
    forall j | 0 <= j < |nodes| && (IsLeaf(shape[j]) || !Below(v, p, shape[j]))
      ensures n4[j] == nodes[j]
    {
      JumpsFrame(v, nodes, shape, i, x, y, jl, n1, n2, jr, n3, n4, j);
    }
    forall j | 0 <= j < |nodes| && Below(v, p, shape[j]) && Wf(v, shape[j]) && !IsLeaf(shape[j])
      ensures JumpAt(v, n4, shape, j)
    {
      if j != i {
        JumpsBelow(v, nodes, shape, i, x, y, jl, n1, n2, jr, n3, n4, j);
      }
    }
  }

  lemma JumpsFrame(v: seq<Str>, nodes: seq<TrieNode>, shape: seq<Node>, i: nat, x: nat, y: nat,
                   jl: nat, n1: seq<TrieNode>, n2: seq<TrieNode>, jr: nat, n3: seq<TrieNode>,
                   n4: seq<TrieNode>, j: nat)
    requires JumpsState(v, nodes, shape, i, x, y, jl, n1, n2, jr, n3, n4)
    requires j < |nodes| && (IsLeaf(shape[j]) || !Below(v, shape[i], shape[j]))
    ensures n4[j] == nodes[j]
  {
    var p := shape[i];
    if Below(v, Left(v, p), shape[j]) {
      BelowChild(v, p, false, shape[j]);
    }
    if Below(v, Right(v, p), shape[j]) {
      BelowChild(v, p, true, shape[j]);
    }
  }

  lemma JumpsBelow(v: seq<Str>, nodes: seq<TrieNode>, shape: seq<Node>, i: nat, x: nat, y: nat,
                   jl: nat, n1: seq<TrieNode>, n2: seq<TrieNode>, jr: nat, n3: seq<TrieNode>,
                   n4: seq<TrieNode>, j: nat)
    requires JumpsState(v, nodes, shape, i, x, y, jl, n1, n2, jr, n3, n4)
    requires j < |nodes| && j != i && Below(v, shape[i], shape[j]) && Wf(v, shape[j]) && !IsLeaf(shape[j])
    ensures JumpAt(v, n4, shape, j)
  {
    var p := shape[i];
    assert shape[j] != p;
    if Below(v, Left(v, p), shape[j]) {
      ChildrenApart(v, p, shape[j]);
      assert n4[j] == n3[j] == n2[j];
    }
  }

  /** A node is not below either of its children. */
  lemma NotBelowChild(v: seq<Str>, p: Node, bit: bool)
    requires Wf(v, p) && !IsLeaf(p)
    ensures !Below(v, Child(v, p, bit), p)
  {
    ChildWf(v, p, bit);
    if Below(v, Child(v, p, bit), p) {
      BelowWf(v, Child(v, p, bit), p);
    }
  }

  // ---------------------------------------------------------------------------------------
  // precalc_z_map

  /** Every entry of the z-map sends a handle to an index standing for the internal node with that handle. */
  ghost predicate ZMapSound(v: seq<Str>, shape: seq<Node>, zMap: map<Str, nat>) {
    forall h :: h in zMap ==>
      && zMap[h] < |shape| && IsNode(v, shape[zMap[h]]) && Wf(v, shape[zMap[h]])
      && !IsLeaf(shape[zMap[h]]) && Handle(v, shape[zMap[h]]) == h
  }

  /**
   * precalc_z_map from index i: the handle of every internal node below node i becomes a key
   * of the z-map, earlier keys stay, and every entry still leads to the node with its handle.
   */
  method PrecalcZMap(nodes: seq<TrieNode>, i: nat, zMap: map<Str, nat>, ghost v: seq<Str>, ghost shape: seq<Node>)
    returns (zMap': map<Str, nat>)
    requires ArenaOk(v, nodes, shape) && i < |nodes| && IsNode(v, shape[i])
    requires ZMapSound(v, shape, zMap)
    ensures ZMapSound(v, shape, zMap')
    ensures zMap.Keys <= zMap'.Keys
    ensures forall m :: Below(v, shape[i], m) && Wf(v, m) && !IsLeaf(m) ==> Handle(v, m) in zMap'
    decreases i
  {
    zMap' := InsertHandle(nodes, i, zMap, v, shape);
    assert NodeOk(v, nodes, shape, i);
    if nodes[i].left.Some? {
      var x := nodes[i].left.value;
      ChildBelow(v, Root(v), shape[i], false);
      var z1 := PrecalcZMap(nodes, x, zMap', v, shape);
      var y := nodes[i].right.value;
      ChildBelow(v, Root(v), shape[i], true);
      var z2 := PrecalcZMap(nodes, y, z1, v, shape);
      assert shape[x] == Left(v, shape[i]) && shape[y] == Right(v, shape[i]);
      ZMapStep(v, shape, shape[i], zMap', z1, z2);
      zMap' := z2;
    }
  }

  /** The first step of precalc_z_map at index i: an internal node enters its handle. */
  method InsertHandle(nodes: seq<TrieNode>, i: nat, zMap: map<Str, nat>, ghost v: seq<Str>, ghost shape: seq<Node>)
    returns (zMap': map<Str, nat>)
    requires ArenaOk(v, nodes, shape) && i < |nodes| && IsNode(v, shape[i])
    requires ZMapSound(v, shape, zMap)
    ensures ZMapSound(v, shape, zMap')
    ensures zMap.Keys <= zMap'.Keys
    ensures Wf(v, shape[i]) && (!IsLeaf(shape[i]) ==> Handle(v, shape[i]) in zMap')
  {
    ArenaLinked(v, nodes, shape);
    HandleAgrees(v, nodes, shape, i);
    assert NodeOk(v, nodes, shape, i);
    var h := GetHandle(nodes, i);
    zMap' := zMap;
    if h.Some? {
      var key := NH.NaiveHash().SlowPrefixHash(h.value, |h.value|);
      assert key == h.value[..|h.value|] == h.value;
      zMap' := zMap'[key := i];
    }
  }

  /** The keys the two recursive calls of precalc_z_map add cover the internal nodes below node p. */
  lemma ZMapStep(v: seq<Str>, shape: seq<Node>, p: Node, z0: map<Str, nat>, z1: map<Str, nat>, z2: map<Str, nat>)
    requires Wf(v, p) && !IsLeaf(p) && Handle(v, p) in z0
    requires z0.Keys <= z1.Keys <= z2.Keys
    requires forall m :: Below(v, Left(v, p), m) && Wf(v, m) && !IsLeaf(m) ==> Handle(v, m) in z1
    requires forall m :: Below(v, Right(v, p), m) && Wf(v, m) && !IsLeaf(m) ==> Handle(v, m) in z2
    ensures forall m :: Below(v, p, m) && Wf(v, m) && !IsLeaf(m) ==> Handle(v, m) in z2
  {
  }
}
