/**
 * The z-fast trie with a succinct z-map (tries/z_fast_trie_sux.rs): the same compacted binary
 * trie as ZFastTrie, but its z-map is a minimal perfect hash static dictionary
 * (MinimalPerfectHashStaticDict) built once from the handles of the internal nodes, listed in
 * pre-order, and the node each handle belongs to. Such a dictionary answers every string, also
 * one that is no handle, with some stored node; the fat binary search filters those answers by
 * their handle length, and the handle check sends a misled search to `locate_parex`.
 *
 * The node records are those of ZFastNodes: a leaf's `prev` and `next` are its two jump links,
 * an internal node's `to_leaf` is its leaf link and a leaf's `to_internal` its back link.
 */
module ZFastTrieSux {
  import opened Wrappers
  import opened Strings
  import opened SortedStrings
  import opened NaiveTrie
  import opened BitwiseOperations
  import opened TrieStructure
  import opened TrieHandles
  import opened FatSearch
  import opened ZFastNodes
  import opened ZFastBuild
  import opened ZFastPrecalc
  import opened ZFastRange
  import opened ZFastTrie
  import M = MinimalPerfectHashStaticDict
  import RH = RollingHash

  // ---------------------------------------------------------------------------------------
  // The keys and values of the z-map.

  /**
   * The internal nodes below n in the order precalc_z_map visits them: n itself, then those
   * below its left child, then those below its right child.
   */
  ghost function PreOrder(v: seq<Str>, n: Node): (s: seq<Node>)
    ensures HaveHandles(v, s)
    decreases n.r - n.l
  {
    if Wf(v, n) && !IsLeaf(n) then [n] + PreOrder(v, Left(v, n)) + PreOrder(v, Right(v, n)) else []
  }

  /** An internal node lists itself, then the pre-orders of its children. */
  lemma PreOrderSplits(v: seq<Str>, p: Node)
    requires Wf(v, p) && !IsLeaf(p)
    ensures PreOrder(v, p) == [p] + PreOrder(v, Left(v, p)) + PreOrder(v, Right(v, p))
  {
  }

  /** The pre-order of n lists exactly the internal nodes below n. */
  lemma PreOrderMembers(v: seq<Str>, n: Node)
    ensures forall m :: m in PreOrder(v, n) <==> Below(v, n, m) && !IsLeaf(m)
  {
    forall m
      ensures m in PreOrder(v, n) <==> Below(v, n, m) && !IsLeaf(m)
    {
      if m in PreOrder(v, n) {
        ListedIsBelow(v, n, m);
      }
      if Below(v, n, m) && !IsLeaf(m) {
        BelowIsListed(v, n, m);
      }
    }
  }

  /** What the pre-order of n lists is an internal node below n. */
  lemma {:induction false} ListedIsBelow(v: seq<Str>, n: Node, m: Node)
    requires m in PreOrder(v, n)
    ensures Below(v, n, m) && !IsLeaf(m)
    decreases n.r - n.l
  {
    if m != n {
      ChildWf(v, n, false);
      ChildWf(v, n, true);
      if m in PreOrder(v, Left(v, n)) {
        ListedIsBelow(v, Left(v, n), m);
      } else {
        ListedIsBelow(v, Right(v, n), m);
      }
    }
  }

  /** Every internal node below n is listed in the pre-order of n. */
  lemma {:induction false} BelowIsListed(v: seq<Str>, n: Node, m: Node)
    requires Below(v, n, m) && !IsLeaf(m)
    ensures m in PreOrder(v, n)
    decreases n.r - n.l
  {
    if m != n {
      ChildWf(v, n, false);
      ChildWf(v, n, true);
      if Below(v, Left(v, n), m) {
        BelowIsListed(v, Left(v, n), m);
      } else {
        BelowIsListed(v, Right(v, n), m);
      }
    }
  }

  /** A trie over the keys v[n.l..n.r) has one internal node fewer than it has keys. */
  lemma {:induction false} PreOrderCount(v: seq<Str>, n: Node)
    requires Wf(v, n)
    ensures |PreOrder(v, n)| == n.r - n.l - 1
    decreases n.r - n.l
  {
    if !IsLeaf(n) {
      ChildWf(v, n, false);
      ChildWf(v, n, true);
      PreOrderCount(v, Left(v, n));
      PreOrderCount(v, Right(v, n));
    }
  }

  /** Every node of ns has a handle: its name is no longer than its extent. */
  ghost predicate HaveHandles(v: seq<Str>, ns: seq<Node>) {
    forall m :: m in ns ==> InRange(v, m) && m.lind <= Rind(v, m)
  }

  /** The handles of the nodes ns, in order. */
  function HandlesOf(v: seq<Str>, ns: seq<Node>): (hs: seq<Str>)
    requires HaveHandles(v, ns)
    ensures |hs| == |ns|
  {
    if ns == [] then [] else [Handle(v, ns[0])] + HandlesOf(v, ns[1..])
  }

  /** The k-th handle is that of the k-th node. */
  lemma {:induction false} HandleAt(v: seq<Str>, ns: seq<Node>, k: nat)
    requires HaveHandles(v, ns) && k < |ns|
    ensures HandlesOf(v, ns)[k] == Handle(v, ns[k])
  {
    if k > 0 {
      HandleAt(v, ns[1..], k - 1);
    }
  }

  /** The handles of two runs of nodes, one after the other. */
  lemma {:induction false} HandlesConcat(v: seq<Str>, a: seq<Node>, b: seq<Node>)
    requires HaveHandles(v, a) && HaveHandles(v, b)
    ensures HaveHandles(v, a + b) && HandlesOf(v, a + b) == HandlesOf(v, a) + HandlesOf(v, b)
  {
    if a == [] {
      assert a + b == b;
    } else {
      assert (a + b)[1..] == a[1..] + b;
      HandlesConcat(v, a[1..], b);
    }
  }

  /** Every index of ix is one of the arena's. */
  ghost predicate Indices(shape: seq<Node>, ix: seq<nat>) {
    forall k :: 0 <= k < |ix| ==> ix[k] < |shape|
  }

  /** The nodes the arena indices ix stand for. */
  ghost function NodesAt(shape: seq<Node>, ix: seq<nat>): (ns: seq<Node>)
    requires Indices(shape, ix)
    ensures |ns| == |ix|
  {
    if ix == [] then [] else [shape[ix[0]]] + NodesAt(shape, ix[1..])
  }

  /** The k-th node is the one the k-th index stands for. */
  lemma {:induction false} NodeAt(shape: seq<Node>, ix: seq<nat>, k: nat)
    requires Indices(shape, ix) && k < |ix|
    ensures NodesAt(shape, ix)[k] == shape[ix[k]]
  {
    if k > 0 {
      NodeAt(shape, ix[1..], k - 1);
    }
  }

  /** The nodes of two runs of indices, one after the other. */
  lemma {:induction false} NodesConcat(shape: seq<Node>, a: seq<nat>, b: seq<nat>)
    requires Indices(shape, a) && Indices(shape, b)
    ensures Indices(shape, a + b) && NodesAt(shape, a + b) == NodesAt(shape, a) + NodesAt(shape, b)
  {
    if a == [] {
      assert a + b == b;
    } else {
      assert (a + b)[1..] == a[1..] + b;
      NodesConcat(shape, a[1..], b);
    }
  }

  /**
   * The keys and values precalc_z_map collects over the whole trie of v: the handle of every
   * internal node and the index standing for it, in pre-order.
   */
  ghost predicate ZKeys(v: seq<Str>, shape: seq<Node>, hs: seq<Str>, vs: seq<nat>) {
    && (Indices(shape, vs))
    && NodesAt(shape, vs) == PreOrder(v, Root(v))
    && hs == HandlesOf(v, PreOrder(v, Root(v)))
  }

  /**
   * What one call of precalc_z_map at internal node p has pushed: its own handle and index,
   * then what the calls on its left and right child pushed, whose pre-orders are L and R.
   */
  lemma PushedInOrder(v: seq<Str>, shape: seq<Node>, p: Node, i: nat, L: seq<Node>, R: seq<Node>,
                      hs: seq<Str>, vs: seq<nat>, hs1: seq<Str>, vs1: seq<nat>,
                      hs2: seq<Str>, vs2: seq<nat>, hs3: seq<Str>, vs3: seq<nat>)
    requires HaveHandles(v, [p]) && HaveHandles(v, L) && HaveHandles(v, R)
    requires i < |shape| && shape[i] == p
    requires Indices(shape, vs)
    requires Indices(shape, vs3)
    requires hs1 == hs + [Handle(v, p)] && vs1 == vs + [i]
    requires |vs1| <= |vs2| <= |vs3| && vs2 == vs3[..|vs2|] && vs1 == vs2[..|vs1|]
    requires NodesAt(shape, vs2) == NodesAt(shape, vs1) + L
    requires NodesAt(shape, vs3) == NodesAt(shape, vs2) + R
    requires hs2 == hs1 + HandlesOf(v, L)
    requires hs3 == hs2 + HandlesOf(v, R)
    ensures vs3[..|vs|] == vs
    ensures HaveHandles(v, [p] + L + R)
    ensures NodesAt(shape, vs3) == NodesAt(shape, vs) + ([p] + L + R)
    ensures hs3 == hs + HandlesOf(v, [p] + L + R)
  {
    assert vs3[..|vs|] == vs2[..|vs|] == vs1[..|vs|] == vs;
    NodesPushed(shape, p, i, L, R, vs, vs1, vs2, vs3);
    HandlesPushed(v, p, L, R, hs, hs1, hs2, hs3);
  }

  /** The nodes part of PushedInOrder. */
  lemma NodesPushed(shape: seq<Node>, p: Node, i: nat, L: seq<Node>, R: seq<Node>,
                    vs: seq<nat>, vs1: seq<nat>, vs2: seq<nat>, vs3: seq<nat>)
    requires i < |shape| && shape[i] == p && Indices(shape, vs) && vs1 == vs + [i]
    requires Indices(shape, vs2) && Indices(shape, vs3)
    requires NodesAt(shape, vs2) == NodesAt(shape, vs1) + L
    requires NodesAt(shape, vs3) == NodesAt(shape, vs2) + R
    ensures NodesAt(shape, vs3) == NodesAt(shape, vs) + ([p] + L + R)
  {
    NodesConcat(shape, vs, [i]);
    assert [i][1..] == [];
    assert NodesAt(shape, [i]) == [p];
    Appended(NodesAt(shape, vs), NodesAt(shape, vs1), NodesAt(shape, vs2), NodesAt(shape, vs3), p, L, R);
  }

  /** The handles part of PushedInOrder. */
  lemma HandlesPushed(v: seq<Str>, p: Node, L: seq<Node>, R: seq<Node>,
                      hs: seq<Str>, hs1: seq<Str>, hs2: seq<Str>, hs3: seq<Str>)
    requires HaveHandles(v, [p]) && HaveHandles(v, L) && HaveHandles(v, R)
    requires hs1 == hs + [Handle(v, p)]
    requires hs2 == hs1 + HandlesOf(v, L)
    requires hs3 == hs2 + HandlesOf(v, R)
    ensures HaveHandles(v, [p] + L + R)
    ensures hs3 == hs + HandlesOf(v, [p] + L + R)
  {
    HandlesConcat(v, [p], L);
    HandlesConcat(v, [p] + L, R);
    assert [p][1..] == [];
    assert HandlesOf(v, [p]) == [Handle(v, p)];
    Appended(hs, hs1, hs2, hs3, Handle(v, p), HandlesOf(v, L), HandlesOf(v, R));
  }

  /** Appending an element, then two runs, appends the three together. */
  lemma Appended<T>(a: seq<T>, a1: seq<T>, a2: seq<T>, a3: seq<T>, e: T, b: seq<T>, c: seq<T>)
    requires a1 == a + [e] && a2 == a1 + b && a3 == a2 + c
    ensures a3 == a + ([e] + b + c)
  {
  }

  /**
   * precalc_z_map from index i (z_fast_trie_sux.rs): an internal node pushes its handle onto
   * the keys and its own index onto the values, then the same happens below its left and its
   * right child; a leaf pushes nothing. What is pushed is the handles and the indices of the
   * internal nodes below node i, in pre-order.
   */
  method PrecalcZMap(nodes: seq<TrieNode>, i: nat, hs: seq<Str>, vs: seq<nat>, ghost v: seq<Str>, ghost shape: seq<Node>)
    returns (hs': seq<Str>, vs': seq<nat>)
    requires ArenaOk(v, nodes, shape) && i < |nodes|
    requires Indices(shape, vs)
    ensures Indices(shape, vs')
    ensures |vs| <= |vs'| && vs'[..|vs|] == vs
    ensures NodesAt(shape, vs') == NodesAt(shape, vs) + PreOrder(v, shape[i])
    ensures hs' == hs + HandlesOf(v, PreOrder(v, shape[i]))
    decreases i
  {
    ArenaLinked(v, nodes, shape);
    HandleAgrees(v, nodes, shape, i);
    assert NodeOk(v, nodes, shape, i);
    if nodes[i].left.None? {
      assert PreOrder(v, shape[i]) == [];
      return hs, vs;
    }
    var s := GetHandle(nodes, i);
    var hs1, vs1 := hs + [s.value], vs + [i];
    var x, y := nodes[i].left.value, nodes[i].right.value;
    var hs2, vs2 := PrecalcZMap(nodes, x, hs1, vs1, v, shape);
    hs', vs' := PrecalcZMap(nodes, y, hs2, vs2, v, shape);
    ghost var L, R := PreOrder(v, shape[x]), PreOrder(v, shape[y]);
    PreOrderSplits(v, shape[i]);
    PushedInOrder(v, shape, shape[i], i, L, R, hs, vs, hs1, vs1, hs2, vs2, hs', vs');
  }

  /** precalc_z_map from the root of the trie of v, starting with no keys, collects ZKeys. */
  lemma FromRoot(v: seq<Str>, shape: seq<Node>, r: nat, hs: seq<Str>, vs: seq<nat>)
    requires r < |shape| && shape[r] == Root(v)
    requires Indices(shape, vs)
    requires NodesAt(shape, vs) == NodesAt(shape, []) + PreOrder(v, shape[r])
    requires hs == [] + HandlesOf(v, PreOrder(v, shape[r]))
    ensures ZKeys(v, shape, hs, vs)
  {
    assert NodesAt(shape, []) == [];
  }

  /**
   * The part of build after sorting, up to the dictionary: build_tree over all the keys with
   * no leaf before them, then precalc_z_map and precalc_jumps from the root. It panics exactly
   * when build_tree does.
   */
  method BuildNodes(x: seq<Str>)
    returns (ok: bool, r: nat, nodes: seq<TrieNode>, hs: seq<Str>, vs: seq<nat>, ghost shape: seq<Node>)
    requires Sorted(x) && FitsUsize(x)
    ensures ok <==> Keys(x)
    ensures ok ==> ArenaBuilt(x, nodes, shape, r) && ZKeys(x, shape, hs, vs)
  {
    var o, ns, _, res, _, sh, _ := BuildTree(x, 0, 0, |x|, [], None, []);
    r, nodes, hs, vs, shape := 0, ns, [], [], sh;
    if o.Panic? {
      return false, r, nodes, hs, vs, shape;
    }
    assert Subtree(x, ns, sh, 0, Root(x), None);
    TreeBuilt(x, ns, sh);
    r := res.value;
    RootWf(x);
    hs, vs := PrecalcZMap(ns, r, [], [], x, sh);
    FromRoot(x, sh, r, hs, vs);
    nodes := PrecalcJumps(ns, r, x, sh);
    RecordsKeepArena(x, ns, nodes, sh);
    LeavesFinished(x, ns, nodes, sh);
    JumpsFinished(x, nodes, sh);
    ok := true;
  }

  // ---------------------------------------------------------------------------------------
  // The dictionary as a z-map.

  /** The dictionary d answers every string with some internal node, and each handle with its own node. */
  ghost predicate DictOk(v: seq<Str>, shape: seq<Node>, d: M.MinimalPerfectHashStaticDict<nat>)
    reads d, d.ds
  {
    d.Valid() && forall h {:trigger d.Lookup(h)} :: Answers(v, shape, h, Some(d.Lookup(h)))
  }

  /** Whatever a stored value stands for is an internal node of the trie. */
  lemma StoredNode(v: seq<Str>, shape: seq<Node>, hs: seq<Str>, vs: seq<nat>, j: nat)
    requires ZKeys(v, shape, hs, vs) && j in vs
    ensures j < |shape| && IsNode(v, shape[j]) && Wf(v, shape[j]) && !IsLeaf(shape[j])
  {
    var k :| 0 <= k < |vs| && vs[k] == j;
    var s := PreOrder(v, Root(v));
    NodeAt(shape, vs, k);
    ListedIsBelow(v, Root(v), s[k]);
    BelowWf(v, Root(v), s[k]);
  }

  /** The dictionary answers the handle of an internal node with that node's index. */
  lemma HandleFound(v: seq<Str>, shape: seq<Node>, d: M.MinimalPerfectHashStaticDict<nat>,
                    hs: seq<Str>, vs: seq<nat>, n: Node)
    requires ZKeys(v, shape, hs, vs) && d.Stores(hs, vs)
    requires IsNode(v, n) && !IsLeaf(n)
    ensures InRange(v, n) && n.lind <= Rind(v, n)
    ensures d.Lookup(Handle(v, n)) < |shape| && shape[d.Lookup(Handle(v, n))] == n
  {
    var s := PreOrder(v, Root(v));
    BelowIsListed(v, Root(v), n);
    var k :| 0 <= k < |s| && s[k] == n;
    HandleAt(v, s, k);
    d.StoredLookup(hs, vs, k);
    NodeAt(shape, vs, k);
  }

  /**
   * A dictionary built from the keys and values precalc_z_map collects, whose table holds
   * only those values, is a z-map: a handle leads to its node, any other string to some
   * internal node.
   */
  lemma DictFilled(v: seq<Str>, shape: seq<Node>, d: M.MinimalPerfectHashStaticDict<nat>, hs: seq<Str>, vs: seq<nat>)
    requires ZKeys(v, shape, hs, vs) && d.Stores(hs, vs)
    requires forall k :: 0 <= k < |d.table| ==> d.table[k] in vs
    ensures DictOk(v, shape, d)
  {
    forall h
      ensures Answers(v, shape, h, Some(d.Lookup(h)))
    {
      StoredNode(v, shape, hs, vs, d.Lookup(h));
      forall n | IsNode(v, n) && Wf(v, n) && !IsLeaf(n) && Handle(v, n) == h
        ensures shape[d.Lookup(h)] == n
      {
        HandleFound(v, shape, d, hs, vs, n);
      }
    }
  }

  /**
   * The end of build: the dictionary from the handles and indices precalc_z_map collected. It
   * panics on no handles, that is on a single key; it draws its hash functions from `draw`
   * and gives up after `attempts` tries. Built, it is a z-map of the trie.
   */
  method FillDict(d: M.MinimalPerfectHashStaticDict<nat>, hs: seq<Str>, vs: seq<nat>, draw: nat -> nat,
                  bd: nat, sbd: nat, attempts: nat, ghost v: seq<Str>, ghost shape: seq<Node>)
    returns (out: M.BuildOutcome)
    requires d.Fresh() && ZKeys(v, shape, hs, vs) && Keys(v) && bd >= 1 && sbd >= 1
    modifies d, d.ds
    ensures out == M.Panicked <==> |v| == 1 && attempts >= 1
    ensures out == M.Built ==> |v| >= 2 && DictOk(v, shape, d)
  {
    RootWf(v);
    PreOrderCount(v, Root(v));
    assert |hs| == |v| - 1;
    out := d.Build(hs, vs, draw, bd, sbd, attempts);
    if out == M.Built {
      DictFilled(v, shape, d, hs, vs);
    }
  }

  // ---------------------------------------------------------------------------------------
  // The trie.

  class ZFastTrieSux {
    /** The index of the root in the arena, None before the first build. */
    var root: Option<nat>
    /** The arena of node records; a reference of the source is an index into it. */
    var nodes: seq<TrieNode>
    /** The z-map: a dictionary from the handle of every internal node to its index. */
    var zMap: M.MinimalPerfectHashStaticDict<nat>
    /** The sorted keys the trie was built from. */
    ghost var keys: seq<Str>
    /** The node of the trie of keys that each index of the arena stands for. */
    ghost var shape: seq<Node>

    ghost predicate Valid()
      reads this, zMap, zMap.ds
    {
      match root
      case None => keys == [] && nodes == [] && shape == []
      case Some(r) => ArenaBuilt(keys, nodes, shape, r) && DictOk(keys, shape, zMap)
    }

    /** new(): an empty trie with an empty dictionary. */
    constructor ()
      ensures Valid() && root.None? && keys == []
    {
      root, nodes := None, [];
      zMap := new M.MinimalPerfectHashStaticDict<nat>();
      keys, shape := [], [];
    }

    /**
     * build(v): sort the input, build the tree with its leaves threaded, collect the handles
     * and nodes for the z-map, set the jump links, and build the dictionary (see Fill).
     */
    method Build(input: seq<Str>, draw: nat -> nat, bd: nat, sbd: nat, attempts: nat) returns (out: M.BuildOutcome)
      requires FitsUsize(input) && bd >= 1 && sbd >= 1
      modifies this
      ensures Sorted(keys) && multiset(keys) == multiset(input)
      ensures out == M.Panicked <==> !Keys(keys) || (|keys| == 1 && attempts >= 1)
      ensures out == M.Built ==> Valid() && root.Some? && |keys| >= 2
    {
      var x := SortByCmp(input);
      FitsUsizeSorted(input, x);
      var ok, r, ns, hs, vs;
      ghost var sh;
      ok, r, ns, hs, vs, sh := BuildNodes(x);
      if !ok {
        keys := x;
        zMap := new M.MinimalPerfectHashStaticDict<nat>();
        return M.Panicked;
      }
      out := Fill(x, r, ns, hs, vs, sh, draw, bd, sbd, attempts);
    }

    /**
     * The end of build once build_tree has not panicked: the fields are the new trie and a
     * new dictionary, which is then built from the handles and indices precalc_z_map collected.
     */
    method Fill(x: seq<Str>, r: nat, ns: seq<TrieNode>, hs: seq<Str>, vs: seq<nat>, ghost sh: seq<Node>,
                draw: nat -> nat, bd: nat, sbd: nat, attempts: nat) returns (out: M.BuildOutcome)
      requires Keys(x) && ZKeys(x, sh, hs, vs) && bd >= 1 && sbd >= 1
      modifies this
      ensures keys == x && root == Some(r) && nodes == ns && shape == sh
      ensures out == M.Panicked <==> |x| == 1 && attempts >= 1
      ensures out == M.Built ==> |x| >= 2 && DictOk(keys, shape, zMap)
    {
      var d := new M.MinimalPerfectHashStaticDict<nat>();
      keys, root, nodes, shape, zMap := x, Some(r), ns, sh, d;
      out := FillDict(d, hs, vs, draw, bd, sbd, attempts, x, sh);
    }

    /** The state of x for each hash function of the dictionary, as compute_state returns it. */
    ghost predicate StateOf(x: Str, st: seq<RH.State>)
      reads this, zMap
    {
      M.HashesValid(zMap.h) && |st| == 3 && forall t :: 0 <= t < 3 ==> zMap.h[t].IsStateOf(x, st[t])
    }

    /**
     * fast_prefix_get(x, state, f) on the dictionary, as the searches use it: the node it
     * answers for x[..f], which is that prefix's node when x[..f] is a handle.
     */
    method Probe(x: Str, st: seq<RH.State>, f: nat, ghost v: seq<Str>, ghost sh: seq<Node>, ghost ns: seq<TrieNode>)
      returns (beta: Option<nat>)
      requires Valid() && root.Some? && v == keys && sh == shape && ns == nodes && f <= |x| && StateOf(x, st)
      ensures Valid() && root.Some? && v == keys && sh == shape && ns == nodes && StateOf(x, st)
      ensures Answers(v, sh, x[..f], beta)
    {
      assert DictOk(v, sh, zMap);
      assert Answers(v, sh, x[..f], Some(zMap.Lookup(x[..f])));
      beta := zMap.FastPrefixGet(x, st, f);
    }

    /**
     * locate_exit_or_parex_prob(x): the fat binary search over the dictionary. A node the
     * dictionary gives for the queried prefix is accepted when its handle length is the
     * queried length. The result is the target of the exit search, unless a node that is not
     * a hit was accepted, in which case the handle of the result does not begin x.
     */
    method LocateExitOrParexProb(x: Str) returns (res: Option<nat>)
      requires Valid() && root.Some?
      ensures Valid() && SearchDone(keys, shape, x, false, res)
    {
      ghost var v, sh := keys, shape;
      var ns := nodes;
      assert ArenaBuilt(v, ns, sh, root.value);
      res := None;
      var a: nat, b: nat := 0, |x|;
      var m := Calc(b);
      var state := zMap.ComputeState(x);
      ghost var node: Option<Node> := None;
      SearchBegins(v, sh, x, false);
      while a <= b
        invariant Valid() && root.Some? && v == keys && sh == shape && ns == nodes && StateOf(x, state)
        invariant Searching(v, sh, x, false, a, b, m, node, res)
        decreases if a <= b then b + 1 - a else 0, m
      {
        ghost var a0, b0, m0, node0, res0 := a, b, m, node, res;
        if Queries(a, b, m) {
          var f := QueryLength(a, b, m);
          MaskQuery(a, b, m);
          var beta := Probe(x, state, f, v, sh, ns);
          if beta.Some? {
            var i := beta.value;
            NodeLinked(v, ns, sh, i);
            assert NodeOk(v, ns, sh, i);
            var rind := GetRind(ns, i);
            var lind := ns[i].lind;
            if GetFattest(rind, lind) == f {
              a, res, node, m := rind + 1, Some(i), Some(sh[i]), ShiftMask(m);
              SearchAccept(v, sh, x, false, a0, b0, m0, node0, res0, f, i, a, m);
              continue;
            }
          }
          if f == 0 {
            SearchStop(v, sh, x, false, a, b, m, node, res, beta);
            break;
          }
          b, m := f - 1, ShiftMask(m);
          SearchMiss(v, sh, x, false, a0, b0, m0, node0, res0, f, beta, b, m);
        } else {
          m := ShiftMask(m);
          SearchSkip(v, sh, x, false, a0, b0, m0, node0, res0, m);
        }
      }
      if a > b {
        SearchExit(v, sh, x, false, a, b, m, node, res);
      }
    }

    /**
     * locate_parex(x): the same search, but a node is accepted only when, besides its handle
     * length being the queried length, its extent is a proper prefix of x. No node the
     * dictionary gives for a string that is no handle can pass that test, so the result is
     * the deepest internal node whose extent is a proper prefix of x.
     */
    method LocateParex(x: Str) returns (res: Option<nat>)
      requires Valid() && root.Some?
      ensures Valid() && Finds(shape, res, Target(keys, x, true))
    {
      ghost var v, sh := keys, shape;
      var ns := nodes;
      assert ArenaBuilt(v, ns, sh, root.value);
      res := None;
      var a: nat, b: nat := 0, |x|;
      var m := Calc(b);
      var state := zMap.ComputeState(x);
      ghost var node: Option<Node> := None;
      SearchBegins(v, sh, x, true);
      while a <= b
        invariant Valid() && root.Some? && v == keys && sh == shape && ns == nodes && StateOf(x, state)
        invariant Searching(v, sh, x, true, a, b, m, node, res)
        decreases if a <= b then b + 1 - a else 0, m
      {
        ghost var a0, b0, m0, node0, res0 := a, b, m, node, res;
        if Queries(a, b, m) {
          var f := QueryLength(a, b, m);
          MaskQuery(a, b, m);
          var beta := Probe(x, state, f, v, sh, ns);
          if beta.Some? {
            var i := beta.value;
            ParexTest(v, ns, sh, i, x, f);
            var extent := GetExtent(ns, i);
            var rind := GetRind(ns, i);
            var lind := ns[i].lind;
            if |extent| < |x| && GetFattest(rind, lind) == f && extent == x[..|extent|] {
              a, res, node, m := rind + 1, Some(i), Some(sh[i]), ShiftMask(m);
              SearchAccept(v, sh, x, true, a0, b0, m0, node0, res0, f, i, a, m);
              continue;
            }
          }
          if f == 0 {
            SearchStop(v, sh, x, true, a, b, m, node, res, beta);
            break;
          }
          b, m := f - 1, ShiftMask(m);
          SearchMiss(v, sh, x, true, a0, b0, m0, node0, res0, f, beta, b, m);
        } else {
          m := ShiftMask(m);
          SearchSkip(v, sh, x, true, a0, b0, m0, node0, res0, m);
        }
      }
      if a > b {
        SearchExit(v, sh, x, true, a, b, m, node, res);
      }
    }

    /**
     * locate_exit_or_parex(x): the probabilistic search, checked by its result's handle. When
     * that handle does not begin x (a node accepted for a string that is no handle),
     * locate_parex is used instead. The result is the target of one of the two searches.
     */
    method LocateExitOrParex(x: Str) returns (res: Option<nat>)
      requires Valid() && root.Some?
      ensures Valid()
      ensures Finds(shape, res, Target(keys, x, false)) || Finds(shape, res, Target(keys, x, true))
    {
      res := LocateExitOrParexProb(x);
      assert ArenaBuilt(keys, nodes, shape, root.value);
      var wrong := HandleCheck(nodes, x, res, keys, shape);
      if wrong {
        res := LocateParex(x);
      }
    }

    /**
     * locate_exit_from_node(x, sigma): from the target sigma of one of the two searches, the
     * exit node is sigma itself, or, when the extent of sigma is a proper prefix of x, the child
     * of sigma named by the bit of x after that extent. Without sigma it is the root. The
     * source returns an option that is never empty here; the index is returned directly.
     */
    method LocateExitFromNode(x: Str, sigma: Option<nat>) returns (eta: nat)
      requires Valid() && root.Some?
      requires Finds(shape, sigma, Target(keys, x, false)) || Finds(shape, sigma, Target(keys, x, true))
      ensures Valid() && eta < |shape| && shape[eta] == Exit(keys, x)
    {
      ghost var v, sh := keys, shape;
      var ns := nodes;
      assert ArenaBuilt(v, ns, sh, root.value);
      TargetsLocateExit(v, sh, x, sigma);
      if sigma.Some? {
        var s := sigma.value;
        DescentTest(v, ns, sh, s, x);
        var extent := GetExtent(ns, s);
        if |extent| < |x| && extent == x[..Min(|extent|, |x|)] {
          if !x[|extent|] {
            eta := ns[s].left.value;
          } else {
            eta := ns[s].right.value;
          }
        } else {
          eta := s;
        }
      } else {
        eta := root.value;
      }
    }

    /**
     * locate_exit(x): nothing for a trie never built; otherwise the exit node of x, found
     * from the result of locate_exit_or_parex, or the root when that search finds nothing.
     */
    method LocateExit(x: Str) returns (eta: Option<nat>)
      requires Valid()
      ensures Valid()
      ensures root.None? ==> eta.None?
      ensures root.Some? ==> eta.Some? && eta.value < |shape| && shape[eta.value] == Exit(keys, x)
    {
      if root.None? {
        return None;
      }
      var res := LocateExitOrParex(x);
      if res.Some? {
        var e := LocateExitFromNode(x, res);
        eta := Some(e);
      } else {
        TargetsLocateExit(keys, shape, x, res);
        eta := Some(root.value);
      }
    }

    /**
     * query(x): the predecessor and the successor of x among the keys, read off the exit
     * node. When x is at most the extent of the exit node, its leftmost leaf holds the
     * successor and that leaf's left link the predecessor; otherwise its rightmost leaf holds
     * the predecessor and that leaf's right link the successor.
     */
    method Query(x: Str) returns (prev: Option<Str>, succ: Option<Str>)
      requires Valid()
      ensures prev == PredOf(keys, x) && succ == SuccOf(keys, x)
    {
      var eta := LocateExit(x);
      if eta.None? {
        return None, None;
      }
      ghost var v, sh := keys, shape;
      var ns := nodes;
      assert ArenaBuilt(v, ns, sh, root.value);
      var e := eta.value;
      ExtentAgrees(v, ns, sh, e);
      prev, succ := None, None;
      if Cmp(x, GetExtent(ns, e)) != Greater {
        QueryLeft(v, ns, sh, x, e);
        var leaf := GetLeftmost(ns, e);
        succ := Some(GetExtent(ns, leaf));
        if ns[leaf].jumpLeft.Some? {
          prev := Some(GetExtent(ns, ns[leaf].jumpLeft.value));
        }
      } else {
        QueryRight(v, ns, sh, x, e);
        var leaf := GetRightmost(ns, e);
        prev := Some(GetExtent(ns, leaf));
        if ns[leaf].jumpRight.Some? {
          succ := Some(GetExtent(ns, ns[leaf].jumpRight.value));
        }
      }
    }

    /** pred_query(x): the greatest key less than x. */
    method PredQuery(x: Str) returns (r: Option<Str>)
      requires Valid()
      ensures r == PredOf(keys, x)
    {
      var succ;
      r, succ := Query(x);
    }

    /** succ_query(x): the least key that is not less than x. */
    method SuccQuery(x: Str) returns (r: Option<Str>)
      requires Valid()
      ensures r == SuccOf(keys, x)
    {
      var prev;
      prev, r := Query(x);
    }

    /**
     * pref_query(x): the extent of the exit node of x cut to at most |x| bits, or nothing for a
     * trie never built. It begins a key, and it is x itself exactly when some key begins with x.
     */
    method PrefQuery(x: Str) returns (r: Option<Str>)
      requires Valid()
      ensures root.None? ==> r.None?
      ensures root.Some? ==> r.Some? && |r.value| <= |x|
      ensures root.Some? ==> exists i :: 0 <= i < |keys| && IsPrefix(r.value, keys[i])
      ensures root.Some? ==> (r.value == x <==> exists i :: 0 <= i < |keys| && IsPrefix(x, keys[i]))
    {
      var eta := LocateExit(x);
      if eta.None? {
        return None;
      }
      ghost var v, sh := keys, shape;
      var ns := nodes;
      assert ArenaBuilt(v, ns, sh, root.value);
      var e := eta.value;
      PrefixExtentAgrees(v, ns, sh, e, |x|);
      PrefixAnswer(v, x);
      r := Some(GetPrefixExtent(ns, e, |x|));
    }

    /** ex_pref_query(x): pref_query gives back x itself. True exactly when some key begins with x. */
    method ExPrefQuery(x: Str) returns (b: bool)
      requires Valid()
      ensures b == ExPrefOf(keys, x)
      ensures b <==> exists i :: 0 <= i < |keys| && IsPrefix(x, keys[i])
    {
      var p := PrefQuery(x);
      if p.Some? {
        var i := p.value;
        b := |i| == |x| && i[..Min(|i|, |x|)] == x;
      } else {
        b := false;
      }
      ExPrefAnswer(keys, x);
    }

    /**
     * is_nonempty(x, y), which ex_range_query answers with: false when x == y or the trie was
     * never built; otherwise the three cases of IsNonemptyAsWritten, read off the exit nodes
     * of x, of y and of their longest common prefix, walking down spines by jump links.
     */
    method IsNonempty(x: Str, y: Str) returns (b: bool)
      requires Valid()
      ensures root.None? ==> !b
      ensures root.Some? ==> b == IsNonemptyAsWritten(keys, x, y)
    {
      if x == y {
        return false;
      }
      var ex := LocateExit(x);
      if ex.None? {
        return false;
      }
      b := IsNonemptyFrom(x, y, ex.value);
    }

    /** is_nonempty once the exit node alpha of x is known (z_fast_trie_sux.rs). */
    method IsNonemptyFrom(x: Str, y: Str, alpha: nat) returns (b: bool)
      requires Valid() && root.Some? && x != y
      requires alpha < |shape| && shape[alpha] == Exit(keys, x)
      ensures b == IsNonemptyAsWritten(keys, x, y)
    {
      ghost var v, sh := keys, shape;
      var ns := nodes;
      assert ArenaBuilt(v, ns, sh, root.value);
      ExtentAgrees(v, ns, sh, alpha);
      if Cmp(x, GetExtent(ns, alpha)) != Greater {
        AsWrittenFirst(v, x, y);
        var a := SkipLeft(ns, alpha, y, v, sh);
        return Cmp(GetExtent(ns, a), y) == Less;
      }
      b := IsNonemptyAcross(x, y);
    }

    /** is_nonempty when x is beyond the extent of its exit node (z_fast_trie_sux.rs). */
    method IsNonemptyAcross(x: Str, y: Str) returns (b: bool)
      requires Valid() && root.Some? && x != y
      requires Cmp(x, Extent(keys, Exit(keys, x))) == Greater
      ensures b == IsNonemptyAsWritten(keys, x, y)
    {
      var ey := LocateExit(y);
      b := IsNonemptyBeyond(x, y, ey.value);
    }

    /** is_nonempty once the exit node beta of y is known as well (z_fast_trie_sux.rs). */
    method IsNonemptyBeyond(x: Str, y: Str, beta: nat) returns (b: bool)
      requires Valid() && root.Some? && x != y
      requires Cmp(x, Extent(keys, Exit(keys, x))) == Greater
      requires beta < |shape| && shape[beta] == Exit(keys, y)
      ensures b == IsNonemptyAsWritten(keys, x, y)
    {
      ghost var v, sh := keys, shape;
      var ns := nodes;
      assert ArenaBuilt(v, ns, sh, root.value);
      ExtentAgrees(v, ns, sh, beta);
      if Cmp(x, GetExtent(ns, beta)) == Greater {
        b := RangeBeyond(ns, beta, x, y, v, sh);
        return;
      }
      b := IsNonemptyParting(x, y);
    }

    /** is_nonempty when y does not lie beyond x: the exit node of the common prefix decides. */
    method IsNonemptyParting(x: Str, y: Str) returns (b: bool)
      requires Valid() && root.Some? && x != y
      requires Cmp(x, Extent(keys, Exit(keys, x))) == Greater
      requires Cmp(x, Extent(keys, Exit(keys, y))) != Greater
      ensures b == IsNonemptyAsWritten(keys, x, y)
    {
      var z := Lcp(x, y);
      var ez := LocateExit(z);
      b := IsNonemptyParted(x, y, z, ez.value);
    }

    /** is_nonempty when x and y part below eta, the exit node of their common prefix z. */
    method IsNonemptyParted(x: Str, y: Str, z: Str, eta: nat) returns (b: bool)
      requires Valid() && root.Some? && x != y && IsPrefix(z, x) && |z| == CommonPrefixLength(x, y)
      requires Cmp(x, Extent(keys, Exit(keys, x))) == Greater
      requires Cmp(x, Extent(keys, Exit(keys, y))) != Greater
      requires eta < |shape| && shape[eta] == Exit(keys, z)
      ensures b == IsNonemptyAsWritten(keys, x, y)
    {
      ghost var v, sh := keys, shape;
      var ns := nodes;
      assert ArenaBuilt(v, ns, sh, root.value);
      PartingChildren(v, ns, sh, x, y, z, eta);
      b := PartedRange(ns, eta, x, y, v, sh);
      AsWrittenThird(v, x, y);
    }

    /**
     * ex_range_query(x, y) answered only for x < y, as the range [x, y) is empty otherwise:
     * whether some key s has x <= s < y.
     */
    method ExRangeQuery(x: Str, y: Str) returns (b: bool)
      requires Valid()
      ensures b == ExRangeOf(keys, x, y)
      ensures b <==> exists s :: s in keys && Le(x, s) && Lt(s, y)
    {
      if Cmp(x, y) != Less {
        CmpAntisymmetric(x, y);
        ExRangeEmpty(keys, x, y);
        b := false;
      } else {
        b := IsNonempty(x, y);
        if root.Some? {
          CmpAntisymmetric(y, x);
          IsNonemptyCorrect(keys, x, y);
        }
      }
      ExRangeIff(keys, x, y);
    }
  }
}
