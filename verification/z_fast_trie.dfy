/**
 * The z-fast trie (tries/z_fast_trie.rs): the compacted binary trie of the sorted keys, kept as
 * an arena of node records (ZFastNodes), with a z-map from the handle of every internal node to
 * that node and jump links that skip down the left and right spines. The exit node of a query
 * string is found by a fat binary search over the z-map instead of a walk from the root, and
 * the predecessor and successor are read off the leaves at the ends of the exit node.
 *
 * The hash of the trie is the identity prefix hash (NaiveHash): the z-map is keyed by the
 * handles themselves. The search is nevertheless proved in the form the source is written for
 * any hash: an entry the map returns for a string that is no handle may lead to any internal
 * node, and the final handle check sends such a search to `locate_parex`.
 */
module ZFastTrie {
  import opened Wrappers
  import opened Strings
  import opened SortedStrings
  import opened NaiveTrie
  import opened BitwiseOperations
  import opened TrieStructure
  import opened TrieHandles
  import opened FatSearch
  import opened ZFastNodes
  import opened ZFastBuild
  import opened ZFastPrecalc
  import opened ZFastRange
  import NH = NaiveHash

  // ---------------------------------------------------------------------------------------
  // What a built trie keeps.

  /**
   * The z-map leads only to internal nodes of the trie, and the handle of every internal node
   * leads to that node.
   */
  ghost predicate ZMapOk(v: seq<Str>, shape: seq<Node>, zMap: map<Str, nat>) {
    && (forall h :: h in zMap ==>
         zMap[h] < |shape| && IsNode(v, shape[zMap[h]]) && Wf(v, shape[zMap[h]]) && !IsLeaf(shape[zMap[h]]))
    && (forall n :: IsNode(v, n) && Wf(v, n) && !IsLeaf(n) ==>
         Handle(v, n) in zMap && zMap[Handle(v, n)] < |shape| && shape[zMap[Handle(v, n)]] == n)
  }

  /** Every leaf links back to the leaf of the previous key and forward to that of the next one. */
  ghost predicate LeavesThreaded(v: seq<Str>, nodes: seq<TrieNode>, shape: seq<Node>)
    requires |nodes| == |shape|
  {
    forall j :: 0 <= j < |nodes| && IsLeaf(shape[j]) ==> Threaded(nodes, shape, j, 0, |v|, None)
  }

  /**
   * The nodes of a built z-fast trie over the keys v: the arena holds each node of the trie of
   * v once, the root at index root, the jump links are set and the leaves are threaded in key
   * order.
   */
  ghost predicate ArenaBuilt(v: seq<Str>, nodes: seq<TrieNode>, shape: seq<Node>, root: nat) {
    && Keys(v) && FitsUsize(v)
    && ArenaOk(v, nodes, shape) && AllLinked(nodes) && DistinctShapes(shape)
    && root < |nodes| && shape[root] == Root(v)
    && (forall j :: 0 <= j < |nodes| ==> IsNode(v, shape[j]))
    && JumpsOk(v, nodes, shape) && JumpsLinked(nodes)
    && LeavesThreaded(v, nodes, shape)
  }

  /** A built z-fast trie over the keys v: its nodes, and a z-map that finds every internal node under its handle. */
  ghost predicate TrieOk(v: seq<Str>, nodes: seq<TrieNode>, shape: seq<Node>, zMap: map<Str, nat>, root: nat) {
    ArenaBuilt(v, nodes, shape, root) && ZMapOk(v, shape, zMap)
  }

  /** The fields of a z-fast trie: empty before the first build, a built trie over v after it. */
  ghost predicate Holds(root: Option<nat>, v: seq<Str>, nodes: seq<TrieNode>, shape: seq<Node>, zMap: map<Str, nat>) {
    match root
    case None => v == [] && nodes == [] && shape == []
    case Some(r) => TrieOk(v, nodes, shape, zMap, r)
  }

  /** A search result res, an index or nothing, stands for the node t, or nothing. */
  ghost predicate Finds(shape: seq<Node>, res: Option<nat>, t: Option<Node>) {
    && (res.Some? <==> t.Some?)
    && (res.Some? ==> res.value < |shape| && shape[res.value] == t.value)
  }

  /** res is an internal node wrongly accepted by the exit search: its handle does not begin x. */
  ghost predicate Misled(v: seq<Str>, shape: seq<Node>, x: Str, res: Option<nat>) {
    && res.Some? && res.value < |shape|
    && IsNode(v, shape[res.value]) && Wf(v, shape[res.value]) && !IsLeaf(shape[res.value])
    && !IsPrefix(Handle(v, shape[res.value]), x)
  }

  // ---------------------------------------------------------------------------------------
  // The steps of the fat binary search, with the z-map in place of the trie.

  /**
   * ans is an answer the z-map may give for the string h: nothing, or an internal node of the
   * trie, and that node itself when h is its handle. A dictionary may answer a string that is
   * no handle with any internal node; a hash map answers it with nothing.
   */
  ghost predicate Answers(v: seq<Str>, shape: seq<Node>, h: Str, ans: Option<nat>) {
    && (ans.Some? ==>
          ans.value < |shape| && IsNode(v, shape[ans.value]) && Wf(v, shape[ans.value]) && !IsLeaf(shape[ans.value]))
    && (forall n :: IsNode(v, n) && Wf(v, n) && !IsLeaf(n) && Handle(v, n) == h ==>
          ans.Some? && shape[ans.value] == n)
  }

  /** A z-map that keeps ZMapOk answers every string with its entry, or nothing when it has none. */
  lemma MapAnswers(v: seq<Str>, shape: seq<Node>, zMap: map<Str, nat>, h: Str)
    requires ZMapOk(v, shape, zMap)
    ensures Answers(v, shape, h, if h in zMap then Some(zMap[h]) else None)
  {
  }

  /** A node of the path of x that the search should accept is what the z-map answers for the queried prefix of x. */
  lemma LookupCovers(v: seq<Str>, shape: seq<Node>, x: Str, parex: bool, f: nat, ans: Option<nat>)
    requires Keys(v) && f <= |x| && Answers(v, shape, x[..f], ans)
    ensures var m := DescendTo(v, Root(v), x, f);
      Hit(v, x, parex, m) && Fat(v, m) == f ==> ans.Some? && shape[ans.value] == m
  {
    var m := DescendTo(v, Root(v), x, f);
    if Hit(v, x, parex, m) && Fat(v, m) == f {
      if parex {
        ParexHitIsHit(v, x, m);
      }
      HitOnPath(v, x, false, m);
      assert Handle(v, m) == x[..f];
    }
  }

  /**
   * The state of a fat binary search between rounds: the interval [a, b] and the mask j keep
   * the mask invariant, the index res stands for the last accepted node, and the search is
   * good, or (in the exit search only) has accepted a wrong node.
   */
  ghost predicate Searching(v: seq<Str>, shape: seq<Node>, x: Str, parex: bool, a: nat, b: nat, j: nat,
                            node: Option<Node>, res: Option<nat>)
    requires Keys(v)
  {
    && b <= |x| && MaskInv(a, b, j) && Finds(shape, res, node)
    && (SearchGood(v, x, parex, a, b, node) || (!parex && SearchBad(v, x, parex, a, node)))
  }

  /**
   * What a search returns: the target, or, in the exit search, a wrongly accepted node whose
   * handle does not begin x.
   */
  ghost predicate SearchDone(v: seq<Str>, shape: seq<Node>, x: Str, parex: bool, res: Option<nat>)
    requires Keys(v)
  {
    Finds(shape, res, Target(v, x, parex)) || (!parex && Misled(v, shape, x, res))
  }

  /** The search starts on [0, |x|] with the mask calc(|x|) and nothing accepted. */
  lemma SearchBegins(v: seq<Str>, shape: seq<Node>, x: Str, parex: bool)
    requires Keys(v)
    ensures Searching(v, shape, x, parex, 0, |x|, Calc(|x|), None, None)
  {
    SearchStarts(v, x, parex);
    MaskStarts(|x|);
  }

  /**
   * A round that accepts the node i found under the queried prefix x[..f]: its handle length is
   * f and, in the parent search, its extent is a proper prefix of x. The search goes on from
   * a' just past its extent, with the mask shifted to j'.
   */
  lemma SearchAccept(v: seq<Str>, shape: seq<Node>, x: Str, parex: bool,
                     a: nat, b: nat, j: nat, node: Option<Node>, res: Option<nat>, f: nat, i: nat,
                     a': nat, j': nat)
    requires Keys(v)
    requires Searching(v, shape, x, parex, a, b, j, node, res) && a <= b && Queries(a, b, j)
    requires f == QueryLength(a, b, j) && f <= |x| && Answers(v, shape, x[..f], Some(i))
    requires i < |shape| && Fat(v, shape[i]) == f
    requires parex ==> ProperPrefix(Extent(v, shape[i]), x)
    requires a' == Rind(v, shape[i]) + 1 && j' == ShiftMask(j)
    ensures a < a'
    ensures Searching(v, shape, x, parex, a', b, j', Some(shape[i]), Some(i))
  {
    var n := shape[i];
    MaskQuery(a, b, j);
    MaskHit(a, b, j, Rind(v, n));
    AcceptState(v, shape, x, parex, a, b, node, f, i);
  }

  /** The search state after accepting the node i that the dictionary gives for x[..f]. */
  lemma AcceptState(v: seq<Str>, shape: seq<Node>, x: Str, parex: bool,
                    a: nat, b: nat, node: Option<Node>, f: nat, i: nat)
    requires Keys(v) && QueryPoint(a, b, f)
    requires SearchGood(v, x, parex, a, b, node) || (!parex && SearchBad(v, x, parex, a, node))
    requires f <= |x| && Answers(v, shape, x[..f], Some(i))
    requires i < |shape| && Fat(v, shape[i]) == f
    requires parex ==> ProperPrefix(Extent(v, shape[i]), x)
    ensures var n := shape[i];
      SearchGood(v, x, parex, Rind(v, n) + 1, b, Some(n))
      || (!parex && SearchBad(v, x, parex, Rind(v, n) + 1, Some(n)))
  {
    var n := shape[i];
    LookupCovers(v, shape, x, parex, f, Some(i));
    BadRejectsHits(v, x, parex, a, b, node, f, n);
    if Hit(v, x, parex, n) {
      AcceptHit(v, x, parex, a, b, node, f, n);
    } else {
      AcceptWrong(v, x, parex, a, b, node, f, n);
    }
  }

  /**
   * The answer for the queried prefix x[..f] is no node the round accepts: nothing, or a node
   * whose handle length is not f or (in the parent search) whose extent is no proper prefix of x.
   */
  ghost predicate Rejected(v: seq<Str>, shape: seq<Node>, x: Str, parex: bool, f: nat, ans: Option<nat>) {
    ans.Some? ==>
      && ans.value < |shape|
      && var n := shape[ans.value];
      InRange(v, n) && n.lind <= Rind(v, n)
      && !(Fat(v, n) == f && (parex ==> ProperPrefix(Extent(v, n), x)))
  }

  /**
   * The test locate_parex applies to node i found under x[..f]: its extent, as the records
   * give it, is shorter than x and begins x, and its handle length is f. It holds exactly
   * when the node's handle length is f and its extent is a proper prefix of x.
   */
  lemma ParexTest(v: seq<Str>, nodes: seq<TrieNode>, shape: seq<Node>, i: nat, x: Str, f: nat)
    requires ArenaOk(v, nodes, shape) && i < |nodes|
    ensures InRange(v, shape[i]) && shape[i].lind <= Rind(v, shape[i])
    ensures Linked(nodes, i) && GetRind(nodes, i) <= |ExtentSource(nodes, i)|
    ensures nodes[i].lind == shape[i].lind && GetRind(nodes, i) == Rind(v, shape[i])
    ensures var e := GetExtent(nodes, i);
      (|e| < |x| && GetFattest(GetRind(nodes, i), nodes[i].lind) == f && e == x[..|e|]) <==>
      (Fat(v, shape[i]) == f && ProperPrefix(Extent(v, shape[i]), x))
  {
    ExtentAgrees(v, nodes, shape, i);
    assert NodeOk(v, nodes, shape, i);
  }

  /** A round that queries f >= 1 and accepts nothing: the interval shrinks to [a, b'] below f. */
  lemma SearchMiss(v: seq<Str>, shape: seq<Node>, x: Str, parex: bool, a: nat, b: nat, j: nat,
                   node: Option<Node>, res: Option<nat>, f: nat, ans: Option<nat>, b': nat, j': nat)
    requires Keys(v)
    requires Searching(v, shape, x, parex, a, b, j, node, res) && a <= b && Queries(a, b, j)
    requires f == QueryLength(a, b, j) && f <= |x|
    requires Answers(v, shape, x[..f], ans) && Rejected(v, shape, x, parex, f, ans)
    requires f >= 1 && b' + 1 == f && j' == ShiftMask(j)
    ensures b' < b
    ensures Searching(v, shape, x, parex, a, b', j', node, res)
  {
    MaskQuery(a, b, j);
    LookupCovers(v, shape, x, parex, f, ans);
    if SearchGood(v, x, parex, a, b, node) {
      Miss(v, x, parex, a, b, node, f, b');
    }
    MaskMiss(a, b, j, f, b');
  }

  /** A round that queries the empty prefix and accepts nothing ends the search. */
  lemma SearchStop(v: seq<Str>, shape: seq<Node>, x: Str, parex: bool, a: nat, b: nat, j: nat,
                   node: Option<Node>, res: Option<nat>, ans: Option<nat>)
    requires Keys(v)
    requires Searching(v, shape, x, parex, a, b, j, node, res) && a <= b && Queries(a, b, j)
    requires QueryLength(a, b, j) == 0 && Answers(v, shape, x[..0], ans) && Rejected(v, shape, x, parex, 0, ans)
    ensures SearchDone(v, shape, x, parex, res)
  {
    MaskQuery(a, b, j);
    LookupCovers(v, shape, x, parex, 0, ans);
    if SearchGood(v, x, parex, a, b, node) {
      Miss(v, x, parex, a, b, node, 0, 0);
    }
  }

  /** A round without a query only shifts the mask. */
  lemma SearchSkip(v: seq<Str>, shape: seq<Node>, x: Str, parex: bool,
                   a: nat, b: nat, j: nat, node: Option<Node>, res: Option<nat>, j': nat)
    requires Keys(v) && Searching(v, shape, x, parex, a, b, j, node, res) && a <= b && !Queries(a, b, j)
    requires j' == ShiftMask(j)
    ensures j' < j && Searching(v, shape, x, parex, a, b, j', node, res)
  {
    MaskSkip(a, b, j);
  }

  /** Once the interval is empty the search is over. */
  lemma SearchExit(v: seq<Str>, shape: seq<Node>, x: Str, parex: bool,
                   a: nat, b: nat, j: nat, node: Option<Node>, res: Option<nat>)
    requires Keys(v) && Searching(v, shape, x, parex, a, b, j, node, res) && b < a
    ensures SearchDone(v, shape, x, parex, res)
  {
  }

  /**
   * The handle check after the exit search: the handle of the result (the empty string for
   * no result) is compared with as many bits of x. It fails exactly when the handle does not
   * begin x, and a search whose result passes it has found its target.
   */
  method HandleCheck(nodes: seq<TrieNode>, x: Str, res: Option<nat>, ghost v: seq<Str>, ghost shape: seq<Node>)
    returns (wrong: bool)
    requires Keys(v) && ArenaOk(v, nodes, shape) && SearchDone(v, shape, x, false, res)
    ensures wrong ==> Misled(v, shape, x, res)
    ensures !wrong ==> Finds(shape, res, Target(v, x, false))
  {
    var handle: Str := [];
    if res.Some? {
      TargetIsHit(v, x, false);
      HandleAgrees(v, nodes, shape, res.value);
      handle := GetHandle(nodes, res.value).value;
    }
    wrong := handle != x[..Min(|x|, |handle|)];
  }

  /**
   * Either search's target locates the exit node: without a target the exit node is the root;
   * with one, it is the target itself when the descent stops there, and otherwise the child
   * the descent goes to next.
   */
  lemma TargetsLocateExit(v: seq<Str>, shape: seq<Node>, x: Str, sigma: Option<nat>)
    requires Keys(v)
    requires Finds(shape, sigma, Target(v, x, false)) || Finds(shape, sigma, Target(v, x, true))
    ensures sigma.None? ==> Exit(v, x) == Root(v)
    ensures sigma.Some? ==>
      && sigma.value < |shape| && Wf(v, shape[sigma.value]) && !IsLeaf(shape[sigma.value])
      && (Descends(v, shape[sigma.value], x) ==> Next(v, shape[sigma.value], x) == Exit(v, x))
      && (!Descends(v, shape[sigma.value], x) ==> shape[sigma.value] == Exit(v, x))
  {
    TargetLocatesExit(v, x, false);
    TargetLocatesExit(v, x, true);
  }

  /**
   * The test locate_exit_from_node applies to an internal node s: its extent, as the records
   * give it, is shorter than x and begins x exactly when the descent towards x goes on below
   * s, and then the child link named by the next bit of x leads to the child it goes to.
   */
  lemma DescentTest(v: seq<Str>, nodes: seq<TrieNode>, shape: seq<Node>, s: nat, x: Str)
    requires ArenaOk(v, nodes, shape) && s < |nodes| && !IsLeaf(shape[s])
    ensures InRange(v, shape[s])
    ensures Linked(nodes, s) && GetRind(nodes, s) <= |ExtentSource(nodes, s)|
    ensures |GetExtent(nodes, s)| == Rind(v, shape[s])
    ensures var e := GetExtent(nodes, s);
      (|e| < |x| && e == x[..Min(|e|, |x|)]) <==> Descends(v, shape[s], x)
    ensures Descends(v, shape[s], x) ==>
      var c := if !x[Rind(v, shape[s])] then nodes[s].left else nodes[s].right;
      c.Some? && c.value < |shape| && shape[c.value] == Next(v, shape[s], x)
  {
    ExtentAgrees(v, nodes, shape, s);
    assert NodeOk(v, nodes, shape, s);
  }

  // ---------------------------------------------------------------------------------------
  // Reading the answers off the exit node.

  /** Index p holds a leaf, and the extent its record gives is its key. */
  ghost predicate LeafAt(v: seq<Str>, nodes: seq<TrieNode>, shape: seq<Node>, p: nat) {
    && p < |nodes| == |shape| && IsLeaf(shape[p]) && InRange(v, shape[p])
    && Linked(nodes, p) && GetRind(nodes, p) <= |ExtentSource(nodes, p)|
    && GetExtent(nodes, p) == v[shape[p].l]
  }

  lemma LeafExtent(v: seq<Str>, nodes: seq<TrieNode>, shape: seq<Node>, p: nat)
    requires ArenaOk(v, nodes, shape) && p < |nodes| && IsLeaf(shape[p])
    ensures LeafAt(v, nodes, shape, p)
  {
    ExtentAgrees(v, nodes, shape, p);
  }

  /** The leaf of the first key not less than x holds the successor; its left link leads to the predecessor. */
  lemma LeftLinkAnswers(v: seq<Str>, nodes: seq<TrieNode>, shape: seq<Node>, x: Str, leaf: nat)
    requires ArenaOk(v, nodes, shape) && LeavesThreaded(v, nodes, shape)
    requires leaf < |nodes| && IsLeaf(shape[leaf]) && LowerBound(v, x) == shape[leaf].l
    ensures && LeafAt(v, nodes, shape, leaf) && SuccOf(v, x) == Some(GetExtent(nodes, leaf))
      && (nodes[leaf].jumpLeft.None? ==> PredOf(v, x) == None)
      && (nodes[leaf].jumpLeft.Some? ==>
            LeafAt(v, nodes, shape, nodes[leaf].jumpLeft.value)
            && PredOf(v, x) == Some(GetExtent(nodes, nodes[leaf].jumpLeft.value)))
  {
    LeafExtent(v, nodes, shape, leaf);
    assert Threaded(nodes, shape, leaf, 0, |v|, None);
    var p := nodes[leaf].jumpLeft;
    if p.Some? {
      LeafExtent(v, nodes, shape, p.value);
    }
  }

  /** The right link of a leaf is empty at the last key and otherwise leads to the leaf of the next key. */
  lemma NextLeaf(v: seq<Str>, nodes: seq<TrieNode>, shape: seq<Node>, leaf: nat)
    requires ArenaOk(v, nodes, shape) && LeavesThreaded(v, nodes, shape)
    requires leaf < |nodes| && IsLeaf(shape[leaf])
    ensures var p := nodes[leaf].jumpRight;
      && shape[leaf].r <= |v|
      && (p.None? <==> shape[leaf].r == |v|)
      && (p.Some? ==> LeafAt(v, nodes, shape, p.value) && shape[p.value].l == shape[leaf].r)
  {
    assert InRange(v, shape[leaf]) by {
      assert NodeOk(v, nodes, shape, leaf);
    }
    assert Threaded(nodes, shape, leaf, 0, |v|, None);
    var p := nodes[leaf].jumpRight;
    if p.Some? {
      LeafExtent(v, nodes, shape, p.value);
    }
  }

  /** With the first k keys less than x, the predecessor is key k - 1 and the successor key k. */
  lemma AnswersAround(v: seq<Str>, x: Str, k: nat)
    requires 0 < k <= |v| && LowerBound(v, x) == k
    ensures PredOf(v, x) == Some(v[k - 1])
    ensures SuccOf(v, x) == if k == |v| then None else Some(v[k])
  {
  }

  /** The leaf of the last key less than x holds the predecessor; its right link leads to the successor. */
  lemma RightLinkAnswers(v: seq<Str>, nodes: seq<TrieNode>, shape: seq<Node>, x: Str, leaf: nat)
    requires ArenaOk(v, nodes, shape) && LeavesThreaded(v, nodes, shape)
    requires leaf < |nodes| && IsLeaf(shape[leaf]) && LowerBound(v, x) == shape[leaf].r
    ensures && LeafAt(v, nodes, shape, leaf) && PredOf(v, x) == Some(GetExtent(nodes, leaf))
      && (nodes[leaf].jumpRight.None? ==> SuccOf(v, x) == None)
      && (nodes[leaf].jumpRight.Some? ==>
            LeafAt(v, nodes, shape, nodes[leaf].jumpRight.value)
            && SuccOf(v, x) == Some(GetExtent(nodes, nodes[leaf].jumpRight.value)))
  {
    LeafExtent(v, nodes, shape, leaf);
    NextLeaf(v, nodes, shape, leaf);
    AnswersAround(v, x, shape[leaf].r);
  }

  /**
   * When x is at most the extent of its exit node e, the keys below e are the first keys not
   * less than x: the leftmost leaf of e holds the successor of x and its left link leads to
   * the leaf of the predecessor, or is empty when there is none.
   */
  lemma QueryLeft(v: seq<Str>, nodes: seq<TrieNode>, shape: seq<Node>, x: Str, e: nat)
    requires Keys(v) && FitsUsize(v) && ArenaOk(v, nodes, shape)
    requires JumpsLinked(nodes) && JumpsOk(v, nodes, shape) && LeavesThreaded(v, nodes, shape)
    requires e < |nodes| && shape[e] == Exit(v, x) && Wf(v, shape[e]) && Le(x, Extent(v, shape[e]))
    ensures var leaf := GetLeftmost(nodes, e);
      && LeafAt(v, nodes, shape, leaf) && SuccOf(v, x) == Some(GetExtent(nodes, leaf))
      && (nodes[leaf].jumpLeft.None? ==> PredOf(v, x) == None)
      && (nodes[leaf].jumpLeft.Some? ==>
            LeafAt(v, nodes, shape, nodes[leaf].jumpLeft.value)
            && PredOf(v, x) == Some(GetExtent(nodes, nodes[leaf].jumpLeft.value)))
  {
    ExitStops(v, x);
    StopLowerBound(v, shape[e], x);
    LeftmostAgrees(v, nodes, shape, e);
    LeftLinkAnswers(v, nodes, shape, x, GetLeftmost(nodes, e));
  }

  /**
   * When x is greater than the extent of its exit node e, the keys below e are the last keys
   * less than x: the rightmost leaf of e holds the predecessor of x and its right link leads
   * to the leaf of the successor, or is empty when there is none.
   */
  lemma QueryRight(v: seq<Str>, nodes: seq<TrieNode>, shape: seq<Node>, x: Str, e: nat)
    requires Keys(v) && FitsUsize(v) && ArenaOk(v, nodes, shape)
    requires JumpsLinked(nodes) && JumpsOk(v, nodes, shape) && LeavesThreaded(v, nodes, shape)
    requires e < |nodes| && shape[e] == Exit(v, x) && Wf(v, shape[e]) && !Le(x, Extent(v, shape[e]))
    ensures var leaf := GetRightmost(nodes, e);
      && LeafAt(v, nodes, shape, leaf) && PredOf(v, x) == Some(GetExtent(nodes, leaf))
      && (nodes[leaf].jumpRight.None? ==> SuccOf(v, x) == None)
      && (nodes[leaf].jumpRight.Some? ==>
            LeafAt(v, nodes, shape, nodes[leaf].jumpRight.value)
            && SuccOf(v, x) == Some(GetExtent(nodes, nodes[leaf].jumpRight.value)))
  {
    ExitStops(v, x);
    StopAboveBound(v, shape[e], x);
    RightmostAgrees(v, nodes, shape, e);
    RightLinkAnswers(v, nodes, shape, x, GetRightmost(nodes, e));
  }

  /**
   * The extent of the exit node of x, cut to at most |x| bits, begins the first key below the
   * exit node, and it is x itself exactly when some key begins with x.
   */
  lemma PrefixAnswer(v: seq<Str>, x: Str)
    requires Keys(v)
    ensures var e := Exit(v, x);
      && InRange(v, e) && var r := Extent(v, e)[..Min(Rind(v, e), |x|)];
      && |r| <= |x| && IsPrefix(r, v[e.l])
      && (r == x <==> exists i :: 0 <= i < |v| && IsPrefix(x, v[i]))
  {
    var e := Exit(v, x);
    ExitStops(v, x);
    StopPrefix(v, e, x);
  }

  /** ex_pref_query's answer on any store: some key begins with x exactly when the successor of x does. */
  lemma ExPrefAnswer(v: seq<Str>, x: Str)
    requires Sorted(v)
    ensures ExPrefOf(v, x) <==> exists i :: 0 <= i < |v| && IsPrefix(x, v[i])
  {
    ExPrefIff(v, x);
    if i :| 0 <= i < |v| && IsPrefix(x, v[i]) {
      assert v[i] in v;
    }
  }

  // ---------------------------------------------------------------------------------------
  // The walks of is_nonempty down a spine.

  /**
   * A node with a leaf link is internal, and its jump links lead to earlier nodes on its left
   * and right spines.
   */
  lemma JumpStep(v: seq<Str>, nodes: seq<TrieNode>, shape: seq<Node>, j: nat)
    requires FitsUsize(v) && ArenaOk(v, nodes, shape) && JumpsLinked(nodes) && JumpsOk(v, nodes, shape)
    requires j < |nodes| && nodes[j].toLeaf.Some?
    ensures nodes[j].jumpLeft.Some? && nodes[j].jumpLeft.value < j
    ensures shape[nodes[j].jumpLeft.value].l == shape[j].l
    ensures nodes[j].jumpRight.Some? && nodes[j].jumpRight.value < j
    ensures shape[nodes[j].jumpRight.value].r == shape[j].r
  {
    assert NodeOk(v, nodes, shape, j);
    JumpLeftDown(v, shape[j]);
    JumpRightDown(v, shape[j]);
  }

  /** A walk stops at a leaf, or at an internal node whose extent is at least len bits long. */
  lemma WalkStops(v: seq<Str>, nodes: seq<TrieNode>, shape: seq<Node>, j: nat, len: nat)
    requires ArenaOk(v, nodes, shape) && j < |nodes|
    requires Linked(nodes, j) && GetRind(nodes, j) <= |ExtentSource(nodes, j)|
    requires InRange(v, shape[j]) && GetExtent(nodes, j) == Extent(v, shape[j])
    requires !(nodes[j].toLeaf.Some? && |GetExtent(nodes, j)| < len)
    ensures Wf(v, shape[j]) && (IsLeaf(shape[j]) || Rind(v, shape[j]) >= len)
  {
    assert NodeOk(v, nodes, shape, j);
  }

  /** Where the walk down the left spine of i towards w stops, the node compares with w as v[i.l] does. */
  lemma LeftWalkEnd(v: seq<Str>, nodes: seq<TrieNode>, shape: seq<Node>, i: nat, j: nat, w: Str)
    requires ArenaOk(v, nodes, shape) && i < |nodes| && j < |nodes| && InRange(v, shape[i])
    requires Wf(v, shape[j]) && shape[j].l == shape[i].l
    requires Linked(nodes, j) && GetRind(nodes, j) <= |ExtentSource(nodes, j)|
    requires GetExtent(nodes, j) == Extent(v, shape[j])
    requires !(nodes[j].toLeaf.Some? && |GetExtent(nodes, j)| < |w|)
    ensures Lt(GetExtent(nodes, j), w) <==> Lt(v[shape[i].l], w)
  {
    WalkStops(v, nodes, shape, j, |w|);
    SpineEndLeft(v, shape[j], w);
  }

  /** The same for the walk down the right spine, with the last key v[i.r - 1]. */
  lemma RightWalkEnd(v: seq<Str>, nodes: seq<TrieNode>, shape: seq<Node>, i: nat, j: nat, w: Str)
    requires ArenaOk(v, nodes, shape) && i < |nodes| && j < |nodes| && InRange(v, shape[i])
    requires Wf(v, shape[j]) && shape[j].r == shape[i].r
    requires Linked(nodes, j) && GetRind(nodes, j) <= |ExtentSource(nodes, j)|
    requires GetExtent(nodes, j) == Extent(v, shape[j])
    requires !(nodes[j].toLeaf.Some? && |GetExtent(nodes, j)| < |w|)
    ensures Le(w, GetExtent(nodes, j)) <==> Le(w, v[shape[i].r - 1])
  {
    WalkStops(v, nodes, shape, j, |w|);
    SpineEndRight(v, shape[j], w);
  }

  /**
   * The walk of is_nonempty down the left spine of node i towards the bound w: follow
   * jump_left while the node is internal and its extent shorter than w. The node reached
   * compares with w as the first key below i does.
   */
  method SkipLeft(nodes: seq<TrieNode>, i: nat, w: Str, ghost v: seq<Str>, ghost shape: seq<Node>) returns (j: nat)
    requires FitsUsize(v) && ArenaOk(v, nodes, shape) && JumpsLinked(nodes) && JumpsOk(v, nodes, shape)
    requires i < |nodes|
    ensures InRange(v, shape[i])
    ensures j < |nodes| && Linked(nodes, j) && GetRind(nodes, j) <= |ExtentSource(nodes, j)|
    ensures Lt(GetExtent(nodes, j), w) <==> Lt(v[shape[i].l], w)
  {
    assert NodeOk(v, nodes, shape, i);
    j := i;
    ExtentAgrees(v, nodes, shape, j);
    while nodes[j].toLeaf.Some? && |GetExtent(nodes, j)| < |w|
      invariant j < |nodes| && shape[j].l == shape[i].l
      invariant Wf(v, shape[j]) && Linked(nodes, j) && GetRind(nodes, j) <= |ExtentSource(nodes, j)|
      invariant GetExtent(nodes, j) == Extent(v, shape[j])
      decreases j
    {
      JumpStep(v, nodes, shape, j);
      j := nodes[j].jumpLeft.value;
      ExtentAgrees(v, nodes, shape, j);
    }
    LeftWalkEnd(v, nodes, shape, i, j, w);
  }

  /**
   * The walk down the right spine of node i towards the bound w, by jump_right. The node
   * reached compares with w as the last key below i does.
   */
  method SkipRight(nodes: seq<TrieNode>, i: nat, w: Str, ghost v: seq<Str>, ghost shape: seq<Node>) returns (j: nat)
    requires FitsUsize(v) && ArenaOk(v, nodes, shape) && JumpsLinked(nodes) && JumpsOk(v, nodes, shape)
    requires i < |nodes|
    ensures InRange(v, shape[i])
    ensures j < |nodes| && Linked(nodes, j) && GetRind(nodes, j) <= |ExtentSource(nodes, j)|
    ensures Le(w, GetExtent(nodes, j)) <==> Le(w, v[shape[i].r - 1])
  {
    assert NodeOk(v, nodes, shape, i);
    j := i;
    ExtentAgrees(v, nodes, shape, j);
    while nodes[j].toLeaf.Some? && |GetExtent(nodes, j)| < |w|
      invariant j < |nodes| && shape[j].r == shape[i].r
      invariant Wf(v, shape[j]) && Linked(nodes, j) && GetRind(nodes, j) <= |ExtentSource(nodes, j)|
      invariant GetExtent(nodes, j) == Extent(v, shape[j])
      decreases j
    {
      JumpStep(v, nodes, shape, j);
      j := nodes[j].jumpRight.value;
      ExtentAgrees(v, nodes, shape, j);
    }
    RightWalkEnd(v, nodes, shape, i, j, w);
  }

  /**
   * In the third case of is_nonempty the exit node of lcp(x, y) is internal: its left child
   * ends and its right child starts at its split point.
   */
  lemma PartingChildren(v: seq<Str>, nodes: seq<TrieNode>, shape: seq<Node>, x: Str, y: Str, z: Str, eta: nat)
    requires Keys(v) && ArenaOk(v, nodes, shape) && x != y
    requires !Le(x, Extent(v, Exit(v, x))) && Le(x, Extent(v, Exit(v, y)))
    requires IsPrefix(z, x) && |z| == CommonPrefixLength(x, y)
    requires eta < |nodes| && shape[eta] == Exit(v, z)
    ensures InRange(v, shape[eta]) && !IsLeaf(shape[eta])
    ensures var nd, m := nodes[eta], Mid(v, shape[eta]);
      && nd.left.Some? && nd.left.value < |nodes| && shape[nd.left.value].r == m
      && nd.right.Some? && nd.right.value < |nodes| && shape[nd.right.value].l == m
      && m == Mid(v, Exit(v, CommonPrefix(x, y)))
  {
    PartingNode(v, x, y);
    assert z == CommonPrefix(x, y);
    assert NodeOk(v, nodes, shape, eta);
  }

  /**
   * The third case of is_nonempty at the internal node eta where x and y part: walk down the
   * right spine of its left child towards x and, unless x is at most the node reached, down
   * the left spine of its right child towards y. The answer is whether x is at most the last
   * key on the left or the first key on the right is less than y.
   */
  method PartedRange(nodes: seq<TrieNode>, eta: nat, x: Str, y: Str, ghost v: seq<Str>, ghost shape: seq<Node>)
    returns (b: bool)
    requires FitsUsize(v) && ArenaOk(v, nodes, shape) && JumpsLinked(nodes) && JumpsOk(v, nodes, shape)
    requires eta < |nodes| && InRange(v, shape[eta]) && !IsLeaf(shape[eta])
    requires var nd, m := nodes[eta], Mid(v, shape[eta]);
      && nd.left.Some? && nd.left.value < |nodes| && shape[nd.left.value].r == m
      && nd.right.Some? && nd.right.value < |nodes| && shape[nd.right.value].l == m
    ensures var m := Mid(v, shape[eta]); b == (Le(x, v[m - 1]) || Lt(v[m], y))
  {
    var alpha := SkipRight(nodes, nodes[eta].left.value, x, v, shape);
    if Cmp(x, GetExtent(nodes, alpha)) != Greater {
      return true;
    }
    var beta := SkipLeft(nodes, nodes[eta].right.value, y, v, shape);
    b := Cmp(GetExtent(nodes, beta), y) == Less;
  }

  // ---------------------------------------------------------------------------------------
  // What build leaves.

  /** Sorting keeps every key within the usize bound. */
  lemma FitsUsizeSorted(input: seq<Str>, x: seq<Str>)
    requires FitsUsize(input) && multiset(x) == multiset(input)
    ensures FitsUsize(x)
  {
    forall i | 0 <= i < |x|
      ensures |x[i]| < UsizeMax
    {
      assert x[i] in multiset(x);
      assert x[i] in multiset(input);
      var j :| 0 <= j < |input| && input[j] == x[i];
    }
  }

  /** A leaf whose record did not change keeps its threading when only other jump links changed. */
  lemma LeafStaysThreaded(v: seq<Str>, a: seq<TrieNode>, b: seq<TrieNode>, shape: seq<Node>, j: nat)
    requires |a| == |shape| && SameRecords(a, b) && j < |a| && IsLeaf(shape[j]) && b[j] == a[j]
    requires Threaded(a, shape, j, 0, |v|, None)
    ensures Threaded(b, shape, j, 0, |v|, None)
  {
    var p := a[j].toInternal;
    if p.Some? && p.value < |a| {
      assert SameRecord(a[p.value], b[p.value]);
    }
  }

  /** The z-map precalc_z_map fills leads each internal node's handle to that node. */
  lemma ZMapComplete(v: seq<Str>, shape: seq<Node>, zMap: map<Str, nat>)
    requires Keys(v) && ZMapSound(v, shape, zMap)
    requires forall m :: IsNode(v, m) && Wf(v, m) && !IsLeaf(m) ==> Handle(v, m) in zMap
    ensures ZMapOk(v, shape, zMap)
  {
    forall n | IsNode(v, n) && Wf(v, n) && !IsLeaf(n)
      ensures zMap[Handle(v, n)] < |shape| && shape[zMap[Handle(v, n)]] == n
    {
      var h := Handle(v, n);
      HandlesInjective(v, shape[zMap[h]], n);
    }
  }

  /** Leaves whose records did not change stay threaded. */
  lemma LeavesFinished(v: seq<Str>, nodes: seq<TrieNode>, nodes': seq<TrieNode>, shape: seq<Node>)
    requires |nodes| == |shape| && SameRecords(nodes, nodes')
    requires forall j :: 0 <= j < |nodes| && IsLeaf(shape[j]) ==> nodes'[j] == nodes[j]
    requires forall j {:trigger Threaded(nodes, shape, j, 0, |v|, None)} :: 0 <= j < |nodes| ==>
      Threaded(nodes, shape, j, 0, |v|, None)
    ensures LeavesThreaded(v, nodes', shape)
  {
    forall j | 0 <= j < |nodes'| && IsLeaf(shape[j])
      ensures Threaded(nodes', shape, j, 0, |v|, None)
    {
      LeafStaysThreaded(v, nodes, nodes', shape, j);
    }
  }

  /** Jump links set on every internal node of the trie make both jump predicates hold. */
  lemma JumpsFinished(v: seq<Str>, nodes: seq<TrieNode>, shape: seq<Node>)
    requires ArenaOk(v, nodes, shape)
    requires forall j :: 0 <= j < |nodes| && Wf(v, shape[j]) && !IsLeaf(shape[j]) ==> JumpAt(v, nodes, shape, j)
    ensures JumpsOk(v, nodes, shape) && JumpsLinked(nodes)
  {
    forall j | 0 <= j < |nodes| && nodes[j].extent.None?
      ensures nodes[j].jumpLeft.Some? && nodes[j].jumpLeft.value < j
      ensures nodes[j].jumpRight.Some? && nodes[j].jumpRight.value < j
    {
      assert NodeOk(v, nodes, shape, j);
      assert JumpAt(v, nodes, shape, j);
    }
  }

  /** What build_tree leaves for all the keys: an arena of the whole trie, each node once. */
  lemma TreeBuilt(v: seq<Str>, nodes: seq<TrieNode>, shape: seq<Node>)
    requires Subtree(v, nodes, shape, 0, Root(v), None)
    ensures ArenaOk(v, nodes, shape) && DistinctShapes(shape)
    ensures forall j :: 0 <= j < |nodes| ==> IsNode(v, shape[j])
    ensures forall j {:trigger Threaded(nodes, shape, j, 0, |v|, None)} :: 0 <= j < |nodes| ==>
      Threaded(nodes, shape, j, 0, |v|, None)
  {
  }

  /**
   * The part of build after sorting: build_tree over all the keys with no leaf before them,
   * then precalc_z_map and precalc_jumps from the root.
   */
  method BuildArena(x: seq<Str>) returns (out: Outcome, r: nat, nodes: seq<TrieNode>, zMap: map<Str, nat>,
                                          ghost shape: seq<Node>)
    requires Sorted(x) && FitsUsize(x)
    ensures out.Done? <==> Keys(x)
    ensures out.Done? ==> TrieOk(x, nodes, shape, zMap, r)
  {
    var o, ns, _, res, _, sh, _ := BuildTree(x, 0, 0, |x|, [], None, []);
    r, nodes, zMap, shape := 0, ns, map[], sh;
    if o.Panic? {
      return Panic, r, nodes, zMap, shape;
    }
    assert Subtree(x, ns, sh, 0, Root(x), None);
    TreeBuilt(x, ns, sh);
    r := res.value;
    RootWf(x);
    zMap := PrecalcZMap(ns, r, map[], x, sh);
    nodes := PrecalcJumps(ns, r, x, sh);
    RecordsKeepArena(x, ns, nodes, sh);
    LeavesFinished(x, ns, nodes, sh);
    JumpsFinished(x, nodes, sh);
    ZMapComplete(x, sh, zMap);
    out := Done;
  }

  // ---------------------------------------------------------------------------------------
  // The trie.

  /**
   * The second case of is_nonempty: x lies beyond the extents of the exit nodes of x and of
   * y, so the range is nonempty when x is at most the last key below the exit node of y.
   */
  method RangeBeyond(ns: seq<TrieNode>, beta: nat, x: Str, y: Str, ghost v: seq<Str>, ghost sh: seq<Node>)
    returns (b: bool)
    requires Keys(v) && FitsUsize(v) && ArenaOk(v, ns, sh) && JumpsLinked(ns) && JumpsOk(v, ns, sh) && x != y
    requires !Le(x, Extent(v, Exit(v, x)))
    requires beta < |sh| && sh[beta] == Exit(v, y) && !Le(x, Extent(v, sh[beta]))
    ensures b == IsNonemptyAsWritten(v, x, y)
  {
    var c := SkipRight(ns, beta, x, v, sh);
    b := Cmp(x, GetExtent(ns, c)) != Greater;
    SecondCase(ns, beta, c, x, y, v, sh);
    AsWrittenSecond(v, x, y);
  }

  /** Case 2 of is_nonempty: the rightmost leaf c below the exit node of y decides. */
  lemma SecondCase(ns: seq<TrieNode>, beta: nat, c: nat, x: Str, y: Str, v: seq<Str>, sh: seq<Node>)
    requires Keys(v)
    requires beta < |sh| && sh[beta] == Exit(v, y) && InRange(v, sh[beta])
    requires c < |ns| && Linked(ns, c) && GetRind(ns, c) <= |ExtentSource(ns, c)|
    requires Le(x, GetExtent(ns, c)) <==> Le(x, v[sh[beta].r - 1])
    ensures (Cmp(x, GetExtent(ns, c)) != Greater) == Le(x, v[Exit(v, y).r - 1])
  {
    assert v[sh[beta].r - 1] == v[Exit(v, y).r - 1];
  }

  class ZFastTrie {
    /** The index of the root in the arena, None before the first build. */
    var root: Option<nat>
    /** The arena of node records; a pointer of the source is an index into it. */
    var nodes: seq<TrieNode>
    /** The z-map: the handle of every internal node, hashed by the identity hash, to its index. */
    var zMap: map<Str, nat>
    /** The sorted keys the trie was built from. */
    ghost var keys: seq<Str>
    /** The node of the trie of keys that each index of the arena stands for. */
    ghost var shape: seq<Node>

    ghost predicate Valid()
      reads this
    {
      Holds(root, keys, nodes, shape, zMap)
    }

    /** new(): an empty trie. */
    constructor ()
      ensures Valid() && root.None? && keys == []
    {
      root, nodes, zMap := None, [], map[];
      keys, shape := [], [];
    }

    /**
     * build(v): sort the input, build the tree with its leaves threaded, then fill the z-map and
     * set the jump links from the root. build_tree panics on an empty input (it reads v[0]) and
     * on keys of which one is a prefix of another.
     */
    method Build(input: seq<Str>) returns (out: Outcome)
      requires FitsUsize(input)
      modifies this
      ensures Sorted(keys) && multiset(keys) == multiset(input)
      ensures out.Done? <==> Keys(keys)
      ensures out.Done? ==> Valid() && root.Some?
    {
      var x := SortByCmp(input);
      FitsUsizeSorted(input, x);
      keys := x;
      zMap := map[];
      var r, ns, z; ghost var sh;
      out, r, ns, z, sh := BuildArena(x);
      if out.Done? {
        root, nodes, zMap, shape := Some(r), ns, z, sh;
      }
    }

    /** The record of node i agrees with the node it stands for. */
    lemma NodeFacts(i: nat)
      requires Valid() && root.Some? && i < |nodes|
      ensures IsNode(keys, shape[i]) && Wf(keys, shape[i])
      ensures Linked(nodes, i) && GetRind(nodes, i) == Rind(keys, shape[i]) && nodes[i].lind == shape[i].lind
    {
      NodeLinked(keys, nodes, shape, i);
      assert NodeOk(keys, nodes, shape, i);
    }

    /**
     * locate_exit_or_parex_prob(x): the fat binary search over the z-map. A node found under the
     * queried prefix is accepted when its handle length is the queried length. The result is
     * the target of the exit search, unless an entry that is not a hit was accepted, in which
     * case the handle of the result does not begin x.
     */
    method LocateExitOrParexProb(x: Str) returns (res: Option<nat>)
      requires Valid() && root.Some?
      ensures SearchDone(keys, shape, x, false, res)
    {
      ghost var v, sh := keys, shape;
      var z, ns := zMap, nodes;
      assert TrieOk(v, ns, sh, z, root.value);
      res := None;
      var a: nat, b: nat := 0, |x|;
      var hash := NH.NaiveHash();
      var state := hash.ComputeState(x);
      var m := Calc(b);
      ghost var node: Option<Node> := None;
      SearchBegins(v, sh, x, false);
      while a <= b
        invariant Searching(v, sh, x, false, a, b, m, node, res)
        decreases if a <= b then b + 1 - a else 0, m
      {
        ghost var a0, b0, m0, node0, res0 := a, b, m, node, res;
        if Queries(a, b, m) {
          var f := QueryLength(a, b, m);
          MaskQuery(a, b, m);
          var key := hash.FastPrefixHash(x, state, f);
          assert key == x[..f];
          ghost var ans := if key in z then Some(z[key]) else None;
          MapAnswers(v, sh, z, key);
          if key in z {
            var i := z[key];
            NodeLinked(v, ns, sh, i);
            assert NodeOk(v, ns, sh, i);
            var rind := GetRind(ns, i);
            var lind := ns[i].lind;
            if GetFattest(rind, lind) == f {
              a, res, node, m := rind + 1, Some(i), Some(sh[i]), ShiftMask(m);
              SearchAccept(v, sh, x, false, a0, b0, m0, node0, res0, f, i, a, m);
              continue;
            }
          }
          if f == 0 {
            SearchStop(v, sh, x, false, a, b, m, node, res, ans);
            break;
          }
          b, m := f - 1, ShiftMask(m);
          SearchMiss(v, sh, x, false, a0, b0, m0, node0, res0, f, ans, b, m);
        } else {
          m := ShiftMask(m);
          SearchSkip(v, sh, x, false, a0, b0, m0, node0, res0, m);
        }
      }
      if a > b {
        SearchExit(v, sh, x, false, a, b, m, node, res);
      }
    }
      /**
     * locate_parex(x): the same search, but a node is accepted only when, besides its handle
     * length being the queried length, its extent is a proper prefix of x. No wrong node can
     * pass that test, so the result is the deepest internal node whose extent is a proper
     * prefix of x: the parent of the exit node, or nothing when the exit node is the root.
     */
    method LocateParex(x: Str) returns (res: Option<nat>)
      requires Valid() && root.Some?
      ensures Finds(shape, res, Target(keys, x, true))
    {
      ghost var v, sh := keys, shape;
      var z, ns := zMap, nodes;
      assert TrieOk(v, ns, sh, z, root.value);
      res := None;
      var a: nat, b: nat := 0, |x|;
      var hash := NH.NaiveHash();
      var state := hash.ComputeState(x);
      var m := Calc(b);
      ghost var node: Option<Node> := None;
      SearchBegins(v, sh, x, true);
      while a <= b
        invariant Searching(v, sh, x, true, a, b, m, node, res)
        decreases if a <= b then b + 1 - a else 0, m
      {
        ghost var a0, b0, m0, node0, res0 := a, b, m, node, res;
        if Queries(a, b, m) {
          var f := QueryLength(a, b, m);
          MaskQuery(a, b, m);
          var key := hash.FastPrefixHash(x, state, f);
          assert key == x[..f];
          ghost var ans := if key in z then Some(z[key]) else None;
          MapAnswers(v, sh, z, key);
          if key in z {
            var i := z[key];
            ParexTest(v, ns, sh, i, x, f);
            var extent := GetExtent(ns, i);
            var rind := GetRind(ns, i);
            var lind := ns[i].lind;
            if |extent| < |x| && GetFattest(rind, lind) == f && extent == x[..|extent|] {
              a, res, node, m := rind + 1, Some(i), Some(sh[i]), ShiftMask(m);
              SearchAccept(v, sh, x, true, a0, b0, m0, node0, res0, f, i, a, m);
              continue;
            }
          }
          if f == 0 {
            SearchStop(v, sh, x, true, a, b, m, node, res, ans);
            break;
          }
          b, m := f - 1, ShiftMask(m);
          SearchMiss(v, sh, x, true, a0, b0, m0, node0, res0, f, ans, b, m);
        } else {
          m := ShiftMask(m);
          SearchSkip(v, sh, x, true, a0, b0, m0, node0, res0, m);
        }
      }
      if a > b {
        SearchExit(v, sh, x, true, a, b, m, node, res);
      }
    }

    /**
     * locate_exit_or_parex(x): the probabilistic search, checked by its result's handle. When
     * that handle does not begin x (a wrongly accepted node), locate_parex is used instead.
     * The result is the target of one of the two searches.
     */
    method LocateExitOrParex(x: Str) returns (res: Option<nat>)
      requires Valid() && root.Some?
      ensures Finds(shape, res, Target(keys, x, false)) || Finds(shape, res, Target(keys, x, true))
    {
      res := LocateExitOrParexProb(x);
      var wrong := HandleCheck(nodes, x, res, keys, shape);
      if wrong {
        res := LocateParex(x);
      }
    }
      /**
     * locate_exit_from_node(x, sigma): from the target sigma of one of the two searches, the
     * exit node is sigma itself, or, when the extent of sigma is a proper prefix of x, the child
     * of sigma named by the bit of x after that extent. Without sigma it is the root. The
     * source returns an option that is never empty here; the index is returned directly.
     */
    method LocateExitFromNode(x: Str, sigma: Option<nat>) returns (eta: nat)
      requires Valid() && root.Some?
      requires Finds(shape, sigma, Target(keys, x, false)) || Finds(shape, sigma, Target(keys, x, true))
      ensures eta < |shape| && shape[eta] == Exit(keys, x)
    {
      ghost var v, sh := keys, shape;
      var ns := nodes;
      assert TrieOk(v, ns, sh, zMap, root.value);
      TargetsLocateExit(v, sh, x, sigma);
      if sigma.Some? {
        var s := sigma.value;
        DescentTest(v, ns, sh, s, x);
        var extent := GetExtent(ns, s);
        if |extent| < |x| && extent == x[..Min(|extent|, |x|)] {
          if !x[|extent|] {
            eta := ns[s].left.value;
          } else {
            eta := ns[s].right.value;
          }
        } else {
          eta := s;
        }
      } else {
        eta := root.value;
      }
    }

    /**
     * locate_exit(x): nothing for a trie never built; otherwise the exit node of x, found
     * from the result of locate_exit_or_parex, or the root when that search finds nothing.
     */
    method LocateExit(x: Str) returns (eta: Option<nat>)
      requires Valid()
      ensures root.None? ==> eta.None?
      ensures root.Some? ==> eta.Some? && eta.value < |shape| && shape[eta.value] == Exit(keys, x)
    {
      if root.None? {
        return None;
      }
      var res := LocateExitOrParex(x);
      if res.Some? {
        var e := LocateExitFromNode(x, res);
        eta := Some(e);
      } else {
        TargetsLocateExit(keys, shape, x, res);
        eta := Some(root.value);
      }
    }
    /**
     * query(x): the predecessor and the successor of x among the keys, read off the exit
     * node. When x is at most the extent of the exit node, its leftmost leaf holds the
     * successor and that leaf's left link the predecessor; otherwise its rightmost leaf holds
     * the predecessor and that leaf's right link the successor.
     */
    method Query(x: Str) returns (prev: Option<Str>, succ: Option<Str>)
      requires Valid()
      ensures prev == PredOf(keys, x) && succ == SuccOf(keys, x)
    {
      var eta := LocateExit(x);
      if eta.None? {
        return None, None;
      }
      ghost var v, sh := keys, shape;
      var ns := nodes;
      assert TrieOk(v, ns, sh, zMap, root.value);
      var e := eta.value;
      ExtentAgrees(v, ns, sh, e);
      prev, succ := None, None;
      if Cmp(x, GetExtent(ns, e)) != Greater {
        QueryLeft(v, ns, sh, x, e);
        var leaf := GetLeftmost(ns, e);
        succ := Some(GetExtent(ns, leaf));
        if ns[leaf].jumpLeft.Some? {
          prev := Some(GetExtent(ns, ns[leaf].jumpLeft.value));
        }
      } else {
        QueryRight(v, ns, sh, x, e);
        var leaf := GetRightmost(ns, e);
        prev := Some(GetExtent(ns, leaf));
        if ns[leaf].jumpRight.Some? {
          succ := Some(GetExtent(ns, ns[leaf].jumpRight.value));
        }
      }
    }

    /** pred_query(x): the greatest key less than x. */
    method PredQuery(x: Str) returns (r: Option<Str>)
      requires Valid()
      ensures r == PredOf(keys, x)
    {
      var succ;
      r, succ := Query(x);
    }

    /** succ_query(x): the least key that is not less than x. */
    method SuccQuery(x: Str) returns (r: Option<Str>)
      requires Valid()
      ensures r == SuccOf(keys, x)
    {
      var prev;
      prev, r := Query(x);
    }
    /**
     * pref_query(x): the extent of the exit node of x cut to at most |x| bits, or nothing for a
     * trie never built. It begins a key, and it is x itself exactly when some key begins with x.
     */
    method PrefQuery(x: Str) returns (r: Option<Str>)
      requires Valid()
      ensures root.None? ==> r.None?
      ensures root.Some? ==> r.Some? && |r.value| <= |x|
      ensures root.Some? ==> exists i :: 0 <= i < |keys| && IsPrefix(r.value, keys[i])
      ensures root.Some? ==> (r.value == x <==> exists i :: 0 <= i < |keys| && IsPrefix(x, keys[i]))
    {
      var eta := LocateExit(x);
      if eta.None? {
        return None;
      }
      ghost var v, sh := keys, shape;
      var ns := nodes;
      assert TrieOk(v, ns, sh, zMap, root.value);
      var e := eta.value;
      PrefixExtentAgrees(v, ns, sh, e, |x|);
      PrefixAnswer(v, x);
      r := Some(GetPrefixExtent(ns, e, |x|));
    }

    /** ex_pref_query(x): pref_query gives back x itself. True exactly when some key begins with x. */
    method ExPrefQuery(x: Str) returns (b: bool)
      requires Valid()
      ensures b == ExPrefOf(keys, x)
      ensures b <==> exists i :: 0 <= i < |keys| && IsPrefix(x, keys[i])
    {
      var p := PrefQuery(x);
      if p.Some? {
        var i := p.value;
        b := |i| == |x| && i[..Min(|i|, |x|)] == x;
      } else {
        b := false;
      }
      ExPrefAnswer(keys, x);
    }

    /**
     * is_nonempty(x, y), which ex_range_query answers with: false when x == y or the trie was
     * never built; otherwise the three cases of IsNonemptyAsWritten, read off the exit nodes
     * of x, of y and of their longest common prefix, walking down spines by jump links.
     */
    method IsNonempty(x: Str, y: Str) returns (b: bool)
      requires Valid()
      ensures root.None? ==> !b
      ensures root.Some? ==> b == IsNonemptyAsWritten(keys, x, y)
    {
      if x == y {
        return false;
      }
      var ex := LocateExit(x);
      if ex.None? {
        return false;
      }
      b := IsNonemptyFrom(x, y, ex.value);
    }

    /** is_nonempty once the exit node alpha of x is known. */
    method IsNonemptyFrom(x: Str, y: Str, alpha: nat) returns (b: bool)
      requires Valid() && root.Some? && x != y
      requires alpha < |shape| && shape[alpha] == Exit(keys, x)
      ensures b == IsNonemptyAsWritten(keys, x, y)
    {
      ghost var v, sh := keys, shape;
      var ns := nodes;
      assert TrieOk(v, ns, sh, zMap, root.value);
      ExtentAgrees(v, ns, sh, alpha);
      if Cmp(x, GetExtent(ns, alpha)) != Greater {
        AsWrittenFirst(v, x, y);
        var a := SkipLeft(ns, alpha, y, v, sh);
        return Cmp(GetExtent(ns, a), y) == Less;
      }
      var ey := LocateExit(y);
      b := IsNonemptyBeyond(x, y, ey.value);
    }

    /** is_nonempty when x is beyond the extent of its exit node and beta is the exit node of y. */
    method IsNonemptyBeyond(x: Str, y: Str, beta: nat) returns (b: bool)
      requires Valid() && root.Some? && x != y
      requires Cmp(x, Extent(keys, Exit(keys, x))) == Greater
      requires beta < |shape| && shape[beta] == Exit(keys, y)
      ensures b == IsNonemptyAsWritten(keys, x, y)
    {
      ghost var v, sh := keys, shape;
      var ns := nodes;
      assert TrieOk(v, ns, sh, zMap, root.value);
      ExtentAgrees(v, ns, sh, beta);
      if Cmp(x, GetExtent(ns, beta)) == Greater {
        b := RangeBeyond(ns, beta, x, y, v, sh);
        return;
      }
      var z := Lcp(x, y);
      var ez := LocateExit(z);
      b := IsNonemptyParted(x, y, z, ez.value);
    }

    /** is_nonempty when x and y part below eta, the exit node of their common prefix z. */
    method IsNonemptyParted(x: Str, y: Str, z: Str, eta: nat) returns (b: bool)
      requires Valid() && root.Some? && x != y && IsPrefix(z, x) && |z| == CommonPrefixLength(x, y)
      requires Cmp(x, Extent(keys, Exit(keys, x))) == Greater
      requires Cmp(x, Extent(keys, Exit(keys, y))) != Greater
      requires eta < |shape| && shape[eta] == Exit(keys, z)
      ensures b == IsNonemptyAsWritten(keys, x, y)
    {
      ghost var v, sh := keys, shape;
      var ns := nodes;
      assert TrieOk(v, ns, sh, zMap, root.value);
      PartingChildren(v, ns, sh, x, y, z, eta);
      b := PartedRange(ns, eta, x, y, v, sh);
      AsWrittenThird(v, x, y);
    }

    /**
     * ex_range_query(x, y) answered only for x < y, as the range [x, y) is empty otherwise:
     * whether some key s has x <= s < y.
     */
    method ExRangeQuery(x: Str, y: Str) returns (b: bool)
      requires Valid()
      ensures b == ExRangeOf(keys, x, y)
      ensures b <==> exists s :: s in keys && Le(x, s) && Lt(s, y)
    {
      if Cmp(x, y) != Less {
        CmpAntisymmetric(x, y);
        ExRangeEmpty(keys, x, y);
        b := false;
      } else {
        b := IsNonempty(x, y);
        if root.Some? {
          CmpAntisymmetric(y, x);
          IsNonemptyCorrect(keys, x, y);
        }
      }
      ExRangeIff(keys, x, y);
    }
  }
}
