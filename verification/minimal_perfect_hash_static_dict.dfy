/**
 * The minimal perfect-hash static dictionary (static_dicts/minimal_perfect_hash_static_dict.rs).
 * Three rolling hashes map every key to an edge of a 3-hypergraph on n vertices. Peeling
 * orders the edges so that each has a vertex of its own; replaying that order backwards gives
 * every vertex a weight in {0, 1, 2} such that the weights of an edge add up, modulo 3, to
 * the position of its own vertex. A key's own vertex is therefore found from its three
 * hashes and its weights alone, and its rank among the vertices that carry a weight is the
 * key's slot. The table has one entry per vertex, but exactly as many vertices carry a weight
 * as there are keys, so every key's slot lies below the number of keys.
 */
module MinimalPerfectHashStaticDict {
  import opened Wrappers
  import opened Strings
  import opened NaiveRank
  import opened JacobsonRank
  import opened RollingHash
  import opened Hypergraph
  import opened ModArith

  /** Smallest number of vertices of the hypergraph (minimal_perfect_hash_static_dict.rs:38). */
  const MIN_VERTICES: nat := 101

  /** The number of vertices for a given size: max(size, 101). */
  function VertexCount(size: nat): (n: nat)
    ensures n >= size && n >= MIN_VERTICES && (n == size || n == MIN_VERTICES)
  {
    if size > MIN_VERTICES then size else MIN_VERTICES
  }

  /**
   * The `size` field: 1.23 times the number of keys, rounded down. The source multiplies by a
   * floating-point 1.23; this is the exact rational product.
   */
  function TableSize(k: nat): (s: nat)
    ensures 100 * s <= 123 * k < 100 * s + 100
  {
    123 * k / 100
  }

  /** Vec::resize: keeps the first n entries and pads with x. */
  function Resize<T>(s: seq<T>, n: nat, x: T): (r: seq<T>)
    ensures |r| == n
    ensures forall i :: 0 <= i < n ==> r[i] == if i < |s| then s[i] else x
  {
    if n <= |s| then s[..n] else s + seq(n - |s|, _ => x)
  }

  // ---------------------------------------------------------------------------------------
  // Vertex weights, two bits per vertex.

  /** get_w on the two bits of one vertex: (w0 + 2 w1) - 1, and 0 for a vertex never set. */
  function WeightOf(b0: bool, b1: bool): (w: nat)
    ensures w < 3
    ensures !b0 && !b1 ==> w == 0
  {
    var x := (if b0 then 1 else 0) + 2 * (if b1 then 1 else 0);
    if x == 0 then 0 else x - 1
  }

  /** The two bits set_w stores for weight val: val + 1 in binary. */
  function WeightBits(val: nat): (bool, bool) {
    ((val + 1) % 2 == 1, val + 1 >= 2)
  }

  /** get_w reads back what set_w stored, and a stored weight always sets a bit. */
  lemma WeightRoundTrip(val: nat)
    requires val < 3
    ensures WeightOf(WeightBits(val).0, WeightBits(val).1) == val
    ensures WeightBits(val).0 || WeightBits(val).1
  {
  }

  function Weight(w0: Str, w1: Str, v: nat): (w: nat)
    requires v < |w0| && v < |w1|
    ensures w < 3
  {
    WeightOf(w0[v], w1[v])
  }

  /** The vertices of e are vertices of the weight vectors. */
  ghost predicate Covers(w0: Str, w1: Str, e: Edge) {
    |w0| == |w1| && |e| == 3 && e[0] < |w0| && e[1] < |w0| && e[2] < |w0|
  }

  /** Addition modulo 3 of two residues, as the loops of the source do it. */
  function AddMod3(s: nat, x: nat): (r: nat)
    requires s < 3 && x < 3
    ensures r == (s + x) % 3
  {
    if s + x >= 3 then s + x - 3 else s + x
  }

  /** The weights of the first t vertices of e, added up. */
  ghost function WeightSum(w0: Str, w1: Str, e: Edge, t: nat): nat
    requires Covers(w0, w1, e) && t <= 3
  {
    if t == 0 then 0 else WeightSum(w0, w1, e, t - 1) + Weight(w0, w1, e[t - 1])
  }

  /** The weights of the three vertices of e, added up modulo 3. */
  ghost function EdgeSum(w0: Str, w1: Str, e: Edge): (r: nat)
    requires Covers(w0, w1, e)
    ensures r < 3
  {
    (Weight(w0, w1, e[0]) + Weight(w0, w1, e[1]) + Weight(w0, w1, e[2])) % 3
  }

  /** One step of the summing loops: adding the next weight modulo 3. */
  lemma {:induction false} SumStep(w0: Str, w1: Str, e: Edge, t: nat, t1: nat, sum: nat, next: nat)
    requires Covers(w0, w1, e) && t < 3 && t1 == t + 1 && sum == WeightSum(w0, w1, e, t) % 3
    requires next == AddMod3(sum, Weight(w0, w1, e[t]))
    ensures next == WeightSum(w0, w1, e, t1) % 3
  {
  }

  /** After the three steps the running sum is the sum of the edge. */
  lemma {:induction false} SumComplete(w0: Str, w1: Str, e: Edge)
    requires Covers(w0, w1, e)
    ensures WeightSum(w0, w1, e, 3) % 3 == EdgeSum(w0, w1, e)
  {
    assert WeightSum(w0, w1, e, 1) == Weight(w0, w1, e[0]);
  }

  /**
   * The weight the replay gives the own vertex of an edge whose weights sum to s and whose
   * own vertex is at position i (minimal_perfect_hash_static_dict.rs:107-113).
   */
  function FreeWeight(s: nat, i: nat): (val: nat)
    requires s < 3 && i < 3
    ensures val < 3 && (s + val) % 3 == i
  {
    var c := if s > 0 then 3 - s else s;
    if c + i >= 3 then c + i - 3 else c + i
  }

  /** Changing the bits of a vertex outside e leaves e's sum alone. */
  lemma {:induction false} EdgeSumFrame(w0: Str, w1: Str, e: Edge, v: nat, b0: bool, b1: bool)
    requires Covers(w0, w1, e) && v < |w0| && v !in e
    ensures Covers(w0[v := b0], w1[v := b1], e)
    ensures EdgeSum(w0[v := b0], w1[v := b1], e) == EdgeSum(w0, w1, e)
  {
    assert e[0] != v && e[1] != v && e[2] != v;
  }

  /** Giving weight val to a vertex of e that had weight 0 adds val to e's sum. */
  lemma {:induction false} EdgeSumSet(w0: Str, w1: Str, e: Edge, i: nat, val: nat)
    requires Covers(w0, w1, e) && i < 3 && !HasRepeat(e) && val < 3
    requires Weight(w0, w1, e[i]) == 0
    ensures Covers(w0[e[i] := WeightBits(val).0], w1[e[i] := WeightBits(val).1], e)
    ensures EdgeSum(w0[e[i] := WeightBits(val).0], w1[e[i] := WeightBits(val).1], e)
            == (EdgeSum(w0, w1, e) + val) % 3
  {
    var v := e[i];
    var n0, n1 := w0[v := WeightBits(val).0], w1[v := WeightBits(val).1];
    var a0, a1, a2 := Weight(w0, w1, e[0]), Weight(w0, w1, e[1]), Weight(w0, w1, e[2]);
    var c0, c1, c2 := Weight(n0, n1, e[0]), Weight(n0, n1, e[1]), Weight(n0, n1, e[2]);
    SetWeight(w0, w1, v, e[0], val);
    SetWeight(w0, w1, v, e[1], val);
    SetWeight(w0, w1, v, e[2], val);
    assert EdgeSum(w0, w1, e) == (a0 + a1 + a2) % 3;
    assert EdgeSum(n0, n1, e) == (c0 + c1 + c2) % 3;
    if i == 0 {
      ShiftMod3(a0, a1, a2, val);
    } else if i == 1 {
      ShiftMod3(a1, a0, a2, val);
    } else {
      ShiftMod3(a2, a0, a1, val);
    }
  }

  /** Setting the weight of v to val changes the weight of v only. */
  lemma SetWeight(w0: Str, w1: Str, v: nat, u: nat, val: nat)
    requires |w0| == |w1| && v < |w0| && u < |w0| && val < 3
    ensures Weight(w0[v := WeightBits(val).0], w1[v := WeightBits(val).1], u)
            == if u == v then val else Weight(w0, w1, u)
  {
    WeightRoundTrip(val);
  }

  /** Replacing a zero summand by val adds val to a sum modulo 3. */
  lemma {:induction false} ShiftMod3(z: nat, a: nat, b: nat, val: nat)
    requires z == 0
    ensures (val + a + b) % 3 == ((z + a + b) % 3 + val) % 3
    ensures (a + val + b) % 3 == ((a + z + b) % 3 + val) % 3
    ensures (a + b + val) % 3 == ((a + b + z) % 3 + val) % 3
  {
  }

  // ---------------------------------------------------------------------------------------
  // The replay of a peeling sequence.

  /** Every record of P holds a position below 3 and an edge of three distinct vertices below n. */
  ghost predicate PeelsOn(P: seq<Peeled>, n: nat) {
    forall m :: 0 <= m < |P| ==> P[m].0 < 3 && IsEdgeOn(P[m].1, n) && FreeVertex(P[m]) < n
  }

  /**
   * The records of P from k on have been replayed: each edge's weights sum to the position of
   * its own vertex, those own vertices carry a weight, and no other vertex does.
   */
  ghost predicate Replayed(w0: Str, w1: Str, P: seq<Peeled>, k: nat, n: nat)
    requires PeelsOn(P, n)
  {
    && |w0| == n && |w1| == n && k <= |P|
    && (forall m :: k <= m < |P| ==> EdgeSum(w0, w1, P[m].1) == P[m].0)
    && (forall m :: k <= m < |P| ==> w0[FreeVertex(P[m])] || w1[FreeVertex(P[m])])
    && (forall u :: 0 <= u < n && (w0[u] || w1[u]) ==> u in FreeVertices(P)[k..])
  }

  /** The own vertex of record k lies on no edge replayed before it, so it has no weight yet. */
  lemma {:induction false} ReplayFresh(w0: Str, w1: Str, P: seq<Peeled>, rest: set<Edge>, k: nat, k1: nat, n: nat)
    requires PeelsOn(P, n) && IsPeelingSequence(P, rest)
    requires k1 == k + 1 && k1 <= |P| && Replayed(w0, w1, P, k1, n)
    ensures forall m :: k1 <= m < |P| ==> FreeVertex(P[k]) !in P[m].1 && FreeVertex(P[m]) != FreeVertex(P[k])
    ensures !w0[FreeVertex(P[k])] && !w1[FreeVertex(P[k])]
  {
    var v := FreeVertex(P[k]);
    forall m | k1 <= m < |P|
      ensures v !in P[m].1 && FreeVertex(P[m]) != v
    {
      assert FreeVertex(P[m]) in P[m].1;
    }
    assert v !in FreeVertices(P)[k1..];
  }

  /** After the weight of record k's own vertex is set, the edges of records k.. sum right. */
  lemma {:induction false} ReplaySums(w0: Str, w1: Str, P: seq<Peeled>, k: nat, k1: nat, n: nat, val: nat)
    requires PeelsOn(P, n) && k1 == k + 1 && k1 <= |P| && |w0| == n && |w1| == n
    requires forall m :: k1 <= m < |P| ==> EdgeSum(w0, w1, P[m].1) == P[m].0
    requires forall m :: k1 <= m < |P| ==> FreeVertex(P[k]) !in P[m].1
    requires !w0[FreeVertex(P[k])] && !w1[FreeVertex(P[k])]
    requires Covers(w0, w1, P[k].1) && val == FreeWeight(EdgeSum(w0, w1, P[k].1), P[k].0)
    ensures var v := FreeVertex(P[k]);
            forall m :: k <= m < |P| ==>
              Covers(w0[v := WeightBits(val).0], w1[v := WeightBits(val).1], P[m].1)
              && EdgeSum(w0[v := WeightBits(val).0], w1[v := WeightBits(val).1], P[m].1) == P[m].0
  {
    var e, i, v := P[k].1, P[k].0, FreeVertex(P[k]);
    var b0, b1 := WeightBits(val).0, WeightBits(val).1;
    var n0, n1 := w0[v := b0], w1[v := b1];
    assert v == e[i];
    EdgeSumSet(w0, w1, e, i, val);
    var s := EdgeSum(w0, w1, e);
    assert EdgeSum(n0, n1, e) == (s + val) % 3;
    assert (s + val) % 3 == i;
    forall m | k <= m < |P|
      ensures Covers(n0, n1, P[m].1) && EdgeSum(n0, n1, P[m].1) == P[m].0
    {
      if m != k {
        var f := P[m].1;
        assert Covers(w0, w1, f);
        EdgeSumFrame(w0, w1, f, v, b0, b1);
      }
    }
  }

  /** After the weight of record k's own vertex is set, exactly the own vertices of k.. carry one. */
  lemma {:induction false} ReplayMarks(w0: Str, w1: Str, P: seq<Peeled>, k: nat, k1: nat, n: nat, val: nat)
    requires PeelsOn(P, n) && k1 == k + 1 && k1 <= |P| && Replayed(w0, w1, P, k1, n) && val < 3
    requires forall m :: k1 <= m < |P| ==> FreeVertex(P[m]) != FreeVertex(P[k])
    ensures var v := FreeVertex(P[k]);
            var n0, n1 := w0[v := WeightBits(val).0], w1[v := WeightBits(val).1];
            && (forall m :: k <= m < |P| ==> n0[FreeVertex(P[m])] || n1[FreeVertex(P[m])])
            && (forall u :: 0 <= u < n && (n0[u] || n1[u]) ==> u in FreeVertices(P)[k..])
  {
    var v := FreeVertex(P[k]);
    var n0, n1 := w0[v := WeightBits(val).0], w1[v := WeightBits(val).1];
    WeightRoundTrip(val);
    forall m | k <= m < |P|
      ensures n0[FreeVertex(P[m])] || n1[FreeVertex(P[m])]
    {
      if m != k {
        assert w0[FreeVertex(P[m])] || w1[FreeVertex(P[m])];
      }
    }
    forall u | 0 <= u < n && (n0[u] || n1[u])
      ensures u in FreeVertices(P)[k..]
    {
      assert FreeVertices(P)[k..] == [v] + FreeVertices(P)[k1..];
    }
  }

  /**
   * Replaying record k (minimal_perfect_hash_static_dict.rs:98-115): its own vertex has no
   * weight yet, since it lies on no edge replayed before it; giving it the weight FreeWeight
   * makes record k hold and leaves the records replayed before it alone.
   */
  lemma {:induction false} ReplayStep(w0: Str, w1: Str, P: seq<Peeled>, rest: set<Edge>, k: nat, k1: nat, n: nat, val: nat)
    requires PeelsOn(P, n) && IsPeelingSequence(P, rest)
    requires k1 == k + 1 && k1 <= |P| && Replayed(w0, w1, P, k1, n)
    requires Covers(w0, w1, P[k].1) && val == FreeWeight(EdgeSum(w0, w1, P[k].1), P[k].0)
    ensures Replayed(w0[FreeVertex(P[k]) := WeightBits(val).0], w1[FreeVertex(P[k]) := WeightBits(val).1], P, k, n)
  {
    ReplayFresh(w0, w1, P, rest, k, k1, n);
    ReplaySums(w0, w1, P, k, k1, n, val);
    ReplayMarks(w0, w1, P, k, k1, n, val);
  }

  // ---------------------------------------------------------------------------------------
  // The three hash functions and the edge of a key.

  /** Three valid rolling hashes. */
  ghost predicate HashesValid(hs: seq<RollingHash>) {
    |hs| == 3 && forall t :: 0 <= t < 3 ==> hs[t].Valid()
  }

  /** Three valid rolling hashes, all onto the vertex range [0, n). */
  ghost predicate HashesOn(hs: seq<RollingHash>, n: nat) {
    HashesValid(hs) && forall t :: 0 <= t < 3 ==> hs[t].modulo == n
  }

  /** The edge of a key: its three hash values (get_edge, minimal_perfect_hash_static_dict.rs:48). */
  ghost function KeyEdge(hs: seq<RollingHash>, n: nat, key: Str): (e: Edge)
    requires HashesOn(hs, n)
    ensures |e| == 3 && e[0] < n && e[1] < n && e[2] < n
  {
    seq(3, t requires 0 <= t < 3 => hs[t].Digest(key, |key|))
  }

  /** The edges of all keys, in key order. */
  ghost function KeyEdges(hs: seq<RollingHash>, n: nat, keys: seq<Str>): (es: seq<Edge>)
    requires HashesOn(hs, n)
    ensures |es| == |keys|
  {
    seq(|keys|, i requires 0 <= i < |keys| => KeyEdge(hs, n, keys[i]))
  }

  datatype BuildOutcome = Built | Panicked | OutOfAttempts

  /** Equal keys have equal edges, so keys whose edges are all distinct are distinct. */
  lemma {:induction false} DistinctEdgesDistinctKeys(hs: seq<RollingHash>, n: nat, keys: seq<Str>)
    requires HashesOn(hs, n) && NoDuplicates(KeyEdges(hs, n, keys))
    ensures NoDuplicates(keys)
  {
    var es := KeyEdges(hs, n, keys);
    forall i, j | 0 <= i < j < |keys|
      ensures keys[i] != keys[j]
    {
      assert es[i] != es[j];
    }
  }

  /** None of the first i edges has a repeated vertex. */
  ghost predicate NoRepeatsBelow(es: seq<Edge>, i: nat) {
    i <= |es| && forall j :: 0 <= j < i ==> |es[j]| == 3 && !HasRepeat(es[j])
  }

  lemma NoRepeatsExtend(es: seq<Edge>, i: nat, i1: nat)
    requires NoRepeatsBelow(es, i) && i1 == i + 1 <= |es| && |es[i]| == 3
    requires es[i][0] != es[i][1] && es[i][0] != es[i][2] && es[i][1] != es[i][2]
    ensures NoRepeatsBelow(es, i1)
  {
  }

  /** The records of a peeling of edges on n vertices are records on n vertices. */
  lemma {:induction false} PeelingOn(P: seq<Peeled>, E: set<Edge>, n: nat)
    requires IsPeelingOf(P, E) && AllEdgesOn(E, n)
    ensures PeelsOn(P, n)
  {
    forall m | 0 <= m < |P|
      ensures P[m].0 < 3 && IsEdgeOn(P[m].1, n) && FreeVertex(P[m]) < n
    {
      assert PeeledEdges(P)[m] == P[m].1;
      assert P[m].1 in Elements(PeeledEdges(P));
    }
  }

  /**
   * The vertex get picks for key: the vertex of key's edge at the position given by the sum of
   * the edge's weights modulo 3.
   */
  ghost function PickedVertex(hs: seq<RollingHash>, w0: Str, w1: Str, key: Str): (v: nat)
    requires HashesOn(hs, |w0|) && |w1| == |w0|
    ensures v < |w0|
  {
    var e := KeyEdge(hs, |w0|, key);
    e[EdgeSum(w0, w1, e)]
  }

  /** The slot of key: the rank of the vertex get picks among the vertices carrying a weight. */
  ghost function SlotOf(hs: seq<RollingHash>, w0: Str, w1: Str, key: Str): (s: nat)
    requires HashesOn(hs, |w0|) && |w1| == |w0|
    ensures s < |w0|
  {
    Count(w0, w1, PickedVertex(hs, w0, w1, key))
  }

  /** The slots of the keys, in key order. */
  ghost function SlotsOf(hs: seq<RollingHash>, w0: Str, w1: Str, keys: seq<Str>): (s: seq<nat>)
    requires HashesOn(hs, |w0|) && |w1| == |w0|
    ensures |s| == |keys| && forall i :: 0 <= i < |keys| ==> s[i] < |w0|
  {
    seq(|keys|, i requires 0 <= i < |keys| => SlotOf(hs, w0, w1, keys[i]))
  }

  /**
   * In a solved build the slots of the keys are distinct and below the number of keys: the
   * keys are mapped one-to-one onto the slots 0 .. |keys| - 1.
   */
  lemma {:induction false} SolvedSlots(hs: seq<RollingHash>, w0: Str, w1: Str, keys: seq<Str>, P: seq<Peeled>, n: nat)
    requires Solved(hs, w0, w1, keys, P, n)
    ensures NoDuplicates(SlotsOf(hs, w0, w1, keys))
    ensures forall i :: 0 <= i < |keys| ==> SlotsOf(hs, w0, w1, keys)[i] < |keys|
  {
    var s := SlotsOf(hs, w0, w1, keys);
    forall i, j | 0 <= i < j < |keys|
      ensures s[i] != s[j]
    {
      PickedDistinct(hs, w0, w1, keys, P, n, i, j);
    }
    forall i | 0 <= i < |keys|
      ensures s[i] < |keys|
    {
      PickedBelow(hs, w0, w1, keys, P, n, i);
    }
  }

  /** Writing values[i] into slot s[i] keeps the values of the keys before i, if slots are distinct. */
  lemma PlaceStep<V>(table: seq<V>, next: seq<V>, s: seq<nat>, values: seq<V>, i: nat, i1: nat)
    requires i1 == i + 1 <= |s| <= |values| && s[i] < |table| && next == table[s[i] := values[i]]
    requires forall j :: 0 <= j < |s| ==> s[j] < |table|
    requires NoDuplicates(s) ==> forall j :: 0 <= j < i ==> table[s[j]] == values[j]
    ensures NoDuplicates(s) ==> forall j :: 0 <= j < i1 ==> next[s[j]] == values[j]
  {
  }

  /**
   * What a successful build leaves: the keys' edges were all peeled, in |keys| records, and
   * the weights were replayed from the whole peeling.
   */
  ghost predicate Solved(hs: seq<RollingHash>, w0: Str, w1: Str, keys: seq<Str>, P: seq<Peeled>, n: nat) {
    && HashesOn(hs, n) && PeelsOn(P, n) && IsPeelingSequence(P, {})
    && Elements(PeeledEdges(P)) == Elements(KeyEdges(hs, n, keys)) && |P| == |keys|
    && Replayed(w0, w1, P, 0, n)
  }

  /** In a solved build the keys' edges are distinct, so the keys are. */
  lemma {:induction false} SolvedEdgesDistinct(hs: seq<RollingHash>, w0: Str, w1: Str, keys: seq<Str>, P: seq<Peeled>, n: nat)
    requires Solved(hs, w0, w1, keys, P, n)
    ensures NoDuplicates(KeyEdges(hs, n, keys)) && NoDuplicates(keys)
  {
    PeelingDistinct(P, {});
    ElementsCard(KeyEdges(hs, n, keys));
    DistinctEdgesDistinctKeys(hs, n, keys);
  }

  /** Key i owns a peeling record: the one of its edge, whose free vertex is the vertex get picks. */
  lemma {:induction false} OwnRecord(hs: seq<RollingHash>, w0: Str, w1: Str, keys: seq<Str>, P: seq<Peeled>, n: nat, i: nat)
    returns (m: nat)
    requires Solved(hs, w0, w1, keys, P, n) && i < |keys|
    ensures m < |P| && P[m].1 == KeyEdges(hs, n, keys)[i]
    ensures PickedVertex(hs, w0, w1, keys[i]) == FreeVertex(P[m]) && (w0[FreeVertex(P[m])] || w1[FreeVertex(P[m])])
  {
    var es := KeyEdges(hs, n, keys);
    var e := es[i];
    assert e in Elements(es);
    assert e in Elements(PeeledEdges(P));
    m :| 0 <= m < |P| && PeeledEdges(P)[m] == e;
    assert P[m].1 == e == KeyEdge(hs, n, keys[i]);
    assert EdgeSum(w0, w1, P[m].1) == P[m].0;
  }

  /** In a solved build distinct keys pick distinct vertices, all carrying a weight. */
  lemma {:induction false} PickedDistinct(hs: seq<RollingHash>, w0: Str, w1: Str, keys: seq<Str>, P: seq<Peeled>, n: nat, i: nat, j: nat)
    requires Solved(hs, w0, w1, keys, P, n) && i < j < |keys|
    ensures SlotOf(hs, w0, w1, keys[i]) != SlotOf(hs, w0, w1, keys[j])
  {
    var mi := OwnRecord(hs, w0, w1, keys, P, n, i);
    var mj := OwnRecord(hs, w0, w1, keys, P, n, j);
    SolvedEdgesDistinct(hs, w0, w1, keys, P, n);
    var es := KeyEdges(hs, n, keys);
    assert es[i] != es[j];
    assert mi != mj;
    FreeVerticesDiffer(P, {}, mi, mj);
    var vi, vj := FreeVertex(P[mi]), FreeVertex(P[mj]);
    if vi < vj {
      CountStrict(w0, w1, vi, vj);
    } else {
      CountStrict(w0, w1, vj, vi);
    }
  }

  /** The vertices carrying a weight after a solved build are exactly the free vertices. */
  lemma {:induction false} WeightedAreFree(hs: seq<RollingHash>, w0: Str, w1: Str, keys: seq<Str>, P: seq<Peeled>, n: nat)
    requires Solved(hs, w0, w1, keys, P, n)
    ensures |SetPositions(w0, w1, n)| == |keys|
  {
    var F := FreeVertices(P);
    assert F[0..] == F;
    forall u | u in SetPositions(w0, w1, n)
      ensures u in Elements(F)
    {
    }
    forall u | u in Elements(F)
      ensures u in SetPositions(w0, w1, n)
    {
      var m :| 0 <= m < |F| && F[m] == u;
      assert w0[FreeVertex(P[m])] || w1[FreeVertex(P[m])];
    }
    assert SetPositions(w0, w1, n) == Elements(F);
    PeelingDistinct(P, {});
    ElementsCard(F);
  }

  /** In a solved build every key's rank is below the number of keys. */
  lemma {:induction false} PickedBelow(hs: seq<RollingHash>, w0: Str, w1: Str, keys: seq<Str>, P: seq<Peeled>, n: nat, i: nat)
    requires Solved(hs, w0, w1, keys, P, n) && i < |keys|
    ensures SlotOf(hs, w0, w1, keys[i]) < |keys|
  {
    var m := OwnRecord(hs, w0, w1, keys, P, n, i);
    var v := FreeVertex(P[m]);
    CountStrict(w0, w1, v, n);
    CountIsCardinality(w0, w1, n);
    WeightedAreFree(hs, w0, w1, keys, P, n);
  }

  class MinimalPerfectHashStaticDict<V> {
    /** 1.23 times the number of keys, rounded down. */
    var size: nat
    /** The three hash functions. */
    var h: seq<RollingHash>
    /** The value of the key with slot i is at table[i]. */
    var table: seq<V>
    /** Low and high bits of the vertex weights plus one. */
    var w0: Str
    var w1: Str
    /** Rank over the vertices that carry a weight (w0 | w1). */
    var ds: JacobsonRank

    /** new() (minimal_perfect_hash_static_dict.rs:24-33). */
    constructor()
      ensures size == 0 && h == [Default(), Default(), Default()] && table == []
      ensures fresh(ds) && Fresh()
    {
      size := 0;
      h := [Default(), Default(), Default()];
      table := [];
      w0, w1 := [], [];
      ds := new JacobsonRank();
    }

    /** No weight bits and no rank lists yet: what new() leaves. */
    ghost predicate Fresh()
      reads this, ds
    {
      w0 == [] && w1 == [] && ds.partialRanks == [] && table == []
    }

    /** Hashes onto |w0| vertices, one weight per vertex, and rank answered over the weights. */
    ghost predicate Indexed()
      reads this`h, this`w0, this`w1, this`ds, ds
    {
      HashesOn(h, |w0|) && |w1| == |w0| && ds.Valid(w0, w1)
    }

    /** A built dictionary: indexed, with one table entry per vertex. */
    ghost predicate Valid()
      reads this, ds
    {
      Indexed() && |table| == |w0|
    }

    /** The slot of key: the rank of its vertex among the vertices that carry a weight. */
    ghost function Slot(key: Str): (s: nat)
      reads this`h, this`w0, this`w1, this`ds, ds
      requires Indexed()
      ensures s == SlotOf(h, w0, w1, key)
    {
      ds.Rank(PickedVertex(h, w0, w1, key), w0, w1)
    }

    /** The table entry of key's slot. */
    ghost function Lookup(key: Str): V
      reads this, ds
      requires Valid()
    {
      table[Slot(key)]
    }

    /**
     * The dictionary holds values[i] for keys[i]: distinct keys have distinct slots below the
     * number of keys, and each slot holds its key's value.
     */
    ghost predicate Stores(keys: seq<Str>, values: seq<V>)
      reads this, ds
    {
      && Valid() && |keys| == |values|
      && var s := SlotsOf(h, w0, w1, keys);
      && NoDuplicates(s) && forall i :: 0 <= i < |keys| ==> s[i] < |keys| && table[s[i]] == values[i]
    }

    /** A stored key's slot is below the number of keys, and get finds its value there. */
    lemma StoredLookup(keys: seq<Str>, values: seq<V>, i: nat)
      requires Stores(keys, values) && i < |keys|
      ensures Slot(keys[i]) < |keys| && Lookup(keys[i]) == values[i]
    {
      assert Slot(keys[i]) == SlotsOf(h, w0, w1, keys)[i];
    }

    /** get_w(ind) (minimal_perfect_hash_static_dict.rs:171-178). */
    function GetW(ind: nat): (w: nat)
      reads this`w0, this`w1
      requires ind < |w0| && ind < |w1|
      ensures w < 3
    {
      Weight(w0, w1, ind)
    }

    /**
     * set_w(ind, val) (minimal_perfect_hash_static_dict.rs:180-184): asserts val < 3 and stores
     * val + 1 in the two bits of ind, which get_w then reads back.
     */
    method SetW(ind: nat, val: nat)
      requires val < 3 && ind < |w0| && ind < |w1|
      modifies this`w0, this`w1
      ensures w0 == old(w0)[ind := WeightBits(val).0] && w1 == old(w1)[ind := WeightBits(val).1]
      ensures GetW(ind) == val && (w0[ind] || w1[ind])
    {
      w0 := w0[ind := (val + 1) % 2 == 1];
      w1 := w1[ind := val + 1 >= 2];
      WeightRoundTrip(val);
    }

    /** get_edge(key) (minimal_perfect_hash_static_dict.rs:48): the three hash values of key. */
    method EdgeOf(key: Str, ghost n: nat) returns (e: Edge)
      requires HashesOn(h, n)
      ensures e == KeyEdge(h, n, key)
    {
      var a := h[0].Hash(key);
      var b := h[1].Hash(key);
      var c := h[2].Hash(key);
      e := [a, b, c];
    }

    /**
     * The slot computation of get and of build's placement loop
     * (minimal_perfect_hash_static_dict.rs:120-128, 136-144): sums the weights of the three
     * hash values modulo 3, hashes again with the hash function of that index and ranks the
     * result.
     */
    method Position(key: Str) returns (pos: nat)
      requires Indexed()
      ensures pos == Slot(key)
    {
      var e := EdgeOf(key, |w0|);
      var sum := EdgeWeightSum(e);
      var v := h[sum].Hash(key);
      pos := ds.Rank(v, w0, w1);
    }

    /** get(key) (minimal_perfect_hash_static_dict.rs:135-146): always some value, the one in key's slot. */
    method Get(key: Str) returns (r: Option<V>)
      requires Valid()
      ensures r == Some(Lookup(key))
    {
      var pos := Position(key);
      r := Some(table[pos]);
    }

    /** compute_state(key) (minimal_perfect_hash_static_dict.rs:148-150): the state of each hash. */
    method ComputeState(key: Str) returns (st: seq<State>)
      requires HashesValid(h)
      ensures |st| == 3 && forall t :: 0 <= t < 3 ==> h[t].IsStateOf(key, st[t])
    {
      var s0 := h[0].ComputeState(key);
      var s1 := h[1].ComputeState(key);
      var s2 := h[2].ComputeState(key);
      st := [s0, s1, s2];
    }

    /** Hash t of the first ind bits of key, by the fast prefix hash: vertex t of the prefix's edge. */
    method PrefixDigest(key: Str, st: seq<State>, ind: nat, t: nat, ghost n: nat) returns (x: nat)
      requires HashesOn(h, n) && ind <= |key| && |st| == 3 && t < 3
      requires forall u :: 0 <= u < 3 ==> h[u].IsStateOf(key, st[u])
      ensures x == KeyEdge(h, n, key[..ind])[t]
    {
      x := h[t].FastPrefixHash(key, st[t], ind);
      h[t].DigestOfPrefix(key, ind);
    }

    /**
     * The summing loop that build's replay and placement and get share: the weights of the
     * three vertices of e added modulo 3.
     */
    method EdgeWeightSum(e: Edge) returns (sum: nat)
      requires Covers(w0, w1, e)
      ensures sum == EdgeSum(w0, w1, e)
    {
      sum := 0;
      for t := 0 to 3
        invariant sum == WeightSum(w0, w1, e, t) % 3
      {
        ghost var before, t1 := sum, t + 1;
        sum := AddMod3(sum, GetW(e[t]));
        SumStep(w0, w1, e, t, t1, before, sum);
      }
      SumComplete(w0, w1, e);
    }

    /**
     * fast_prefix_get(key, state, ind) (minimal_perfect_hash_static_dict.rs:152-167): get with
     * the fast prefix hashes of the first ind bits of key; it returns what get returns for
     * that prefix.
     */
    method FastPrefixGet(key: Str, st: seq<State>, ind: nat) returns (r: Option<V>)
      requires Valid() && ind <= |key| && |st| == 3
      requires forall t :: 0 <= t < 3 ==> h[t].IsStateOf(key, st[t])
      ensures r == Some(Lookup(key[..ind]))
    {
      ghost var pre := key[..ind];
      ghost var e := KeyEdge(h, |w0|, pre);
      var x0 := PrefixDigest(key, st, ind, 0, |w0|);
      var x1 := PrefixDigest(key, st, ind, 1, |w0|);
      var x2 := PrefixDigest(key, st, ind, 2, |w0|);
      assert [x0, x1, x2] == e;
      var res := EdgeWeightSum([x0, x1, x2]);
      var v := PrefixDigest(key, st, ind, res, |w0|);
      assert v == PickedVertex(h, w0, w1, pre);
      var pos := ds.Rank(v, w0, w1);
      r := Some(table[pos]);
    }

    /**
     * The edge loop of build (minimal_perfect_hash_static_dict.rs:47-62): adds each key's edge
     * to the incidence lists of its three vertices and gives up (returns false) at the first
     * edge with a repeated vertex.
     */
    method EdgeLists(keys: seq<Str>, n: nat) returns (ok: bool, lists: seq<set<Edge>>)
      requires HashesOn(h, n)
      ensures ok <==> forall i :: 0 <= i < |keys| ==> !HasRepeat(KeyEdges(h, n, keys)[i])
      ensures ok ==> AllEdgesOn(Elements(KeyEdges(h, n, keys)), n)
      ensures ok ==> IsIncidence(lists, Elements(KeyEdges(h, n, keys)), n)
    {
      ghost var es := KeyEdges(h, n, keys);
      lists := seq(n, _ => {});
      NoIncidence(lists, n);
      assert Elements(es[..0]) == {};
      ok := true;
      var i := 0;
      while i < |keys|
        invariant i <= |keys| && ok && NoRepeatsBelow(es, i)
        invariant IsIncidence(lists, Elements(es[..i]), n)
      {
        var e := EdgeOf(keys[i], n);
        assert e == es[i];
        if e[0] == e[1] || e[0] == e[2] || e[1] == e[2] {
          assert HasRepeat(es[i]);
          ok := false;
          return;
        }
        ghost var i1 := i + 1;
        NoRepeatsExtend(es, i, i1);
        assert es[..i1] == es[..i] + [e];
        ElementsSnoc(es[..i], e);
        lists := AddEdge(lists, e, Elements(es[..i]), n);
        i := i + 1;
      }
      assert es[..|keys|] == es;
      forall e | e in Elements(es)
        ensures IsEdgeOn(e, n)
      {
        var j :| 0 <= j < |es| && es[j] == e;
        assert NoRepeatsBelow(es, |keys|);
        assert !HasRepeat(es[j]);
      }
    }

    /**
     * The weight replay of build (minimal_perfect_hash_static_dict.rs:98-115): goes through the
     * peeling backwards and gives each free vertex the weight that makes its edge's weights
     * sum, modulo 3, to the position of that vertex in the edge.
     */
    method AssignWeights(P: seq<Peeled>, ghost rest: set<Edge>, n: nat)
      requires PeelsOn(P, n) && IsPeelingSequence(P, rest) && |w0| == n && |w1| == n
      modifies this`w0, this`w1
      ensures |w0| == n && |w1| == n
      ensures (forall u :: 0 <= u < n ==> !old(w0)[u] && !old(w1)[u]) ==> Replayed(w0, w1, P, 0, n)
    {
      ghost var clean := forall u :: 0 <= u < n ==> !w0[u] && !w1[u];
      var k: nat := |P|;
      while k > 0
        invariant k <= |P| && |w0| == n && |w1| == n
        invariant clean ==> Replayed(w0, w1, P, k, n)
      {
        k := k - 1;
        var (i, j) := P[k];
        assert i < 3 && IsEdgeOn(j, n) && FreeVertex(P[k]) == j[i] < n;
        ghost var v0, v1, k1 := w0, w1, k + 1;
        var sum := EdgeWeightSum(j);
        var val := FreeWeight(sum, i);
        SetW(j[i], val);
        if clean {
          ReplayStep(v0, v1, P, rest, k, k1, n, val);
        }
      }
    }

    /**
     * The placement loop of build (minimal_perfect_hash_static_dict.rs:119-130): writes each
     * value into its key's slot; when the slots are distinct every value survives.
     */
    method Place(keys: seq<Str>, values: seq<V>)
      requires Indexed() && |table| == |w0| && |keys| == |values|
      requires forall k :: 0 <= k < |table| ==> table[k] in values
      modifies this`table
      ensures |table| == |w0|
      ensures forall k :: 0 <= k < |table| ==> table[k] in values
      ensures NoDuplicates(SlotsOf(h, w0, w1, keys)) ==> forall i :: 0 <= i < |keys| ==> table[SlotsOf(h, w0, w1, keys)[i]] == values[i]
    {
      ghost var s := SlotsOf(h, w0, w1, keys);
      for i := 0 to |keys|
        invariant |table| == |w0|
        invariant forall k :: 0 <= k < |table| ==> table[k] in values
        invariant NoDuplicates(s) ==> forall j :: 0 <= j < i ==> table[s[j]] == values[j]
      {
        var pos := Position(keys[i]);
        assert pos == s[i];
        ghost var before, i1 := table, i + 1;
        table := table[pos := values[i]];
        PlaceStep(before, table, s, values, i, i1);
      }
    }

    /**
     * build(keys, values) (minimal_perfect_hash_static_dict.rs:35-133). Each attempt draws three
     * hash functions onto n = max(size, 101) vertices with seeds cc, cc + 2, cc + 4, builds the
     * key hypergraph, and starts over when an edge repeats a vertex or the peeling removes
     * fewer edges than there are keys. Otherwise it replays the weights, builds the rank
     * structure, fills the table with copies of values[0] (which panics for no keys) and
     * writes each value into its key's slot. The source retries forever; here `attempts`
     * bounds the retries and `draw` is the seed-to-random-number map of new_parametric.
     */
    method Build(keys: seq<Str>, values: seq<V>, draw: nat -> nat, bd: nat, sbd: nat, attempts: nat)
      returns (outcome: BuildOutcome)
      requires Fresh() && |keys| == |values| && bd >= 1 && sbd >= 1
      modifies this, ds
      ensures size == TableSize(|keys|)
      ensures outcome == Panicked <==> |keys| == 0 && attempts >= 1
      ensures outcome != OutOfAttempts ==> attempts >= 1
      ensures outcome == Built ==> |w0| == VertexCount(size) && NoDuplicates(keys) && Stores(keys, values)
      ensures outcome == Built ==> forall k :: 0 <= k < |table| ==> table[k] in values
      ensures !NoDuplicates(keys) ==> outcome == OutOfAttempts
    {
      size := TableSize(|keys|);
      var n := VertexCount(size);
      var cc := 0;
      var left := attempts;
      while left > 0
        invariant ds == old(ds) && w0 == old(w0) && w1 == old(w1) && ds.partialRanks == old(ds.partialRanks)
        invariant table == old(table)
        invariant size == TableSize(|keys|) && left <= attempts
        invariant |keys| == 0 ==> left == attempts
      {
        left := left - 1;
        h := DrawHashes(n, draw, cc);
        cc := cc + 6;
        var ok, P := PeelKeys(keys, n);
        if !ok {
          continue;
        }
        outcome := Finish(keys, values, P, n, bd, sbd);
        return;
      }
      return OutOfAttempts;
    }

    /**
     * The hypergraph part of one attempt of build (minimal_perfect_hash_static_dict.rs:47-94):
     * the edges, the initial queue and the peeling. It succeeds when no edge repeats a vertex
     * and every edge is peeled; the keys are then distinct, since equal keys have equal edges.
     */
    method PeelKeys(keys: seq<Str>, n: nat) returns (ok: bool, P: seq<Peeled>)
      requires HashesOn(h, n)
      ensures |keys| == 0 ==> ok
      ensures ok ==> PeelsOn(P, n) && IsPeelingSequence(P, {}) && |P| == |keys| && NoDuplicates(keys)
      ensures ok ==> Elements(PeeledEdges(P)) == Elements(KeyEdges(h, n, keys))
    {
      var lists;
      ok, lists := EdgeLists(keys, n);
      if !ok {
        return ok, [];
      }
      ghost var es := KeyEdges(h, n, keys);
      ghost var E := Elements(es);
      var q := InitialQueue(lists);
      P := Peel(lists, q, E, n);
      if |P| < |keys| {
        ok := false;
        return;
      }
      ElementsCard(es);
      CompletePeeling(P, E, |keys|);
      DistinctEdgesDistinctKeys(h, n, keys);
      assert E - Elements(PeeledEdges(P)) == {};
      PeelingOn(P, E, n);
    }

    /**
     * The end of a successful attempt of build (minimal_perfect_hash_static_dict.rs:96-131):
     * weights, rank structure, table and placement. It panics when there are no values. On a
     * fresh dictionary the keys then land one-to-one on the slots below |keys|, each with its
     * value.
     */
    method Finish(keys: seq<Str>, values: seq<V>, P: seq<Peeled>, n: nat, bd: nat, sbd: nat)
      returns (outcome: BuildOutcome)
      requires Fresh() && |keys| == |values| && bd >= 1 && sbd >= 1 && HashesOn(h, n)
      requires PeelsOn(P, n) && IsPeelingSequence(P, {}) && |P| == |keys|
      requires Elements(PeeledEdges(P)) == Elements(KeyEdges(h, n, keys))
      modifies this`w0, this`w1, this`table, ds
      ensures outcome == (if |values| == 0 then Panicked else Built)
      ensures outcome == Built ==> |w0| == n && Stores(keys, values)
      ensures outcome == Built ==> forall k :: 0 <= k < |table| ==> table[k] in values
    {
      w0 := Resize(w0, n, false);
      w1 := Resize(w1, n, false);
      AssignWeights(P, {}, n);
      ds.Build(w0, w1, bd, sbd);
      if |values| == 0 {
        return Panicked;
      }
      table := Resize(table, n, values[0]);
      assert Solved(h, w0, w1, keys, P, n);
      SolvedSlots(h, w0, w1, keys, P, n);
      Place(keys, values);
      return Built;
    }
  }

  /**
   * The three new_parametric calls of one attempt of build (minimal_perfect_hash_static_dict.rs:42-45),
   * with seeds cc, cc + 2 and cc + 4.
   */
  method DrawHashes(n: nat, draw: nat -> nat, cc: nat) returns (hs: seq<RollingHash>)
    requires n >= 2
    ensures HashesOn(hs, n)
    ensures forall t :: 0 <= t < 3 ==> Divides(hs[t].base, draw(cc + 2 * t) % (n - 1) + 1)
  {
    hs := [];
    var seed := cc;
    for t := 0 to 3
      invariant |hs| == t && seed == cc + 2 * t
      invariant forall u :: 0 <= u < t ==> hs[u].Valid() && hs[u].modulo == n
      invariant forall u :: 0 <= u < t ==> Divides(hs[u].base, draw(cc + 2 * u) % (n - 1) + 1)
    {
      var f := NewParametric(n, draw(seed));
      hs := hs + [f];
      seed := seed + 2;
    }
  }
}
