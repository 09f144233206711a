module Hypergraph {

  /** An edge: the three vertices a key hashes to, in the order of the three hash functions. */
  type Edge = seq<nat>

  /** One peeling record: the position in the edge of its vertex of degree one, and the edge. */
  type Peeled = (nat, Edge)

  /** e joins three distinct vertices below n. */
  ghost predicate IsEdgeOn(e: Edge, n: nat) {
    && |e| == 3
    && e[0] < n && e[1] < n && e[2] < n
    && e[0] != e[1] && e[0] != e[2] && e[1] != e[2]
  }

  /** Two of the three vertices coincide (minimal_perfect_hash_static_dict.rs:52). */
  predicate HasRepeat(e: Edge)
    requires |e| == 3
  {
    e[0] == e[1] || e[0] == e[2] || e[1] == e[2]
  }

  ghost predicate AllEdgesOn(E: set<Edge>, n: nat) {
    forall e :: e in E ==> IsEdgeOn(e, n)
  }

  /** The edges of S through vertex v. */
  ghost function Incident(S: set<Edge>, v: nat): set<Edge> {
    set e | e in S && v in e
  }

  /** lists[v] holds the edges of S through v, for every vertex v < n. */
  ghost predicate IsIncidence(lists: seq<set<Edge>>, S: set<Edge>, n: nat) {
    |lists| == n && forall v :: 0 <= v < n ==> lists[v] == Incident(S, v)
  }

  ghost function Elements<T>(s: seq<T>): set<T> {
    set x | x in s
  }

  ghost predicate NoDuplicates<T>(s: seq<T>) {
    forall i, j :: 0 <= i < j < |s| ==> s[i] != s[j]
  }

  /** A sequence has at most as many distinct elements as entries, and exactly as many iff no entry repeats. */
  lemma {:induction false} ElementsCard<T>(s: seq<T>)
    ensures |Elements(s)| <= |s|
    ensures |Elements(s)| == |s| <==> NoDuplicates(s)
    decreases |s|
  {
    if |s| > 0 {
      var t := s[..|s| - 1];
      var x := s[|s| - 1];
      ElementsCard(t);
      assert s == t + [x];
      assert Elements(s) == Elements(t) + {x};
      if x in Elements(t) {
        var i :| 0 <= i < |t| && t[i] == x;
        assert s[i] == s[|s| - 1];
      } else if |Elements(s)| == |s| {
        forall i, j | 0 <= i < j < |s|
          ensures s[i] != s[j]
        {
          if j < |s| - 1 {
            assert t[i] != t[j];
          } else {
            assert s[i] in Elements(t);
          }
        }
      } else {
        assert !NoDuplicates(t);
      }
    }
  }

  /** Appending x to a sequence adds x to its elements. */
  lemma ElementsSnoc<T>(s: seq<T>, x: T)
    ensures Elements(s + [x]) == Elements(s) + {x}
  {
    assert forall y :: y in s + [x] <==> y in s || y == x;
  }

  /** Empty lists are the incidence lists of no edges. */
  lemma NoIncidence(lists: seq<set<Edge>>, n: nat)
    requires |lists| == n && forall v :: 0 <= v < n ==> lists[v] == {}
    ensures IsIncidence(lists, {}, n)
  {
  }

  /** |A| <= |B| for A a subset of B, with equality only when A == B. */
  lemma {:induction false} SubsetCard<T>(A: set<T>, B: set<T>)
    requires A <= B
    ensures |A| <= |B|
    ensures |A| == |B| ==> A == B
  {
    assert B == A + (B - A);
    if |A| == |B| {
      assert |B - A| == 0;
    }
  }

  /** A set of one element is that element's singleton. */
  lemma {:induction false} SingletonSet<T>(S: set<T>, x: T)
    requires |S| == 1 && x in S
    ensures S == {x}
  {
    assert |S - {x}| == 0;
  }

  function FreeVertex(p: Peeled): nat
    requires p.0 < |p.1|
  {
    p.1[p.0]
  }

  ghost function PeeledEdges(P: seq<Peeled>): seq<Edge> {
    seq(|P|, k requires 0 <= k < |P| => P[k].1)
  }

  ghost function FreeVertices(P: seq<Peeled>): seq<nat>
    requires forall k :: 0 <= k < |P| ==> P[k].0 < |P[k].1|
  {
    seq(|P|, k requires 0 <= k < |P| => FreeVertex(P[k]))
  }

  /**
   * P removes edges one at a time, each through a vertex (its free vertex) that neither the
   * edges peeled after it nor the edges still in `rest` touch.
   */
  ghost predicate IsPeelingSequence(P: seq<Peeled>, rest: set<Edge>) {
    && (forall k :: 0 <= k < |P| ==> P[k].0 < 3 && |P[k].1| == 3)
    && (forall k, m :: 0 <= k < m < |P| ==> FreeVertex(P[k]) !in P[m].1)
    && (forall k, e :: 0 <= k < |P| && e in rest ==> FreeVertex(P[k]) !in e)
  }

  /** P peels edges of E, and the edges of E it leaves are those it has not removed. */
  ghost predicate IsPeelingOf(P: seq<Peeled>, E: set<Edge>) {
    Elements(PeeledEdges(P)) <= E && IsPeelingSequence(P, E - Elements(PeeledEdges(P)))
  }

  /** Every edge is peeled at most once, and no two peeled edges share their free vertex. */
  lemma {:induction false} PeelingDistinct(P: seq<Peeled>, rest: set<Edge>)
    requires IsPeelingSequence(P, rest)
    ensures NoDuplicates(PeeledEdges(P)) && NoDuplicates(FreeVertices(P))
    ensures |Elements(PeeledEdges(P))| == |P|
  {
    var es, vs := PeeledEdges(P), FreeVertices(P);
    forall k, m | 0 <= k < m < |P|
      ensures es[k] != es[m] && vs[k] != vs[m]
    {
      assert FreeVertex(P[k]) in P[k].1;
      assert FreeVertex(P[m]) in P[m].1;
    }
    ElementsCard(es);
  }

  /** Two records of a peeling have different free vertices. */
  lemma {:induction false} FreeVerticesDiffer(P: seq<Peeled>, rest: set<Edge>, a: nat, b: nat)
    requires IsPeelingSequence(P, rest) && a < |P| && b < |P| && a != b
    ensures FreeVertex(P[a]) != FreeVertex(P[b])
  {
    if a < b {
      assert FreeVertex(P[b]) in P[b].1;
    } else {
      assert FreeVertex(P[a]) in P[a].1;
    }
  }

  /**
   * A peeling that removes at least N edges of a set of at most N edges removes all of them,
   * exactly N.
   */
  lemma {:induction false} CompletePeeling(P: seq<Peeled>, E: set<Edge>, N: nat)
    requires IsPeelingOf(P, E) && |E| <= N <= |P|
    ensures Elements(PeeledEdges(P)) == E && |P| == N == |E|
  {
    PeelingDistinct(P, E - Elements(PeeledEdges(P)));
    SubsetCard(Elements(PeeledEdges(P)), E);
  }

  /**
   * Adding edge e to the lists of its three vertices (the insertion loop of
   * minimal_perfect_hash_static_dict.rs:56-58) turns the incidence lists of S into those of S + {e}.
   */
  method AddEdge(lists0: seq<set<Edge>>, e: Edge, ghost S: set<Edge>, n: nat) returns (lists: seq<set<Edge>>)
    requires IsIncidence(lists0, S, n) && IsEdgeOn(e, n)
    ensures IsIncidence(lists, S + {e}, n)
  {
    lists := lists0;
    for t := 0 to 3
      invariant |lists| == n
      invariant forall v :: 0 <= v < n ==> lists[v] == if v in e[..t] then Incident(S + {e}, v) else Incident(S, v)
    {
      var j := e[t];
      assert e[..t + 1] == e[..t] + [j];
      lists := lists[j := lists[j] + {e}];
    }
    assert e[..3] == e;
    forall v | 0 <= v < n
      ensures lists[v] == Incident(S + {e}, v)
    {
      if v !in e {
        assert Incident(S + {e}, v) == Incident(S, v);
      }
    }
  }

  /** The vertices of degree one, in increasing order (minimal_perfect_hash_static_dict.rs:64-69). */
  method InitialQueue(lists: seq<set<Edge>>) returns (q: seq<nat>)
    ensures forall v: nat :: v in q <==> v < |lists| && |lists[v]| == 1
    ensures forall i, j :: 0 <= i < j < |q| ==> q[i] < q[j]
  {
    q := [];
    for i := 0 to |lists|
      invariant forall v: nat :: v in q <==> v < i && |lists[v]| == 1
      invariant forall a, b :: 0 <= a < b < |q| ==> q[a] < q[b]
      invariant forall a :: 0 <= a < |q| ==> q[a] < i
    {
      if |lists[i]| == 1 {
        q := q + [i];
      }
    }
  }

  /**
   * Removing edge x, found alone on the list of vertex node, keeps P + [(ind, x)] a peeling
   * sequence of the edges left.
   */
  lemma {:induction false} PeelingExtend(P: seq<Peeled>, rest: set<Edge>, ind: nat, x: Edge, node: nat)
    requires IsPeelingSequence(P, rest)
    requires x in rest && |x| == 3 && ind < 3 && x[ind] == node && Incident(rest, node) == {x}
    ensures IsPeelingSequence(P + [(ind, x)], rest - {x})
  {
    var P1 := P + [(ind, x)];
    forall k, m | 0 <= k < m < |P1|
      ensures FreeVertex(P1[k]) !in P1[m].1
    {
      if m == |P| {
        assert P1[k] == P[k];
      }
    }
    forall k, e | 0 <= k < |P1| && e in rest - {x}
      ensures FreeVertex(P1[k]) !in e
    {
      if k == |P| {
        assert e !in Incident(rest, node);
      }
    }
  }

  /** The position of vertex v in edge x (minimal_perfect_hash_static_dict.rs:80-82). */
  function PositionIn(x: Edge, v: nat): (i: nat)
    requires |x| == 3 && v in x
    ensures i < 3 && x[i] == v
  {
    if x[0] == v then 0 else if x[1] == v then 1 else (assert x == [x[0], x[1], x[2]]; 2)
  }

  /** Every queued vertex is a vertex whose list holds at most one edge. */
  ghost predicate QueueOk(q: seq<nat>, lists: seq<set<Edge>>, n: nat) {
    |lists| == n && forall v: nat :: v in q ==> v < n && |lists[v]| <= 1
  }

  lemma {:induction false} PeeledEdgesAppend(P: seq<Peeled>, p: Peeled)
    ensures Elements(PeeledEdges(P + [p])) == Elements(PeeledEdges(P)) + {p.1}
  {
    assert PeeledEdges(P + [p]) == PeeledEdges(P) + [p.1];
  }

  lemma {:induction false} RestAfterPeel(E: set<Edge>, peeled: set<Edge>, rest: set<Edge>, x: Edge)
    requires rest == E - peeled && peeled <= E && x in rest
    ensures rest - {x} == E - (peeled + {x}) && peeled + {x} <= E && |rest - {x}| == |rest| - 1
  {
    assert rest == (rest - {x}) + {x};
  }

  /**
   * The removal loop (minimal_perfect_hash_static_dict.rs:84-89): takes x off the lists of its
   * three vertices, where the source asserts it is found, and queues each vertex left with
   * exactly one edge.
   */
  method RemoveEdge(lists0: seq<set<Edge>>, q0: seq<nat>, x: Edge, ghost rest: set<Edge>, n: nat)
    returns (lists: seq<set<Edge>>, q: seq<nat>)
    requires IsIncidence(lists0, rest, n) && QueueOk(q0, lists0, n) && x in rest && IsEdgeOn(x, n)
    ensures IsIncidence(lists, rest - {x}, n) && QueueOk(q, lists, n)
    ensures |q| <= |q0| + 3
  {
    lists, q := lists0, q0;
    for t := 0 to 3
      invariant |lists| == n
      invariant forall v :: 0 <= v < n ==> lists[v] == if v in x[..t] then Incident(rest - {x}, v) else Incident(rest, v)
      invariant QueueOk(q, lists, n)
      invariant |q| <= |q0| + t
    {
      var i := x[t];
      assert x[..t + 1] == x[..t] + [i];
      assert x in lists[i];
      lists := lists[i := lists[i] - {x}];
      if |lists[i]| == 1 {
        q := q + [i];
      }
    }
    assert x[..3] == x;
    forall v | 0 <= v < n
      ensures lists[v] == Incident(rest - {x}, v)
    {
      if v !in x {
        assert Incident(rest - {x}, v) == Incident(rest, v);
      }
    }
  }

  /**
   * The peeling loop (minimal_perfect_hash_static_dict.rs:71-91): pops a vertex, skips it if
   * its list is empty, otherwise records its only edge with the vertex's position in it and
   * removes that edge. The source's assert that the list holds one edge holds.
   */
  method Peel(lists0: seq<set<Edge>>, q0: seq<nat>, ghost E: set<Edge>, n: nat) returns (P: seq<Peeled>)
    requires AllEdgesOn(E, n) && IsIncidence(lists0, E, n) && QueueOk(q0, lists0, n)
    ensures IsPeelingOf(P, E)
  {
    var lists := lists0;
    var q := q0;
    P := [];
    ghost var rest := E;
    while |q| > 0
      invariant IsIncidence(lists, rest, n) && QueueOk(q, lists, n)
      invariant rest == E - Elements(PeeledEdges(P)) && Elements(PeeledEdges(P)) <= E
      invariant IsPeelingSequence(P, rest)
      decreases 4 * |rest| + |q|
    {
      var node := q[0];
      assert node in q;
      assert forall v: nat :: v in q[1..] ==> v in q;
      q := q[1..];
      if |lists[node]| == 0 {
        continue;
      }
      assert |lists[node]| == 1;
      var x :| x in lists[node];
      SingletonSet(lists[node], x);
      assert lists[node] == Incident(rest, node);
      assert x in rest && node in x;
      assert IsEdgeOn(x, n);
      var ind := PositionIn(x, node);
      assert Incident(rest, node) == {x};
      PeelingExtend(P, rest, ind, x, node);
      ghost var peeled := Elements(PeeledEdges(P));
      PeeledEdgesAppend(P, (ind, x));
      RestAfterPeel(E, peeled, rest, x);
      P := P + [(ind, x)];
      lists, q := RemoveEdge(lists, q, x, rest, n);
      rest := rest - {x};
    }
  }
}
