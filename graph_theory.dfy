/** Directed graphs with non-negative integer edge weights, and the notions of path,
    reachability and path weight that the graph algorithms are proved against. */
module GraphTheory {

  /** Each vertex maps to its adjacency map, from out-neighbour to edge weight.
      A destination missing from the adjacency map means there is no edge. */
  type Graph<V> = map<V, map<V, nat>>

  /** Every edge ends at a vertex of the graph. */
  predicate Closed<V>(g: Graph<V>) {
    forall a | a in g :: g[a].Keys <= g.Keys
  }

  predicate Edge<V>(g: Graph<V>, a: V, b: V) {
    a in g && b in g[a]
  }

  /** A non-empty walk through vertices of `g` along outgoing edges. */
  predicate IsPath<V>(g: Graph<V>, p: seq<V>) {
    && |p| > 0
    && (forall i | 0 <= i < |p| :: p[i] in g)
    && (forall i | 0 <= i < |p| - 1 :: Edge(g, p[i], p[i + 1]))
  }

  predicate PathFrom<V>(g: Graph<V>, p: seq<V>, s: V, t: V) {
    IsPath(g, p) && p[0] == s && p[|p| - 1] == t
  }

  ghost predicate Reachable<V(!new)>(g: Graph<V>, s: V, t: V) {
    exists p :: PathFrom(g, p, s, t)
  }

  /** Sum of the weights of the edges along `p`. */
  function PathWeight<V>(g: Graph<V>, p: seq<V>): nat
    requires IsPath(g, p)
    decreases |p|
  {
    if |p| == 1 then 0
    else
      assert IsPath(g, p[..|p| - 1]);
      PathWeight(g, p[..|p| - 1]) + g[p[|p| - 2]][p[|p| - 1]]
  }

  /** No path from `s` to `v` weighs less than `c`. */
  ghost predicate LowerBound<V(!new)>(g: Graph<V>, s: V, v: V, c: nat) {
    forall p | PathFrom(g, p, s, v) :: c <= PathWeight(g, p)
  }

  /** Some path from `s` to `v` weighs exactly `c`. */
  ghost predicate Attained<V(!new)>(g: Graph<V>, s: V, v: V, c: nat) {
    exists p | PathFrom(g, p, s, v) :: PathWeight(g, p) == c
  }

  /** `c` is the least total weight of any path from `s` to `v`. */
  ghost predicate IsShortest<V(!new)>(g: Graph<V>, s: V, v: V, c: nat) {
    Attained(g, s, v, c) && LowerBound(g, s, v, c)
  }

  /** Some path from `s` to `v` weighs less than `bound`. */
  ghost predicate ReachableWithin<V(!new)>(g: Graph<V>, s: V, v: V, bound: nat) {
    exists p | PathFrom(g, p, s, v) :: PathWeight(g, p) < bound
  }

  predicate NoDuplicates<V(==)>(s: seq<V>) {
    forall i, j | 0 <= i < j < |s| :: s[i] != s[j]
  }

  lemma NoDuplicatesAppend<V>(s: seq<V>, x: V)
    requires NoDuplicates(s) && x !in s
    ensures NoDuplicates(s + [x])
  {
  }

  lemma AppendAssociates<V>(a: seq<V>, b: seq<V>, c: seq<V>)
    ensures a + b + c == a + (b + c)
  {
  }

  /** Visiting one more vertex of `K` leaves fewer of `K` unvisited. */
  lemma FewerUnvisited<V>(K: set<V>, A: set<V>, B: set<V>, x: V)
    requires A <= B && x in K && x in B && x !in A
    ensures |K - B| < |K - A|
  {
    SubsetCardinality(K - B, (K - A) - {x});
  }

  /** A proper part of the vertex set of `g` leaves room for one more vertex. */
  lemma OneMoreFits<V, W>(m: map<V, W>, A: set<V>, x: V)
    requires A <= m.Keys && x in m && x !in A
    ensures |A| + 1 <= |m|
  {
    SubsetCardinality(A + {x}, m.Keys);
  }

  lemma {:induction false} SubsetCardinality<V>(A: set<V>, B: set<V>)
    requires A <= B
    ensures |A| <= |B|
    decreases A
  {
    if A != {} {
      var x :| x in A;
      SubsetCardinality(A - {x}, B - {x});
    }
  }

  /** The set of elements of a sequence. */
  function Elems<V>(s: seq<V>): set<V> {
    set x | x in s
  }

  lemma AppendEdge<V>(g: Graph<V>, p: seq<V>, v: V)
    requires IsPath(g, p) && Edge(g, p[|p| - 1], v) && v in g
    ensures IsPath(g, p + [v])
    ensures PathWeight(g, p + [v]) == PathWeight(g, p) + g[p[|p| - 1]][v]
  {
    assert (p + [v])[..|p|] == p;
  }

  lemma {:induction false} PrependEdge<V>(g: Graph<V>, u: V, p: seq<V>)
    requires IsPath(g, p) && Edge(g, u, p[0])
    ensures IsPath(g, [u] + p)
    ensures PathWeight(g, [u] + p) == g[u][p[0]] + PathWeight(g, p)
    decreases |p|
  {
    var q := [u] + p;
    if |p| > 1 {
      PrependEdge(g, u, p[..|p| - 1]);
      assert q[..|q| - 1] == [u] + p[..|p| - 1];
    }
  }

  lemma ReachableSelf<V(!new)>(g: Graph<V>, s: V)
    requires s in g
    ensures Reachable(g, s, s)
  {
    assert PathFrom(g, [s], s, s);
  }

  lemma ReachableStep<V(!new)>(g: Graph<V>, s: V, u: V, v: V)
    requires Reachable(g, s, u) && Edge(g, u, v) && v in g
    ensures Reachable(g, s, v)
  {
    var p :| PathFrom(g, p, s, u);
    AppendEdge(g, p, v);
    assert PathFrom(g, p + [v], s, v);
  }

  lemma AttainedStep<V(!new)>(g: Graph<V>, s: V, u: V, c: nat, v: V)
    requires Attained(g, s, u, c) && Edge(g, u, v) && v in g
    ensures Attained(g, s, v, c + g[u][v])
  {
    var p :| PathFrom(g, p, s, u) && PathWeight(g, p) == c;
    AppendEdge(g, p, v);
    assert PathFrom(g, p + [v], s, v);
  }

  /** A path that starts in a set closed under out-edges stays in that set. */
  lemma {:induction false} PathStaysInClosedSet<V>(g: Graph<V>, S: set<V>, p: seq<V>)
    requires IsPath(g, p) && p[0] in S
    requires forall v | v in S && v in g :: g[v].Keys <= S
    ensures p[|p| - 1] in S
    decreases |p|
  {
    if |p| > 1 {
      PathStaysInClosedSet(g, S, p[..|p| - 1]);
    }
  }

  /** A set that holds `s` and is closed under out-edges holds everything reachable from `s`. */
  lemma ClosedSetHoldsReachable<V(!new)>(g: Graph<V>, S: set<V>, s: V, t: V)
    requires s in S && Reachable(g, s, t)
    requires forall v | v in S && v in g :: g[v].Keys <= S
    ensures t in S
  {
    var p :| PathFrom(g, p, s, t);
    PathStaysInClosedSet(g, S, p);
  }

  /** The least path weight is unique: two shortest costs for the same target agree. */
  lemma ShortestIsUnique<V(!new)>(g: Graph<V>, s: V, v: V, c1: nat, c2: nat)
    requires IsShortest(g, s, v, c1) && IsShortest(g, s, v, c2)
    ensures c1 == c2
  {
    var p1 :| PathFrom(g, p1, s, v) && PathWeight(g, p1) == c1;
    var p2 :| PathFrom(g, p2, s, v) && PathWeight(g, p2) == c2;
  }
}
