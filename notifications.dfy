/** The notifications the graph sends to its observers while an algorithm runs. Every
    registered observer receives the same sequence of calls, so an algorithm run is modelled
    by that one sequence of events. */
module Notifications {

  /** One notification: `notifyBFSHasBegun`, `notifyDFSHasBegun`, `notifyVisit(v)`,
      `notifySearchIsOver`, `notifyDijkstraHasBegun`, `notifyDijkstraVertexFinished(v, c)`
      and `notifyDijkstraIsOver(path)`. */
  datatype Event<V> =
    | BFSBegun
    | DFSBegun
    | Visit(vertex: V)
    | SearchOver
    | DijkstraBegun
    | Finished(vertex: V, cost: nat)
    | DijkstraOver(path: seq<V>)

  /** One `Visit` per vertex, in order. */
  function Visits<V>(vs: seq<V>): seq<Event<V>>
    decreases |vs|
  {
    if vs == [] then [] else Visits(vs[..|vs| - 1]) + [Visit(vs[|vs| - 1])]
  }

  /** `k` notifications that the search is over. */
  function SearchOvers<V>(k: nat): seq<Event<V>> {
    seq(k, _ => SearchOver)
  }

  /** One `Finished` per finalised vertex, with its cost. */
  function Finishes<V>(order: seq<V>, cost: map<V, nat>): (r: seq<Event<V>>)
    requires forall i | 0 <= i < |order| :: order[i] in cost
    ensures |r| == |order|
    decreases |order|
  {
    if order == [] then []
    else Finishes(order[..|order| - 1], cost) + [Finished(order[|order| - 1], cost[order[|order| - 1]])]
  }

  /** A Dijkstra run so far: the start notice, then one `Finished` per finalised vertex of
      `order`, with its cost. */
  predicate FinishedSoFar<V>(events: seq<Event<V>>, order: seq<V>, cost: map<V, nat>) {
    && (forall i | 0 <= i < |order| :: order[i] in cost)
    && events == [DijkstraBegun] + Finishes(order, cost)
  }

  lemma {:induction false} FinishesIndex<V>(order: seq<V>, cost: map<V, nat>)
    requires forall i | 0 <= i < |order| :: order[i] in cost
    ensures |Finishes(order, cost)| == |order|
    ensures forall i | 0 <= i < |order| :: Finishes(order, cost)[i] == Finished(order[i], cost[order[i]])
    decreases |order|
  {
    if order != [] {
      FinishesIndex(order[..|order| - 1], cost);
    }
  }

  /** The notifications depend only on the costs of the listed vertices. */
  lemma {:induction false} FinishesAgree<V>(order: seq<V>, cost: map<V, nat>, cost': map<V, nat>)
    requires forall i | 0 <= i < |order| :: order[i] in cost && order[i] in cost' && cost[order[i]] == cost'[order[i]]
    ensures Finishes(order, cost) == Finishes(order, cost')
    decreases |order|
  {
    if order != [] {
      FinishesAgree(order[..|order| - 1], cost, cost');
    }
  }

  /** One more finalised vertex adds one notification. */
  lemma FinishesAppend<V>(order: seq<V>, cost: map<V, nat>, u: V)
    requires forall i | 0 <= i < |order| :: order[i] in cost
    requires u in cost
    ensures Finishes(order + [u], cost) == Finishes(order, cost) + [Finished(u, cost[u])]
  {
    assert (order + [u])[..|order|] == order;
  }

  /** The `i`th notification of a Dijkstra run reports the `i`th finalised vertex. */
  lemma FinishedEventAt<V>(order: seq<V>, cost: map<V, nat>, path: seq<V>, events: seq<Event<V>>, i: int)
    requires forall k | 0 <= k < |order| :: order[k] in cost
    requires events == [DijkstraBegun] + Finishes(order, cost) + [DijkstraOver(path)]
    requires 1 <= i <= |order|
    ensures events[i] == Finished(order[i - 1], cost[order[i - 1]])
  {
    FinishesIndex(order, cost);
    assert events[i] == Finishes(order, cost)[i - 1];
  }

  /** The visits of `vs`, in order, followed only by notifications that the search is over. */
  predicate VisitsThenOvers<V(==)>(events: seq<Event<V>>, vs: seq<V>) {
    |vs| <= |events| && events == Visits(vs) + SearchOvers(|events| - |vs|)
  }

  lemma VisitsAppend<V>(vs: seq<V>, v: V)
    ensures Visits(vs + [v]) == Visits(vs) + [Visit(v)]
  {
    assert (vs + [v])[..|vs|] == vs;
  }

  /** Appending one visit to a run that has so far only visited `vs`. */
  lemma NotifyVisit<V>(pre: seq<Event<V>>, vs: seq<V>, v: V)
    ensures pre + Visits(vs) + [Visit(v)] == pre + Visits(vs + [v])
  {
    VisitsAppend(vs, v);
  }

  lemma {:induction false} VisitsConcat<V>(a: seq<V>, b: seq<V>)
    ensures Visits(a + b) == Visits(a) + Visits(b)
    decreases |b|
  {
    if b != [] {
      var b' := b[..|b| - 1];
      assert a + b == (a + b') + [b[|b| - 1]];
      VisitsAppend(a + b', b[|b| - 1]);
      VisitsConcat(a, b');
      VisitsAppend(b', b[|b| - 1]);
      assert b' + [b[|b| - 1]] == b;
    } else {
      assert a + b == a;
    }
  }

  lemma {:induction false} VisitsLength<V>(vs: seq<V>)
    ensures |Visits(vs)| == |vs|
    decreases |vs|
  {
    if vs != [] {
      VisitsLength(vs[..|vs| - 1]);
    }
  }

  /** A run that only visited. */
  lemma VisitsOnly<V>(vs: seq<V>)
    ensures VisitsThenOvers(Visits(vs), vs) && |Visits(vs)| == |vs|
  {
    VisitsLength(vs);
    assert Visits(vs) + SearchOvers<V>(0) == Visits(vs);
  }

  /** A run that visited `newly`, followed by a nested run that found nothing. */
  lemma ChildRunNoOver<V>(newly: seq<V>, childNew: seq<V>, notified: seq<Event<V>>)
    requires VisitsThenOvers(notified, childNew) && |notified| <= |childNew|
    ensures Visits(newly) + notified == Visits(newly + childNew)
  {
    VisitsConcat(newly, childNew);
    assert SearchOvers<V>(0) == [];
  }

  /** A run that visited `newly`, followed by a nested run and one more notice that the
      search is over. */
  lemma ChildRunThenOver<V>(newly: seq<V>, childNew: seq<V>, notified: seq<Event<V>>)
    requires VisitsThenOvers(notified, childNew)
    ensures VisitsThenOvers(Visits(newly) + notified + [SearchOver], newly + childNew)
    ensures |Visits(newly) + notified + [SearchOver]| - |newly + childNew| == |notified| - |childNew| + 1
  {
    VisitsConcat(newly, childNew);
    VisitsLength(newly);
    VisitsLength(childNew);
    SearchOversAppend<V>(|notified| - |childNew|);
  }

  lemma SearchOversAppend<V>(k: nat)
    ensures SearchOvers<V>(k) + [SearchOver] == SearchOvers(k + 1)
  {
  }
}
