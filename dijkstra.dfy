/** The main loop of Dijkstra's algorithm, proved against the invariant of the shortest-path
    theory. */
module Dijkstra {
  import opened Wrappers
  import opened GraphTheory
  import opened Notifications
  import opened ShortestPaths

  /** The main loop of Dijkstra's algorithm: start from cost 0 at `s` and the sentinel
      elsewhere, then repeatedly finalise the cheapest unfinished vertex, notify it with its
      cost, and relax the edges out of it, until every vertex is finished. */
  method SettleAll<V(!new)>(g: Graph<V>, s: V)
    returns (cost: map<V, nat>, pred: map<V, Option<V>>, events: seq<Event<V>>,
             ghost order: seq<V>, ghost rank: map<V, nat>)
    requires Closed(g)
    requires forall v | v in g :: ReachableWithin(g, s, v, Unreached)
    ensures ShortestOrder(g, s, order, rank, cost)
    ensures Tables(g, s, cost, pred) && rank.Keys == g.Keys
    ensures PredecessorsValid(g, s, g.Keys, rank, cost, pred)
    ensures FinishedSoFar(events, order, cost)
  {
    events := [DijkstraBegun];
    var vSet: set<V> := {};
    cost, pred := StartTables(g, s);
    order, rank := [], map[];
    while !(g.Keys <= vSet)
      invariant Invariant(g, s, vSet, order, rank, cost, pred)
      invariant FinishedSoFar(events, order, cost)
      decreases |g| - |order|
    {
      var u;
      u, vSet, cost, pred, events := FinishNext(g, s, vSet, cost, pred, events, order, rank);
      order, rank := order + [u], rank[u := |order|];
    }
    FinishedCostsAreShortest(g, s, vSet, order, rank, cost, pred);
  }

  /** The tables before the main loop: cost 0 at `s`, the sentinel at every other vertex and
      no predecessor anywhere; with nothing finished, the invariant pins down exactly these
      tables. */
  method StartTables<V(!new)>(g: Graph<V>, s: V) returns (cost: map<V, nat>, pred: map<V, Option<V>>)
    requires Closed(g)
    requires forall v | v in g :: ReachableWithin(g, s, v, Unreached)
    ensures Invariant(g, s, {}, [], map[], cost, pred)
  {
    pred := map v | v in g :: None;
    cost := map v | v in g :: Unreached;
    cost := cost[s := 0];
    InitialInvariant(g, s, cost, pred);
  }

  /** One round of the main loop: select the unfinished vertex `u` of least cost (one exists
      below the sentinel while any vertex is unfinished), notify it with its cost, and relax
      the edges out of it. The invariant carries over to the finished set grown by `u`, and
      the cost `u` is notified with is its final cost. */
  method FinishNext<V(!new)>(g: Graph<V>, s: V, vSet: set<V>, cost: map<V, nat>, pred: map<V, Option<V>>,
                             events: seq<Event<V>>, ghost order: seq<V>, ghost rank: map<V, nat>)
    returns (u: V, newSet: set<V>, newCost: map<V, nat>, newPred: map<V, Option<V>>, newEvents: seq<Event<V>>)
    requires Invariant(g, s, vSet, order, rank, cost, pred) && !(g.Keys <= vSet)
    requires forall v | v in g :: ReachableWithin(g, s, v, Unreached)
    requires FinishedSoFar(events, order, cost)
    ensures u in g && u !in vSet
    ensures newSet == vSet + {u} && |order| < |g|
    ensures Invariant(g, s, vSet + {u}, order + [u], rank[u := |order|], newCost, newPred)
    ensures FinishedSoFar(newEvents, order + [u], newCost)
  {
    var sVertex := SelectMinimum(g, vSet, cost);
    ghost var y :| y in g && y !in vSet;
    ghost var z := SomeUnfinishedBelowSentinel(g, s, vSet, cost, y);
    u := sVertex.value;
    AppendAssociates([DijkstraBegun], Finishes(order, cost), [Finished(u, cost[u])]);
    newEvents := events + [Finished(u, cost[u])];
    newCost, newPred := RelaxEdges(g, vSet + {u}, u, cost, pred);
    StepKeepsInvariant(g, s, vSet, order, rank, cost, pred, u, newCost, newPred);
    OneMoreFits(g, vSet, u);
    newSet := vSet + {u};
  }
}
