/** The three loops of Dijkstra's algorithm as `DoDijsktra` runs them (selecting the cheapest
    unfinished vertex, relaxing its out-edges, walking the predecessors back from `end`),
    and the invariant of its main loop with the lemmas that keep it. */
module ShortestPaths {
  import opened Wrappers
  import opened GraphTheory
  import opened Notifications

  /** The cost every vertex starts with, standing for "not reached yet". */
  const Unreached: nat := 1000000

  /** The cost and predecessor tables cover every vertex (and the cost table `s`). */
  ghost predicate Tables<V>(g: Graph<V>, s: V, cost: map<V, nat>, pred: map<V, Option<V>>) {
    && (s in g || g == map[])
    && cost.Keys == g.Keys + {s}
    && pred.Keys == g.Keys
    && cost[s] == 0
    && (forall v | v in g :: cost[v] <= Unreached)
  }

  /** `order` lists the finished set `F` without repetition; `rank` gives each one's position. */
  ghost predicate Ranked<V>(F: set<V>, order: seq<V>, rank: map<V, nat>) {
    && rank.Keys == F
    && |order| == |F|
    && (forall i | 0 <= i < |order| :: order[i] in F && rank[order[i]] == i)
    && (forall v | v in F :: rank[v] < |order| && order[rank[v]] == v)
  }

  /** Every predecessor is a finished vertex with an edge to its successor whose cost it
      explains; a finished vertex's predecessor was finished before it; exactly the reached
      vertices other than `s` have a predecessor. */
  ghost predicate PredecessorsValid<V>(g: Graph<V>, s: V, F: set<V>, rank: map<V, nat>,
                                        cost: map<V, nat>, pred: map<V, Option<V>>)
    requires Tables(g, s, cost, pred) && rank.Keys == F
  {
    && (forall v | v in g && pred[v].Some? ::
          && pred[v].value in F
          && Edge(g, pred[v].value, v)
          && cost[v] == cost[pred[v].value] + g[pred[v].value][v]
          && (v in F ==> rank[pred[v].value] < rank[v]))
    && (forall v | v in g && v != s :: pred[v].Some? <==> cost[v] < Unreached)
    && (s in g ==> pred[s] == None)
  }

  /** The classic Dijkstra invariant: `s` is finished first; finished costs are reached,
      are lower bounds on every path and are no larger than any unfinished cost; every edge
      out of a finished vertex has been relaxed. */
  ghost predicate Settled<V(!new)>(g: Graph<V>, s: V, F: set<V>, cost: map<V, nat>)
    requires g.Keys <= cost.Keys && F <= g.Keys
  {
    && (F != {} ==> s in F)
    && (F == {} ==> forall v | v in g && v != s :: cost[v] == Unreached)
    && (forall x | x in F :: cost[x] < Unreached && LowerBound(g, s, x, cost[x]))
    && (forall x, y | x in F && y in g && y !in F :: cost[x] <= cost[y])
    && (forall x, y | x in F && y in g && y !in F && y in g[x] :: cost[y] <= cost[x] + g[x][y])
  }

  /** Every cost below the sentinel is the weight of some path from `s`. */
  ghost predicate Attainable<V(!new)>(g: Graph<V>, s: V, cost: map<V, nat>)
    requires g.Keys <= cost.Keys
  {
    forall v | v in g && cost[v] < Unreached :: Attained(g, s, v, cost[v])
  }

  ghost predicate SortedByCost<V>(order: seq<V>, cost: map<V, nat>)
    requires forall i | 0 <= i < |order| :: order[i] in cost
  {
    forall i, j | 0 <= i < j < |order| :: cost[order[i]] <= cost[order[j]]
  }

  /** The invariant of the main loop of `DoDijsktra` with finished set `F`. */
  ghost predicate Invariant<V(!new)>(g: Graph<V>, s: V, F: set<V>, order: seq<V>, rank: map<V, nat>,
                                     cost: map<V, nat>, pred: map<V, Option<V>>)
  {
    && Closed(g)
    && Tables(g, s, cost, pred)
    && F <= g.Keys
    && Ranked(F, order, rank)
    && PredecessorsValid(g, s, F, rank, cost, pred)
    && Settled(g, s, F, cost)
    && Attainable(g, s, cost)
    && SortedByCost(order, cost)
  }

  /** Relaxing the out-edges of the just-finished `u`: an unfinished neighbour whose cost
      would drop through `u` gets the lower cost and `u` as predecessor; nothing else changes. */
  predicate Improves<V>(g: Graph<V>, vSet: set<V>, cost: map<V, nat>, u: V, v: V)
    requires u in g && u in cost && v in cost
  {
    v in g[u] && v !in vSet && cost[u] + g[u][v] < cost[v]
  }

  ghost predicate RelaxedFrom<V>(g: Graph<V>, vSet: set<V>, u: V,
                                 cost: map<V, nat>, pred: map<V, Option<V>>,
                                 cost': map<V, nat>, pred': map<V, Option<V>>)
    requires u in g && u in cost
  {
    && cost'.Keys == cost.Keys
    && pred'.Keys == pred.Keys
    && (forall v | v in cost ::
          cost'[v] == if Improves(g, vSet, cost, u, v) then cost[u] + g[u][v] else cost[v])
    && (forall v | v in pred ::
          pred'[v] == if v in cost && Improves(g, vSet, cost, u, v) then Some(u) else pred[v])
  }

  /** The scan for the unfinished vertex of least cost, keeping the first one found with a
      strict `<` against a running minimum that starts at the sentinel. The scan order over
      the key set is arbitrary, so ties may be broken either way. */
  method SelectMinimum<V>(g: Graph<V>, vSet: set<V>, cost: map<V, nat>) returns (sVertex: Option<V>)
    requires g.Keys <= cost.Keys
    ensures sVertex.Some? ==>
              && sVertex.value in g && sVertex.value !in vSet
              && cost[sVertex.value] < Unreached
              && forall v | v in g && v !in vSet :: cost[sVertex.value] <= cost[v]
    ensures sVertex.None? <==> forall v | v in g && v !in vSet :: Unreached <= cost[v]
  {
    var sCost := Unreached;
    sVertex := None;
    var rest := g.Keys;
    while rest != {}
      invariant rest <= g.Keys
      invariant sVertex.None? ==> sCost == Unreached
      invariant sVertex.Some? ==>
                  && sVertex.value in g && sVertex.value !in vSet
                  && cost[sVertex.value] == sCost < Unreached
      invariant forall v | v in g && v !in rest && v !in vSet :: sCost <= cost[v]
      decreases |rest|
    {
      var currVertex :| currVertex in rest;
      rest := rest - {currVertex};
      if currVertex !in vSet {
        if cost[currVertex] < sCost {
          sCost := cost[currVertex];
          sVertex := Some(currVertex);
        }
      }
    }
  }

  /** The relaxation loop over the adjacency of the just-finished vertex `u`. */
  method RelaxEdges<V>(g: Graph<V>, vSet: set<V>, u: V, cost: map<V, nat>, pred: map<V, Option<V>>)
    returns (newCost: map<V, nat>, newPred: map<V, Option<V>>)
    requires u in g && u in vSet && u in cost
    requires g[u].Keys <= cost.Keys && g[u].Keys <= pred.Keys
    ensures RelaxedFrom(g, vSet, u, cost, pred, newCost, newPred)
    ensures forall v | v in cost :: newCost[v] <= cost[v]
    ensures forall v | v in cost && v in g[u] && v !in vSet :: newCost[v] <= cost[u] + g[u][v]
  {
    newCost, newPred := cost, pred;
    var rest := g[u].Keys;
    while rest != {}
      invariant rest <= g[u].Keys
      invariant newCost.Keys == cost.Keys && newPred.Keys == pred.Keys
      invariant forall v | v in cost ::
                  newCost[v] == if v !in rest && Improves(g, vSet, cost, u, v) then cost[u] + g[u][v] else cost[v]
      invariant forall v | v in pred ::
                  newPred[v] == if v in cost && v !in rest && Improves(g, vSet, cost, u, v) then Some(u) else pred[v]
      decreases |rest|
    {
      var currVertex :| currVertex in rest;
      rest := rest - {currVertex};
      if currVertex !in vSet {
        if newCost[u] + g[u][currVertex] < newCost[currVertex] {
          newCost := newCost[currVertex := newCost[u] + g[u][currVertex]];
          newPred := newPred[currVertex := Some(u)];
        }
      }
    }
  }

  /** Walking the predecessors back from `end`, prepending each vertex, until a vertex
      without predecessor. Once every vertex is finished this yields a path from `s` to `end`
      of weight `cost[end]`; a vertex outside the graph has no entry in `pred`, so `[end]`. */
  method TracePredecessors<V(!new)>(pred: map<V, Option<V>>, end: V, ghost g: Graph<V>, ghost s: V,
                                    ghost order: seq<V>, ghost rank: map<V, nat>, ghost cost: map<V, nat>)
    returns (fastPath: seq<V>)
    requires Tables(g, s, cost, pred) && rank.Keys == g.Keys
    requires PredecessorsValid(g, s, g.Keys, rank, cost, pred)
    requires forall v | v in g :: cost[v] < Unreached
    ensures end in g ==> PathFrom(g, fastPath, s, end) && PathWeight(g, fastPath) == cost[end]
    ensures end in g ==> RisingRanks(rank, fastPath) && NoDuplicates(fastPath)
    ensures end !in g ==> fastPath == [end]
  {
    fastPath := [];
    var ending: Option<V> := Some(end);
    while ending.Some?
      invariant TracedBack(g, rank, cost, pred, end, fastPath, ending)
      decreases StepsLeft(rank, ending)
    {
      var v := ending.value;
      TraceStep(g, s, rank, cost, pred, end, fastPath, v);
      fastPath := [v] + fastPath;
      ending := if fastPath[0] in pred then pred[fastPath[0]] else None;
    }
    TraceDone(g, s, rank, cost, pred, end, fastPath);
  }

  /** The vertices of `p` were finished in the order they appear in `p`. */
  ghost predicate RisingRanks<V>(rank: map<V, nat>, p: seq<V>) {
    forall i, j | 0 <= i < j < |p| :: p[i] in rank && p[j] in rank && rank[p[i]] < rank[p[j]]
  }

  /** The state of the walk back from `end`: `ending` is the next vertex to prepend, and the
      path traced so far leads to `end`, weighs the cost of `end` less that of its first
      vertex, and lists vertices in the order they were finished. */
  ghost predicate TracedBack<V>(g: Graph<V>, rank: map<V, nat>, cost: map<V, nat>, pred: map<V, Option<V>>,
                                end: V, fastPath: seq<V>, ending: Option<V>)
    requires g.Keys <= cost.Keys
  {
    && (fastPath == [] ==> ending == Some(end))
    && (fastPath != [] && end !in g ==> fastPath == [end] && ending == None)
    && (fastPath != [] && end in g ==>
          && PathFrom(g, fastPath, fastPath[0], end)
          && PathWeight(g, fastPath) + cost[fastPath[0]] == cost[end]
          && RisingRanks(rank, fastPath)
          && fastPath[0] in pred && ending == pred[fastPath[0]])
  }

  /** Bounds the steps left in the walk: the rank of the next vertex strictly decreases. */
  function StepsLeft<V>(rank: map<V, nat>, ending: Option<V>): nat {
    if ending.None? then 0 else if ending.value in rank then rank[ending.value] + 2 else 1
  }

  /** Prepending the next vertex `v` keeps the walk's state and shortens the steps left. */
  lemma TraceStep<V(!new)>(g: Graph<V>, s: V, rank: map<V, nat>, cost: map<V, nat>, pred: map<V, Option<V>>,
                           end: V, fastPath: seq<V>, v: V)
    requires Tables(g, s, cost, pred) && rank.Keys == g.Keys
    requires PredecessorsValid(g, s, g.Keys, rank, cost, pred)
    requires TracedBack(g, rank, cost, pred, end, fastPath, Some(v))
    ensures TracedBack(g, rank, cost, pred, end, [v] + fastPath, if v in pred then pred[v] else None)
    ensures StepsLeft(rank, if v in pred then pred[v] else None) < StepsLeft(rank, Some(v))
  {
    if fastPath != [] {
      PrependEdge(g, v, fastPath);
    } else if end in g {
      assert PathFrom(g, [v], v, end);
    }
  }

  /** When the walk stops, the traced path starts at `s`: every other vertex, having a cost
      below the sentinel, has a predecessor. */
  lemma TraceDone<V(!new)>(g: Graph<V>, s: V, rank: map<V, nat>, cost: map<V, nat>, pred: map<V, Option<V>>,
                           end: V, fastPath: seq<V>)
    requires Tables(g, s, cost, pred) && rank.Keys == g.Keys
    requires PredecessorsValid(g, s, g.Keys, rank, cost, pred)
    requires forall v | v in g :: cost[v] < Unreached
    requires TracedBack(g, rank, cost, pred, end, fastPath, None)
    ensures end in g ==> PathFrom(g, fastPath, s, end) && PathWeight(g, fastPath) == cost[end]
    ensures end in g ==> RisingRanks(rank, fastPath) && NoDuplicates(fastPath)
    ensures end !in g ==> fastPath == [end]
  {
  }

  /** Along a path from `s` to an unfinished vertex, the first unfinished vertex costs no
      more than the whole path weighs. */
  lemma {:induction false} ExitVertex<V(!new)>(g: Graph<V>, s: V, F: set<V>, cost: map<V, nat>, p: seq<V>)
    returns (z: V)
    requires g.Keys <= cost.Keys && F <= g.Keys && s in cost && cost[s] == 0
    requires Settled(g, s, F, cost)
    requires IsPath(g, p) && p[0] == s && p[|p| - 1] !in F
    ensures z in g && z !in F && cost[z] <= PathWeight(g, p)
    decreases |p|
  {
    if |p| == 1 {
      z := s;
    } else {
      var q := p[..|p| - 1];
      assert IsPath(g, q);
      var x := p[|p| - 2];
      if x in F {
        assert PathFrom(g, q, s, x);
        z := p[|p| - 1];
      } else {
        z := ExitVertex(g, s, F, cost, q);
      }
    }
  }

  /** The unfinished vertex of least cost has, in fact, the least cost of any path. */
  lemma NewlySettledIsLowerBound<V(!new)>(g: Graph<V>, s: V, F: set<V>, cost: map<V, nat>, u: V)
    requires g.Keys <= cost.Keys && F <= g.Keys && s in cost && cost[s] == 0
    requires Settled(g, s, F, cost)
    requires u in g && u !in F && forall v | v in g && v !in F :: cost[u] <= cost[v]
    ensures LowerBound(g, s, u, cost[u])
  {
    forall p | PathFrom(g, p, s, u)
      ensures cost[u] <= PathWeight(g, p)
    {
      var z := ExitVertex(g, s, F, cost, p);
    }
  }

  /** When every vertex has a path from `s` lighter than the sentinel, some unfinished vertex
      has a cost below the sentinel, so the scan always selects a vertex. */
  lemma SomeUnfinishedBelowSentinel<V(!new)>(g: Graph<V>, s: V, F: set<V>, cost: map<V, nat>, y: V)
    returns (z: V)
    requires g.Keys <= cost.Keys && F <= g.Keys && s in cost && cost[s] == 0
    requires Settled(g, s, F, cost)
    requires y in g && y !in F && ReachableWithin(g, s, y, Unreached)
    ensures z in g && z !in F && cost[z] < Unreached
  {
    var p :| PathFrom(g, p, s, y) && PathWeight(g, p) < Unreached;
    z := ExitVertex(g, s, F, cost, p);
  }

  /** Before the first iteration: `start` is a vertex unless the graph is empty, and the
      tables hold the sentinel everywhere but at `start`. */
  lemma InitialTables<V(!new)>(g: Graph<V>, s: V, cost: map<V, nat>, pred: map<V, Option<V>>)
    requires forall v | v in g :: ReachableWithin(g, s, v, Unreached)
    requires cost == (map v | v in g :: Unreached)[s := 0]
    requires pred == map v | v in g :: None
    ensures Tables(g, s, cost, pred)
  {
    if g != map[] {
      var v :| v in g;
      var p :| PathFrom(g, p, s, v) && PathWeight(g, p) < Unreached;
    }
  }

  /** The invariant holds before the first iteration. */
  lemma InitialInvariant<V(!new)>(g: Graph<V>, s: V, cost: map<V, nat>, pred: map<V, Option<V>>)
    requires Closed(g)
    requires forall v | v in g :: ReachableWithin(g, s, v, Unreached)
    requires cost == (map v | v in g :: Unreached)[s := 0]
    requires pred == map v | v in g :: None
    ensures Invariant(g, s, {}, [], map[], cost, pred)
  {
    InitialTables(g, s, cost, pred);
    assert Attainable(g, s, cost) by {
      if s in g {
        assert PathFrom(g, [s], s, s);
      }
    }
  }

  lemma StepKeepsTables<V(!new)>(g: Graph<V>, s: V, F: set<V>, cost: map<V, nat>, pred: map<V, Option<V>>,
                                 u: V, cost': map<V, nat>, pred': map<V, Option<V>>)
    requires Tables(g, s, cost, pred) && F <= g.Keys && Settled(g, s, F, cost)
    requires u in g && u !in F && cost[u] < Unreached
    requires RelaxedFrom(g, F + {u}, u, cost, pred, cost', pred')
    ensures Tables(g, s, cost', pred')
    ensures F == {} ==> u == s
  {
    assert cost'[s] == 0 by {
      if F == {} {
        assert u == s;
      }
      assert !Improves(g, F + {u}, cost, u, s);
    }
  }

  lemma StepKeepsPredecessors<V(!new)>(g: Graph<V>, s: V, F: set<V>, order: seq<V>, rank: map<V, nat>,
                                       cost: map<V, nat>, pred: map<V, Option<V>>, u: V,
                                       cost': map<V, nat>, pred': map<V, Option<V>>)
    requires Tables(g, s, cost, pred) && Tables(g, s, cost', pred') && F <= g.Keys
    requires Ranked(F, order, rank) && PredecessorsValid(g, s, F, rank, cost, pred)
    requires u in g && u !in F && cost[u] < Unreached && (F == {} ==> u == s) && (F != {} ==> s in F)
    requires RelaxedFrom(g, F + {u}, u, cost, pred, cost', pred')
    ensures PredecessorsValid(g, s, F + {u}, rank[u := |order|], cost', pred')
  {
    var F', order', rank' := F + {u}, order + [u], rank[u := |order|];
    forall v | v in g && pred'[v].Some?
      ensures && pred'[v].value in F'
              && Edge(g, pred'[v].value, v)
              && cost'[v] == cost'[pred'[v].value] + g[pred'[v].value][v]
              && (v in F' ==> rank'[pred'[v].value] < rank'[v])
    {
      if !Improves(g, F', cost, u, v) {
        var w := pred[v].value;
        assert w in F;
        assert !Improves(g, F', cost, u, w);
      }
    }
    assert s in g ==> pred'[s] == None by {
      if s in g {
        assert !Improves(g, F', cost, u, s);
      }
    }
  }

  lemma StepKeepsRanked<V>(F: set<V>, order: seq<V>, rank: map<V, nat>, u: V)
    requires Ranked(F, order, rank) && u !in F
    ensures Ranked(F + {u}, order + [u], rank[u := |order|])
  {
  }

  lemma StepKeepsSettled<V(!new)>(g: Graph<V>, s: V, F: set<V>, cost: map<V, nat>, pred: map<V, Option<V>>,
                                  u: V, cost': map<V, nat>, pred': map<V, Option<V>>)
    requires Tables(g, s, cost, pred) && Tables(g, s, cost', pred') && F <= g.Keys
    requires Settled(g, s, F, cost)
    requires u in g && u !in F && cost[u] < Unreached && (F == {} ==> u == s)
    requires forall v | v in g && v !in F :: cost[u] <= cost[v]
    requires RelaxedFrom(g, F + {u}, u, cost, pred, cost', pred')
    ensures Settled(g, s, F + {u}, cost')
  {
    var F' := F + {u};
    NewlySettledIsLowerBound(g, s, F, cost, u);
    RelaxKeepsFinished(g, F, u, cost, pred, cost', pred');
    RelaxBounds(g, F, u, cost, pred, cost', pred');
    FinishedStayCheapest(g, F, u, cost, cost');
    FinishedEdgesStayRelaxed(g, F, u, cost, cost');
    FinishedStayBounds(g, s, F, u, cost, cost');
  }

  /** After finishing `u`, every finished cost is still reached and a lower bound. */
  lemma FinishedStayBounds<V(!new)>(g: Graph<V>, s: V, F: set<V>, u: V, cost: map<V, nat>, cost': map<V, nat>)
    requires g.Keys <= cost.Keys && cost'.Keys == cost.Keys && u in g && F <= g.Keys
    requires forall x | x in F :: cost[x] < Unreached && LowerBound(g, s, x, cost[x])
    requires cost[u] < Unreached && LowerBound(g, s, u, cost[u])
    requires forall x | x in F + {u} && x in cost :: cost'[x] == cost[x]
    ensures forall x | x in F + {u} :: cost'[x] < Unreached && LowerBound(g, s, x, cost'[x])
  {
    forall x | x in F + {u}
      ensures cost'[x] < Unreached && LowerBound(g, s, x, cost'[x])
    {
      assert cost'[x] == cost[x];
    }
  }

  /** After finishing `u`, the finished costs are still no larger than any unfinished one. */
  lemma FinishedStayCheapest<V>(g: Graph<V>, F: set<V>, u: V, cost: map<V, nat>, cost': map<V, nat>)
    requires g.Keys <= cost.Keys && cost'.Keys == cost.Keys && u in g && u !in F && F <= g.Keys
    requires forall x, y | x in F && y in g && y !in F :: cost[x] <= cost[y]
    requires forall v | v in g && v !in F :: cost[u] <= cost[v]
    requires forall x | x in F + {u} && x in cost :: cost'[x] == cost[x]
    requires forall v | v in cost && cost[u] <= cost[v] :: cost[u] <= cost'[v]
    ensures forall x, y | x in F + {u} && y in g && y !in F + {u} :: cost'[x] <= cost'[y]
  {
    forall x, y | x in F + {u} && y in g && y !in F + {u}
      ensures cost'[x] <= cost'[y]
    {
      assert cost'[x] == cost[x] <= cost[u] <= cost[y];
    }
  }

  /** After relaxing the edges out of `u`, every edge out of a finished vertex is relaxed. */
  lemma FinishedEdgesStayRelaxed<V>(g: Graph<V>, F: set<V>, u: V, cost: map<V, nat>, cost': map<V, nat>)
    requires g.Keys <= cost.Keys && cost'.Keys == cost.Keys && u in g && u !in F && F <= g.Keys
    requires forall x, y | x in F && y in g && y !in F && y in g[x] :: cost[y] <= cost[x] + g[x][y]
    requires forall x | x in F + {u} && x in cost :: cost'[x] == cost[x]
    requires forall v | v in cost :: cost'[v] <= cost[v]
    requires forall v | v in cost && v in g[u] && v !in F + {u} :: cost'[v] <= cost[u] + g[u][v]
    ensures forall x, y | x in F + {u} && y in g && y !in F + {u} && y in g[x] :: cost'[y] <= cost'[x] + g[x][y]
  {
    forall x, y | x in F + {u} && y in g && y !in F + {u} && y in g[x]
      ensures cost'[y] <= cost'[x] + g[x][y]
    {
      if x != u {
        assert cost'[y] <= cost[y] <= cost[x] + g[x][y];
      }
    }
  }

  /** Relaxing the edges out of `u` raises no cost, leaves each unfinished neighbour of `u`
      no dearer than the way through `u`, and keeps every cost that was at least `cost[u]`
      at least `cost[u]`. */
  lemma RelaxBounds<V>(g: Graph<V>, F: set<V>, u: V, cost: map<V, nat>, pred: map<V, Option<V>>,
                       cost': map<V, nat>, pred': map<V, Option<V>>)
    requires u in g && u in cost
    requires RelaxedFrom(g, F + {u}, u, cost, pred, cost', pred')
    ensures forall v | v in cost :: v in cost' && cost'[v] <= cost[v]
    ensures forall v | v in cost && v in g[u] && v !in F + {u} :: cost'[v] <= cost[u] + g[u][v]
    ensures forall v | v in cost && cost[u] <= cost[v] :: cost[u] <= cost'[v]
  {
    forall v | v in cost
      ensures cost'[v] <= cost[v]
      ensures v in g[u] && v !in F + {u} ==> cost'[v] <= cost[u] + g[u][v]
      ensures cost[u] <= cost[v] ==> cost[u] <= cost'[v]
    {
      if Improves(g, F + {u}, cost, u, v) {
      }
    }
  }

  lemma StepKeepsAttainable<V(!new)>(g: Graph<V>, s: V, F: set<V>, cost: map<V, nat>, pred: map<V, Option<V>>,
                                     u: V, cost': map<V, nat>, pred': map<V, Option<V>>)
    requires Closed(g) && Tables(g, s, cost, pred) && Attainable(g, s, cost)
    requires u in g && cost[u] < Unreached
    requires RelaxedFrom(g, F + {u}, u, cost, pred, cost', pred')
    ensures Attainable(g, s, cost')
  {
    forall v | v in g && cost'[v] < Unreached
      ensures Attained(g, s, v, cost'[v])
    {
      if Improves(g, F + {u}, cost, u, v) {
        AttainedStep(g, s, u, cost[u], v);
      }
    }
  }

  lemma StepKeepsOrder<V(!new)>(g: Graph<V>, s: V, F: set<V>, order: seq<V>, rank: map<V, nat>,
                                cost: map<V, nat>, pred: map<V, Option<V>>, u: V,
                                cost': map<V, nat>, pred': map<V, Option<V>>)
    requires Tables(g, s, cost, pred) && F <= g.Keys && Ranked(F, order, rank)
    requires forall x, y | x in F && y in g && y !in F :: cost[x] <= cost[y]
    requires SortedByCost(order, cost)
    requires u in g && u !in F
    requires RelaxedFrom(g, F + {u}, u, cost, pred, cost', pred')
    ensures forall i | 0 <= i < |order + [u]| :: (order + [u])[i] in cost'
    ensures SortedByCost(order + [u], cost')
  {
    var order' := order + [u];
    RelaxKeepsFinished(g, F, u, cost, pred, cost', pred');
    forall i | 0 <= i < |order'|
      ensures order'[i] in F + {u}
    {
    }
    forall i, j | 0 <= i < j < |order'|
      ensures cost'[order'[i]] <= cost'[order'[j]]
    {
      if j == |order| {
        assert order'[i] == order[i] && order[i] in F;
      }
    }
  }

  /** Relaxing the edges out of `u` changes no finished cost, nor that of `u` itself. */
  lemma RelaxKeepsFinished<V>(g: Graph<V>, F: set<V>, u: V, cost: map<V, nat>, pred: map<V, Option<V>>,
                              cost': map<V, nat>, pred': map<V, Option<V>>)
    requires u in g && u in cost
    requires RelaxedFrom(g, F + {u}, u, cost, pred, cost', pred')
    ensures forall x | x in F + {u} && x in cost :: x in cost' && cost'[x] == cost[x]
  {
    forall x | x in F + {u} && x in cost
      ensures cost'[x] == cost[x]
    {
      assert !Improves(g, F + {u}, cost, u, x);
    }
  }

  /** Finishing `u` adds one notification for it and leaves the earlier ones as they were,
      since relaxing changes no finished cost. */
  lemma StepExtendsFinishes<V>(F: set<V>, order: seq<V>, u: V, cost: map<V, nat>, cost': map<V, nat>)
    requires forall i | 0 <= i < |order| :: order[i] in F && order[i] in cost
    requires u in cost
    requires forall x | x in F + {u} && x in cost :: x in cost' && cost'[x] == cost[x]
    ensures forall i | 0 <= i < |order + [u]| :: (order + [u])[i] in cost'
    ensures Finishes(order + [u], cost') == Finishes(order, cost) + [Finished(u, cost[u])]
  {
    assert forall i | 0 <= i < |order + [u]| :: (order + [u])[i] in F + {u};
    FinishesAppend(order, cost', u);
    FinishesAgree(order, cost, cost');
  }

  /** One iteration of the main loop keeps the invariant: finish `u`, the unfinished vertex
      of least cost, then relax its out-edges. */
  lemma StepKeepsInvariant<V(!new)>(g: Graph<V>, s: V, F: set<V>, order: seq<V>, rank: map<V, nat>,
                                    cost: map<V, nat>, pred: map<V, Option<V>>, u: V,
                                    cost': map<V, nat>, pred': map<V, Option<V>>)
    requires Invariant(g, s, F, order, rank, cost, pred)
    requires u in g && u !in F && cost[u] < Unreached
    requires forall v | v in g && v !in F :: cost[u] <= cost[v]
    requires RelaxedFrom(g, F + {u}, u, cost, pred, cost', pred')
    ensures Invariant(g, s, F + {u}, order + [u], rank[u := |order|], cost', pred')
    ensures forall i | 0 <= i < |order + [u]| :: (order + [u])[i] in cost'
    ensures Finishes(order + [u], cost') == Finishes(order, cost) + [Finished(u, cost[u])]
  {
    StepKeepsTables(g, s, F, cost, pred, u, cost', pred');
    StepKeepsRanked(F, order, rank, u);
    StepKeepsPredecessors(g, s, F, order, rank, cost, pred, u, cost', pred');
    StepKeepsSettled(g, s, F, cost, pred, u, cost', pred');
    StepKeepsAttainable(g, s, F, cost, pred, u, cost', pred');
    StepKeepsOrder(g, s, F, order, rank, cost, pred, u, cost', pred');
    RelaxKeepsFinished(g, F, u, cost, pred, cost', pred');
    StepExtendsFinishes(F, order, u, cost, cost');
  }

  /** `order` lists each vertex of `g` once, in non-decreasing order of cost, `rank` locates
      each vertex in it, and each cost is the least weight of any path from `s` (so below the
      sentinel). */
  ghost predicate ShortestOrder<V(!new)>(g: Graph<V>, s: V, order: seq<V>, rank: map<V, nat>,
                                         cost: map<V, nat>) {
    && |order| == |g|
    && (forall i | 0 <= i < |order| :: order[i] in g && order[i] in cost)
    && (forall i | 0 <= i < |order| :: IsShortest(g, s, order[i], cost[order[i]]))
    && (forall i, j | 0 <= i < j < |order| :: order[i] != order[j] && cost[order[i]] <= cost[order[j]])
    && (forall v | v in g :: v in rank && rank[v] < |order| && order[rank[v]] == v)
    && (forall i | 0 <= i < |order| :: order[i] in rank && rank[order[i]] == i)
    && (forall v | v in g :: v in cost && cost[v] < Unreached)
  }

  /** Once every vertex is finished, `order` lists each vertex once, in non-decreasing order
      of cost, and each finished cost is the least weight of any path from `s`. */
  lemma FinishedCostsAreShortest<V(!new)>(g: Graph<V>, s: V, F: set<V>, order: seq<V>, rank: map<V, nat>,
                                          cost: map<V, nat>, pred: map<V, Option<V>>)
    requires Invariant(g, s, F, order, rank, cost, pred) && g.Keys <= F
    ensures ShortestOrder(g, s, order, rank, cost)
    ensures Tables(g, s, cost, pred) && rank.Keys == g.Keys
    ensures PredecessorsValid(g, s, g.Keys, rank, cost, pred)
  {
    assert F == g.Keys;
    assert |g.Keys| == |g|;
    forall i | 0 <= i < |order|
      ensures IsShortest(g, s, order[i], cost[order[i]])
    {
      assert order[i] in g.Keys;
    }
  }

  /** The notifications of a whole run from `s`: the start, one `Finished` per vertex as
      `FinishNotices` describes, then the reported path, which is a lightest path to `end`
      without repeated vertices when `end` is a vertex and `[end]` otherwise. */
  ghost predicate DijkstraNotices<V(!new)>(g: Graph<V>, s: V, end: V, events: seq<Event<V>>) {
    && |events| == |g| + 2
    && events[0] == DijkstraBegun && events[|events| - 1].DijkstraOver?
    && FinishNotices(g, s, events)
    && (end in g ==>
          var path := events[|events| - 1].path;
          && PathFrom(g, path, s, end)
          && NoDuplicates(path)
          && IsShortest(g, s, end, PathWeight(g, path))
          && exists i | 1 <= i <= |g| :: events[i] == Finished(end, PathWeight(g, path)))
    && (end !in g ==> events[|events| - 1].path == [end])
  }

  /** The `Finished` notifications of a run from `s`: one per vertex, in non-decreasing order
      of cost, each with its shortest distance from `s`; `s` first with cost 0, and every later
      one after an in-neighbour whose cost plus the edge explains its own. */
  ghost predicate FinishNotices<V(!new)>(g: Graph<V>, s: V, events: seq<Event<V>>)
    requires |events| == |g| + 2
  {
    && (forall i | 1 <= i <= |g| ::
          events[i].Finished? && events[i].vertex in g
          && IsShortest(g, s, events[i].vertex, events[i].cost))
    && (forall i, j | 1 <= i < j <= |g| ::
          events[i].Finished? && events[j].Finished?
          && events[i].vertex != events[j].vertex && events[i].cost <= events[j].cost)
    && (forall v | v in g :: exists i | 1 <= i <= |g| :: events[i].Finished? && events[i].vertex == v)
    && (|g| > 0 ==> events[1] == Finished(s, 0))
    && (forall i | 2 <= i <= |g| :: FinishedAfterPredecessor(g, events, i))
  }

  /** The vertex finished by `events[i]` was reached through an edge from a vertex finished
      earlier, whose cost plus the edge's weight is its own cost. */
  ghost predicate FinishedAfterPredecessor<V>(g: Graph<V>, events: seq<Event<V>>, i: nat)
    requires i < |events|
  {
    exists j | 1 <= j < i ::
      && events[j].Finished? && events[i].Finished?
      && Edge(g, events[j].vertex, events[i].vertex)
      && events[i].cost == events[j].cost + g[events[j].vertex][events[i].vertex]
  }

  /** `events` holds, between a first and a last notification, one `Finished` per vertex of
      `order`, in that order, with its cost. */
  predicate ListsFinishes<V>(order: seq<V>, cost: map<V, nat>, events: seq<Event<V>>) {
    && |events| == |order| + 2
    && forall k | 0 <= k < |order| :: order[k] in cost && events[k + 1] == Finished(order[k], cost[order[k]])
  }

  lemma ListsFinishesOfRun<V>(order: seq<V>, cost: map<V, nat>, path: seq<V>, events: seq<Event<V>>)
    requires forall k | 0 <= k < |order| :: order[k] in cost
    requires events == [DijkstraBegun] + Finishes(order, cost) + [DijkstraOver(path)]
    ensures ListsFinishes(order, cost, events)
  {
    FinishesIndex(order, cost);
    forall k | 0 <= k < |order|
      ensures events[k + 1] == Finished(order[k], cost[order[k]])
    {
      FinishedEventAt(order, cost, path, events, k + 1);
    }
  }

  lemma ReportedShortest<V(!new)>(g: Graph<V>, s: V, order: seq<V>, cost: map<V, nat>, events: seq<Event<V>>)
    requires |order| == |g| && ListsFinishes(order, cost, events)
    requires forall i | 0 <= i < |order| :: order[i] in g && order[i] in cost
    requires forall i | 0 <= i < |order| :: IsShortest(g, s, order[i], cost[order[i]])
    ensures forall i | 1 <= i <= |g| ::
              events[i].Finished? && events[i].vertex in g
              && IsShortest(g, s, events[i].vertex, events[i].cost)
  {
    forall i | 1 <= i <= |g|
      ensures events[i].Finished? && events[i].vertex in g
              && IsShortest(g, s, events[i].vertex, events[i].cost)
    {
      assert events[i] == Finished(order[i - 1], cost[order[i - 1]]);
    }
  }

  lemma ReportedInOrder<V>(g: Graph<V>, order: seq<V>, cost: map<V, nat>, events: seq<Event<V>>)
    requires |order| == |g| && ListsFinishes(order, cost, events)
    requires forall i | 0 <= i < |order| :: order[i] in cost
    requires forall i, j | 0 <= i < j < |order| :: order[i] != order[j] && cost[order[i]] <= cost[order[j]]
    ensures forall i, j | 1 <= i < j <= |g| ::
              events[i].Finished? && events[j].Finished?
              && events[i].vertex != events[j].vertex && events[i].cost <= events[j].cost
  {
    forall i, j | 1 <= i < j <= |g|
      ensures events[i].Finished? && events[j].Finished?
              && events[i].vertex != events[j].vertex && events[i].cost <= events[j].cost
    {
      assert events[i] == Finished(order[i - 1], cost[order[i - 1]]);
      assert events[j] == Finished(order[j - 1], cost[order[j - 1]]);
    }
  }

  lemma ReportedEveryVertex<V>(g: Graph<V>, order: seq<V>, rank: map<V, nat>, cost: map<V, nat>,
                               events: seq<Event<V>>)
    requires |order| == |g| && ListsFinishes(order, cost, events)
    requires forall v | v in g :: v in rank && rank[v] < |order| && order[rank[v]] == v
    ensures forall v | v in g :: exists i | 1 <= i <= |g| :: events[i].Finished? && events[i].vertex == v
  {
    forall v | v in g
      ensures exists i | 1 <= i <= |g| :: events[i].Finished? && events[i].vertex == v
    {
      assert events[rank[v] + 1] == Finished(v, cost[v]);
    }
  }

  lemma ReportedPath<V(!new)>(g: Graph<V>, s: V, end: V, order: seq<V>, rank: map<V, nat>,
                              cost: map<V, nat>, path: seq<V>, events: seq<Event<V>>)
    requires |order| == |g| && ListsFinishes(order, cost, events)
    requires forall i | 0 <= i < |order| :: IsShortest(g, s, order[i], cost[order[i]])
    requires end in g && end in rank && rank[end] < |order| && order[rank[end]] == end
    requires PathFrom(g, path, s, end) && PathWeight(g, path) == cost[end]
    ensures IsShortest(g, s, end, PathWeight(g, path))
    ensures exists i | 1 <= i <= |g| :: events[i] == Finished(end, PathWeight(g, path))
  {
    assert events[rank[end] + 1] == Finished(end, PathWeight(g, path));
  }

  /** The reported costs do not depend on how ties are broken: two runs from `s` report the
      same cost for the same vertex, whatever order the hash maps give. */
  lemma ReportedCostsAgree<V(!new)>(g: Graph<V>, s: V, end: V, events: seq<Event<V>>, events': seq<Event<V>>,
                                    i: nat, j: nat)
    requires DijkstraNotices(g, s, end, events) && DijkstraNotices(g, s, end, events')
    requires 1 <= i <= |g| && 1 <= j <= |g| && events[i].vertex == events'[j].vertex
    ensures events[i].Finished? && events'[j].Finished? && events[i].cost == events'[j].cost
  {
    ShortestIsUnique(g, s, events[i].vertex, events[i].cost, events'[j].cost);
  }

  /** `s` is finished first, with cost 0: every other vertex has a predecessor finished
      before it. */
  lemma ReportedStartFirst<V(!new)>(g: Graph<V>, s: V, order: seq<V>, rank: map<V, nat>,
                                    cost: map<V, nat>, pred: map<V, Option<V>>, events: seq<Event<V>>)
    requires |order| == |g| && ListsFinishes(order, cost, events)
    requires Tables(g, s, cost, pred) && rank.Keys == g.Keys
    requires forall i | 0 <= i < |order| :: order[i] in g && rank[order[i]] == i
    requires PredecessorsValid(g, s, g.Keys, rank, cost, pred)
    requires forall v | v in g :: cost[v] < Unreached
    requires |g| > 0
    ensures events[1] == Finished(s, 0)
  {
    forall v | v in g && v != s
      ensures rank[v] > 0
    {
      assert pred[v].Some? && rank[pred[v].value] < rank[v];
    }
    assert rank[order[0]] == 0;
  }

  /** Every vertex finished after `s` follows the predecessor it was reached from. */
  lemma ReportedPredecessors<V(!new)>(g: Graph<V>, s: V, order: seq<V>, rank: map<V, nat>,
                                      cost: map<V, nat>, pred: map<V, Option<V>>, events: seq<Event<V>>)
    requires |order| == |g| && ListsFinishes(order, cost, events)
    requires Tables(g, s, cost, pred) && rank.Keys == g.Keys
    requires forall i | 0 <= i < |order| :: order[i] in g && rank[order[i]] == i
    requires forall v | v in g :: rank[v] < |order| && order[rank[v]] == v
    requires PredecessorsValid(g, s, g.Keys, rank, cost, pred)
    requires forall v | v in g :: cost[v] < Unreached
    requires |g| > 0 ==> events[1] == Finished(s, 0)
    ensures forall i | 2 <= i <= |g| :: FinishedAfterPredecessor(g, events, i)
  {
    forall i | 2 <= i <= |g|
      ensures FinishedAfterPredecessor(g, events, i)
    {
      var v := order[i - 1];
      assert order[0] == s;
      assert v != s;
      var u := pred[v].value;
      PredecessorEvent(g, order, cost, events, u, v, rank[u] + 1, i);
    }
  }

  /** A vertex finished after one of its in-neighbours whose cost plus the edge is its own. */
  lemma PredecessorEvent<V>(g: Graph<V>, order: seq<V>, cost: map<V, nat>, events: seq<Event<V>>,
                            u: V, v: V, j: nat, i: nat)
    requires ListsFinishes(order, cost, events)
    requires 1 <= j < i <= |order| && order[j - 1] == u && order[i - 1] == v
    requires Edge(g, u, v) && cost[v] == cost[u] + g[u][v]
    ensures FinishedAfterPredecessor(g, events, i)
  {
    assert events[j] == Finished(u, cost[u]) && events[i] == Finished(v, cost[v]);
  }

  /** The finishing order and the costs give the `Finished` notifications of a correct run. */
  lemma ReportedFinishes<V(!new)>(g: Graph<V>, s: V, order: seq<V>, rank: map<V, nat>,
                                  cost: map<V, nat>, pred: map<V, Option<V>>, events: seq<Event<V>>)
    requires ShortestOrder(g, s, order, rank, cost) && ListsFinishes(order, cost, events)
    requires Tables(g, s, cost, pred) && rank.Keys == g.Keys
    requires PredecessorsValid(g, s, g.Keys, rank, cost, pred)
    ensures |events| == |g| + 2 && FinishNotices(g, s, events)
  {
    ReportedShortest(g, s, order, cost, events);
    ReportedInOrder(g, order, cost, events);
    ReportedEveryVertex(g, order, rank, cost, events);
    if |g| > 0 {
      ReportedStartFirst(g, s, order, rank, cost, pred, events);
    }
    ReportedPredecessors(g, s, order, rank, cost, pred, events);
  }

  /** The finalisation order, the costs and the traced path make up a correct run. */
  lemma DijkstraReport<V(!new)>(g: Graph<V>, s: V, end: V, order: seq<V>, rank: map<V, nat>,
                                cost: map<V, nat>, pred: map<V, Option<V>>, path: seq<V>,
                                events: seq<Event<V>>)
    requires ShortestOrder(g, s, order, rank, cost)
    requires Tables(g, s, cost, pred) && rank.Keys == g.Keys
    requires PredecessorsValid(g, s, g.Keys, rank, cost, pred)
    requires end in g ==> PathFrom(g, path, s, end) && PathWeight(g, path) == cost[end]
    requires end in g ==> NoDuplicates(path)
    requires end !in g ==> path == [end]
    requires events == [DijkstraBegun] + Finishes(order, cost) + [DijkstraOver(path)]
    ensures DijkstraNotices(g, s, end, events)
  {
    ListsFinishesOfRun(order, cost, path, events);
    ReportedFinishes(g, s, order, rank, cost, pred, events);
    if end in g {
      ReportedPath(g, s, end, order, rank, cost, path, events);
    }
  }
}
