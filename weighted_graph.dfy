/** The generic directed weighted graph: its storage, its construction and query operations,
    and the three algorithms (breadth-first search, depth-first search, Dijkstra) that report
    their progress to the registered observers. */
module WeightedGraphs {
  import opened Wrappers
  import opened GraphTheory
  import opened Notifications
  import opened ShortestPaths
  import opened Searches
  import opened Dijkstra

  /** The graph. `wGraph` maps each vertex to its adjacency map (neighbour to weight);
      `observerList` holds the registered observers. Each algorithm returns the sequence of
      notifications that every registered observer receives, in order. */
  class WeightedGraph<V(==,!new)> {
    var wGraph: Graph<V>
    var observerList: set<object>

    /** Every edge joins two vertices of the graph; weights are non-negative by type. */
    ghost predicate Valid()
      reads this
    {
      Closed(wGraph)
    }

    /** An empty graph with no observers. */
    constructor ()
      ensures Valid()
      ensures wGraph == map[] && observerList == {}
    {
      wGraph := map[];
      observerList := {};
    }

    method AddObserver(observer: object)
      modifies this
      ensures observerList == old(observerList) + {observer}
      ensures wGraph == old(wGraph)
    {
      observerList := observerList + {observer};
    }

    /** Adds `vertex` with no outgoing edges, or throws if it is already present. */
    method AddVertex(vertex: V) returns (outcome: Outcome<()>)
      requires Valid()
      modifies this
      ensures Valid() && observerList == old(observerList)
      ensures outcome.Returned? <==> vertex !in old(wGraph)
      ensures outcome.Returned? ==> wGraph.Keys == old(wGraph).Keys + {vertex} && wGraph[vertex] == map[]
      ensures outcome.Returned? ==> forall v | v in old(wGraph) :: wGraph[v] == old(wGraph)[v]
      ensures outcome.IllegalArgument? ==> wGraph == old(wGraph)
      ensures forall a, b | a != vertex && b != vertex :: GetWeight(a, b) == old(GetWeight(a, b))
    {
      if !(vertex in wGraph) {
        wGraph := wGraph[vertex := map[]];
        outcome := Returned(());
      } else {
        outcome := IllegalArgument;
      }
    }

    function ContainsVertex(vertex: V): (b: bool)
      reads this
      ensures b <==> vertex in wGraph
    {
      vertex in wGraph
    }

    /** Inserts or overwrites the directed edge `from`->`to`; throws, changing nothing, when
        an endpoint is missing or the weight is negative. */
    method AddEdge(from: V, to: V, weight: int) returns (outcome: Outcome<()>)
      requires Valid()
      modifies this
      ensures Valid() && observerList == old(observerList)
      ensures outcome.Returned? <==> from in old(wGraph) && to in old(wGraph) && weight >= 0
      ensures outcome.IllegalArgument? ==> wGraph == old(wGraph)
      ensures wGraph.Keys == old(wGraph).Keys
      ensures outcome.Returned? ==> GetWeight(from, to) == Returned(Some(weight))
      ensures forall a, b | a != from || b != to :: GetWeight(a, b) == old(GetWeight(a, b))
    {
      if ContainsVertex(from) && ContainsVertex(to) && weight >= 0 {
        var adjacency: map<V, nat> := wGraph[from];
        adjacency := adjacency[to := weight];
        wGraph := wGraph[from := adjacency];
        outcome := Returned(());
      } else {
        outcome := IllegalArgument;
      }
    }

    /** The weight of the edge `from`->`to`, `None` (Java's `null`) when there is no such
        edge, and an exception when either vertex is missing. */
    function GetWeight(from: V, to: V): (r: Outcome<Option<nat>>)
      reads this
      ensures r.IllegalArgument? <==> from !in wGraph || to !in wGraph
      ensures r == Returned(None) <==> from in wGraph && to in wGraph && !Edge(wGraph, from, to)
      ensures forall w :: r == Returned(Some(w)) <==> to in wGraph && Edge(wGraph, from, to) && wGraph[from][to] == w
    {
      if ContainsVertex(from) && ContainsVertex(to) then
        Returned(if to in wGraph[from] then Some(wGraph[from][to]) else None)
      else
        IllegalArgument
    }

    /** Breadth-first search from `start`, stopping right after `end` is visited. A vertex
        may be queued more than once, but it is visited at most once. */
    method DoBFS(start: V, end: V) returns (events: seq<Event<V>>, ghost visited: seq<V>)
      requires Valid() && start in wGraph
      ensures events == [BFSBegun] + Visits(visited) + (if end in visited then [SearchOver] else [])
      ensures |events| >= 2 && events[0] == BFSBegun
      ensures events[|events| - 1] == SearchOver <==> Reachable(wGraph, start, end)
      ensures |visited| > 0 && visited[0] == start
      ensures NoDuplicates(visited)
      ensures forall v | v in visited :: Reachable(wGraph, start, v)
      ensures end in visited ==> visited[|visited| - 1] == end
      ensures end !in visited ==> forall v | Reachable(wGraph, start, v) :: v in visited
      ensures end in visited <==> Reachable(wGraph, start, end)
    {
      var g := wGraph;
      var discovered: seq<V> := [];
      var vSet: seq<V> := [];
      events := [BFSBegun];
      discovered := discovered + [start];
      BreadthFirstStart(g, start);
      ghost var found, unseen := false, g.Keys;
      while |discovered| != 0
        invariant !found && end !in vSet
        invariant BreadthFirst(g, start, vSet, discovered)
        invariant events == [BFSBegun] + Visits(vSet)
        invariant forall v | v in g && v !in vSet :: v in unseen
        decreases |unseen|, |discovered|
      {
        ghost var queued := discovered;
        var val := discovered[0];
        discovered := discovered[1..];
        if !(val in vSet) {
          NotifyVisit([BFSBegun], vSet, val);
          events := events + [Visit(val)];
          unseen := unseen - {val};
          discovered := EnqueueUnvisited(g, val, vSet + [val], discovered, start);
          BreadthFirstVisit(g, start, vSet, queued, discovered);
          vSet := vSet + [val];
        } else {
          BreadthFirstPop(g, start, vSet, queued);
        }
        if end in vSet {
          assert vSet[|vSet| - 1] == end;
          events := events + [SearchOver];
          found := true;
          break;
        }
      }
      visited := vSet;
      BreadthFirstOutcome(g, start, end, visited, discovered, events, found);
    }

    /** Depth-first search from `start`, stopping once `end` is visited. The frame of every
        proper ancestor of `end` in the depth-first tree reports the end of the search, and so
        does the frame of `end` itself when `end` still has an unvisited neighbour, so the number
        of `SearchOver` events after the last visit is `SearchOversDue`. */
    method DoDFS(start: V, end: V) returns (events: seq<Event<V>>, ghost visited: seq<V>)
      requires Valid() && start in wGraph
      ensures |events| > 0 && events[0] == DFSBegun
      ensures VisitsThenOvers(events[1..], visited)
      ensures |visited| > 0 && visited[0] == start
      ensures NoDuplicates(visited)
      ensures forall v | v in visited :: Reachable(wGraph, start, v)
      ensures end in visited ==> visited[|visited| - 1] == end
      ensures end !in visited ==> forall v | Reachable(wGraph, start, v) :: v in visited
      ensures end in visited <==> Reachable(wGraph, start, end)
      ensures DepthFirstOrder(wGraph, visited, 0)
      ensures end in visited ==> |events| - 1 - |visited| == SearchOversDue(wGraph, visited, 0)
      ensures |events| - 1 - |visited| <= |visited|
      ensures |events| - 1 > |visited| <==>
                end in visited && (start != end || exists n | n in wGraph[start] :: n != start)
    {
      var vSet: seq<V> := [];
      events := [DFSBegun];
      ReachableSelf(wGraph, start);
      var searched, notified, newly := DFSHelper(start, end, vSet, start);
      assert vSet + newly == newly;
      events := events + notified;
      visited := searched;
      if end !in visited {
        forall t | Reachable(wGraph, start, t)
          ensures t in visited
        {
          ClosedSetHoldsReachable(wGraph, Elems(visited), start, t);
        }
      }
    }

    /** One frame of the depth-first search: visit `start` unless `end` is already visited,
        then search from each neighbour not yet visited, stopping after the first call that
        leaves `end` visited. `visitedSet` is the shared visited list before the call,
        `searched` the list after it; `root` is where the whole search began. */
    method DFSHelper(start: V, end: V, visitedSet: seq<V>, ghost root: V)
      returns (searched: seq<V>, events: seq<Event<V>>, ghost newly: seq<V>)
      requires Valid() && start in wGraph && start !in visitedSet
      requires NoDuplicates(visitedSet)
      requires Reachable(wGraph, root, start)
      ensures searched == visitedSet + newly
      ensures |visitedSet| <= |searched| && searched[..|visitedSet|] == visitedSet
      ensures end in visitedSet ==> searched == visitedSet && events == []
      ensures Explored(wGraph, root, start, end, visitedSet, events, newly)
      decreases |wGraph.Keys - Elems(visitedSet)|
    {
      var g := wGraph;
      searched, events, newly := visitedSet, [], [];
      if !(end in searched) {
        events := [Visit(start)];
        searched := searched + [start];
        newly := [start];
        VisitsAppend<V>([], start);
        StartExploring(g, root, start, end, visitedSet);
        var rest := g[start].Keys;
        ghost var found := false;
        while rest != {}
          invariant !found
          invariant searched == visitedSet + newly && events == Visits(newly)
          invariant Exploring(g, root, start, end, visitedSet, newly, rest)
          decreases |rest|
        {
          var adjacency :| adjacency in rest;
          ghost var unvisited := rest;
          rest := rest - {adjacency};
          if !(adjacency in searched) {
            ReachableStep(g, root, start, adjacency);
            FewerUnvisited(g.Keys, Elems(visitedSet), Elems(searched), start);
            var child, notified, childNew := DFSHelper(adjacency, end, searched, root);
            AppendAssociates(visitedSet, newly, childNew);
            searched := child;
            if end in searched {
              ExploredAfterBreak(g, root, start, end, visitedSet, newly, unvisited, adjacency, notified, childNew);
              events := events + notified + [SearchOver];
              newly := newly + childNew;
              found := true;
              break;
            }
            ExploringAfterChild(g, root, start, end, visitedSet, newly, unvisited, adjacency, notified, childNew);
            events := events + notified;
            newly := newly + childNew;
          } else {
            ExploringSkipNeighbour(g, root, start, end, visitedSet, newly, unvisited, adjacency);
          }
        }
        if !found {
          ExploredAtExit(g, root, start, end, visitedSet, newly);
        }
      } else {
        ExploredSkip(g, root, start, end, visitedSet);
      }
    }

    /** Dijkstra's algorithm from `start` over the whole graph, then the reported path to
        `end`. Requires that every vertex has a path from `start` lighter than the sentinel
        cost; otherwise the source dereferences a null vertex. */
    method DoDijsktra(start: V, end: V) returns (events: seq<Event<V>>)
      requires Valid()
      requires forall v | v in wGraph :: ReachableWithin(wGraph, start, v, Unreached)
      ensures DijkstraNotices(wGraph, start, end, events)
    {
      var g := wGraph;
      var cost, pred, settled, order, rank := SettleAll(g, start);
      var fastPath := TracePredecessors(pred, end, g, start, order, rank, cost);
      events := settled + [DijkstraOver(fastPath)];
      DijkstraReport(g, start, end, order, rank, cost, pred, fastPath, events);
    }
  }
}
