/** Invariants and steps of the two graph searches: the queue frontier of the breadth-first
    search and the per-frame outcome of the depth-first search. */
module Searches {
  import opened GraphTheory
  import opened Notifications

  /** The neighbour loop of one breadth-first step: queue every neighbour of `val` that is not
      yet visited, in the map's own (unspecified) order. `start` is where the search began. */
  method EnqueueUnvisited<V(!new)>(g: Graph<V>, val: V, vSet: seq<V>, discovered: seq<V>, ghost start: V)
    returns (queue: seq<V>)
    requires Closed(g) && val in g && Reachable(g, start, val)
    requires forall v | v in discovered :: v in g && Reachable(g, start, v)
    ensures |discovered| <= |queue| && queue[..|discovered|] == discovered
    ensures forall v | v in queue :: v in g && Reachable(g, start, v)
    ensures forall n | n in g[val] :: n in vSet || n in queue
    ensures forall v | v in queue[|discovered|..] :: v in g[val] && v !in vSet
    ensures forall n | n in g[val] && n !in vSet :: n in queue[|discovered|..]
    ensures NoDuplicates(queue[|discovered|..])
  {
    queue := discovered;
    var rest := g[val].Keys;
    while rest != {}
      invariant rest <= g[val].Keys
      invariant |discovered| <= |queue| && queue[..|discovered|] == discovered
      invariant forall v | v in queue :: v in g && Reachable(g, start, v)
      invariant forall v | v in queue[|discovered|..] :: v in g[val] && v !in vSet && v !in rest
      invariant forall n | n in g[val] && n !in rest && n !in vSet :: n in queue[|discovered|..]
      invariant NoDuplicates(queue[|discovered|..])
      decreases |rest|
    {
      var adjacency :| adjacency in rest;
      rest := rest - {adjacency};
      if !(adjacency in vSet) {
        ReachableStep(g, start, val, adjacency);
        assert queue[|discovered|..] + [adjacency] == (queue + [adjacency])[|discovered|..];
        NoDuplicatesAppend(queue[|discovered|..], adjacency);
        queue := queue + [adjacency];
      }
    }
  }

  /** Every edge out of a visited vertex leads to a visited or a queued vertex. */
  predicate Frontier<V>(g: Graph<V>, vSet: seq<V>, discovered: seq<V>) {
    forall v, n | v in vSet && v in g && n in g[v] :: n in vSet || n in discovered
  }

  /** The state of the breadth-first loop: every queued and visited vertex is reachable from
      `start`, `start` is visited first (or is the only queued vertex before any visit), no
      vertex is visited twice, and the queue covers the frontier. */
  ghost predicate BreadthFirst<V(!new)>(g: Graph<V>, start: V, vSet: seq<V>, discovered: seq<V>) {
    && (forall v | v in discovered :: v in g && Reachable(g, start, v))
    && (forall v | v in vSet :: v in g && Reachable(g, start, v))
    && NoDuplicates(vSet)
    && (vSet == [] ==> discovered == [start])
    && (vSet != [] ==> vSet[0] == start)
    && Frontier(g, vSet, discovered)
  }

  lemma BreadthFirstStart<V(!new)>(g: Graph<V>, start: V)
    requires start in g
    ensures BreadthFirst(g, start, [], [start])
  {
    ReachableSelf(g, start);
  }

  /** Dequeuing a vertex that is already visited keeps the loop state. */
  lemma BreadthFirstPop<V(!new)>(g: Graph<V>, start: V, vSet: seq<V>, queued: seq<V>)
    requires BreadthFirst(g, start, vSet, queued)
    requires |queued| > 0 && queued[0] in vSet
    ensures BreadthFirst(g, start, vSet, queued[1..])
  {
    forall v, n | v in vSet && v in g && n in g[v] && n !in vSet
      ensures n in queued[1..]
    {
      assert n in queued && n != queued[0];
    }
  }

  /** Visiting the dequeued vertex and queuing its unvisited neighbours keeps the loop state. */
  lemma BreadthFirstVisit<V(!new)>(g: Graph<V>, start: V, vSet: seq<V>, queued: seq<V>, queue: seq<V>)
    requires BreadthFirst(g, start, vSet, queued)
    requires |queued| > 0 && queued[0] !in vSet
    requires |queued| - 1 <= |queue| && queue[..|queued| - 1] == queued[1..]
    requires forall v | v in queue :: v in g && Reachable(g, start, v)
    requires forall n | n in g[queued[0]] :: n in vSet + [queued[0]] || n in queue
    ensures BreadthFirst(g, start, vSet + [queued[0]], queue)
  {
    var val := queued[0];
    NoDuplicatesAppend(vSet, val);
    forall v, n | v in vSet + [val] && v in g && n in g[v] && n !in vSet + [val]
      ensures n in queue
    {
      if v != val {
        assert n in queued && n != val;
        assert n in queue[..|queued| - 1];
      }
    }
  }

  /** When the queue runs dry, every vertex reachable from `start` has been visited. */
  lemma BreadthFirstDone<V(!new)>(g: Graph<V>, start: V, vSet: seq<V>)
    requires BreadthFirst(g, start, vSet, [])
    ensures |vSet| > 0
    ensures forall t | Reachable(g, start, t) :: t in vSet
  {
    forall t | Reachable(g, start, t)
      ensures t in vSet
    {
      ClosedSetHoldsReachable(g, Elems(vSet), start, t);
    }
  }

  /** What the breadth-first search guarantees when it stops, either because it visited
      `end` (`found`) or because the queue ran dry. */
  lemma BreadthFirstOutcome<V(!new)>(g: Graph<V>, start: V, end: V, vSet: seq<V>, discovered: seq<V>,
                                     events: seq<Event<V>>, found: bool)
    requires BreadthFirst(g, start, vSet, discovered)
    requires found ==> end in vSet && vSet[|vSet| - 1] == end
                       && events == [BFSBegun] + Visits(vSet) + [SearchOver]
    requires !found ==> end !in vSet && discovered == [] && events == [BFSBegun] + Visits(vSet)
    ensures events == [BFSBegun] + Visits(vSet) + (if end in vSet then [SearchOver] else [])
    ensures |events| >= 2 && events[0] == BFSBegun
    ensures events[|events| - 1] == SearchOver <==> Reachable(g, start, end)
    ensures |vSet| > 0 && vSet[0] == start
    ensures NoDuplicates(vSet)
    ensures forall v | v in vSet :: Reachable(g, start, v)
    ensures end in vSet ==> vSet[|vSet| - 1] == end
    ensures end !in vSet ==> forall v | Reachable(g, start, v) :: v in vSet
    ensures end in vSet <==> Reachable(g, start, end)
  {
    if !found {
      BreadthFirstDone(g, start, vSet);
    }
  }

  /** Every edge out of a vertex of `vs` leads into `within`. */
  predicate ClosedOver<V>(g: Graph<V>, vs: seq<V>, within: seq<V>) {
    forall v, n | v in vs && v in g && n in g[v] :: n in within
  }

  lemma ClosedOverJoin<V>(g: Graph<V>, a: seq<V>, b: seq<V>, w1: seq<V>, w2: seq<V>)
    requires ClosedOver(g, a, w1) && ClosedOver(g, b, w2)
    requires forall x | x in w1 :: x in w2
    ensures ClosedOver(g, a + b, w2)
  {
  }

  /** The visits of `vs` from index `from` on are in depth-first order: each of them, after
      the first, is a neighbour of the latest earlier visit of the frame that still had an
      unvisited neighbour (`DepthFirstParent`). */
  ghost predicate DepthFirstOrder<V>(g: Graph<V>, vs: seq<V>, from: nat) {
    forall i | from < i < |vs| :: HasDepthFirstParent(g, vs, from, i)
  }

  ghost predicate HasDepthFirstParent<V>(g: Graph<V>, vs: seq<V>, from: nat, i: nat)
    requires i < |vs|
  {
    exists j | from <= j < i :: DepthFirstParent(g, vs, j, i)
  }

  /** `vs[i]` is a neighbour of `vs[j]`, and every vertex visited between the two already had
      all of its neighbours visited when `vs[i]` was. */
  predicate DepthFirstParent<V>(g: Graph<V>, vs: seq<V>, j: nat, i: nat)
    requires j < i < |vs|
  {
    vs[j] in g && vs[i] in g[vs[j]] && ClosedOver(g, vs[j + 1..i], vs[..i])
  }

  /** A frame that has just visited `start` (so that `newly` is `[start]`) is in depth-first order. */
  lemma DepthFirstStart<V>(g: Graph<V>, pre: seq<V>, start: V)
    ensures DepthFirstOrder(g, pre + [start], |pre|)
  {
  }

  /** A nested frame started at a neighbour of the frame's own vertex, after every earlier
      nested frame closed what it visited, keeps the frame in depth-first order. */
  lemma DepthFirstAfterChild<V>(g: Graph<V>, pre: seq<V>, newly: seq<V>, childNew: seq<V>)
    requires |newly| > 0 && newly[0] in g
    requires DepthFirstOrder(g, pre + newly, |pre|)
    requires ClosedOver(g, newly[1..], pre + newly)
    requires childNew != [] ==> childNew[0] in g[newly[0]]
    requires DepthFirstOrder(g, pre + newly + childNew, |pre + newly|)
    ensures DepthFirstOrder(g, pre + newly + childNew, |pre|)
    ensures childNew != [] ==> DepthFirstParent(g, pre + newly + childNew, |pre|, |pre + newly|)
  {
    var a, all := pre + newly, pre + newly + childNew;
    forall i | |pre| < i < |all|
      ensures HasDepthFirstParent(g, all, |pre|, i)
    {
      if i < |a| {
        assert HasDepthFirstParent(g, a, |pre|, i);
        var j :| |pre| <= j < i && DepthFirstParent(g, a, j, i);
        assert all[j + 1..i] == a[j + 1..i] && all[..i] == a[..i];
        assert DepthFirstParent(g, all, j, i);
      } else if i == |a| {
        assert all[|pre| + 1..i] == newly[1..] && all[..i] == a;
        assert DepthFirstParent(g, all, |pre|, i);
      } else {
        assert HasDepthFirstParent(g, all, |a|, i);
        var j :| |a| <= j < i && DepthFirstParent(g, all, j, i);
      }
    }
    if childNew != [] {
      assert all[|pre| + 1..|a|] == newly[1..] && all[..|a|] == a;
    }
  }

  /** Without repeated visits, no visit between a depth-first parent and its child is also a
      parent of that child: it lies in the closed stretch, so it has no unvisited neighbour left. */
  lemma ParentIsLatest<V>(g: Graph<V>, vs: seq<V>, j: nat, i: nat)
    requires NoDuplicates(vs) && j < i < |vs| && DepthFirstParent(g, vs, j, i)
    ensures forall k | j < k < i :: !DepthFirstParent(g, vs, k, i)
  {
    forall k | j < k < i
      ensures !DepthFirstParent(g, vs, k, i)
    {
      assert vs[k] in vs[j + 1..i];
      assert forall m | 0 <= m < i :: vs[..i][m] != vs[i];
      assert vs[i] !in vs[..i];
    }
  }

  /** Without repeated visits a visit has one depth-first parent. */
  lemma DepthFirstParentUnique<V>(g: Graph<V>, vs: seq<V>, j: nat, j': nat, i: nat)
    requires NoDuplicates(vs) && j < i < |vs| && j' < i
    requires DepthFirstParent(g, vs, j, i) && DepthFirstParent(g, vs, j', i)
    ensures j == j'
  {
    ParentIsLatest(g, vs, j, i);
    ParentIsLatest(g, vs, j', i);
  }

  /** The depth-first parent of the visit at index `i`. */
  ghost function ParentIndex<V>(g: Graph<V>, vs: seq<V>, from: nat, i: nat): (j: nat)
    requires DepthFirstOrder(g, vs, from) && from < i < |vs|
    ensures from <= j < i && DepthFirstParent(g, vs, j, i)
  {
    assert HasDepthFirstParent(g, vs, from, i);
    var j :| from <= j < i && DepthFirstParent(g, vs, j, i); j
  }

  /** The number of depth-first tree edges from the visit at index `i` up to the frame's first
      visit at index `from`: how many frames below the frame of `vs[from]` were open when
      `vs[i]` was visited. */
  ghost function TreeDepth<V>(g: Graph<V>, vs: seq<V>, from: nat, i: nat): nat
    requires DepthFirstOrder(g, vs, from) && from <= i < |vs|
    decreases i
  {
    if i == from then 0 else 1 + TreeDepth(g, vs, from, ParentIndex(g, vs, from, i))
  }

  /** The number of `SearchOver` notifications a frame whose visits (from index `from` of `vs`)
      end with `end` sends: one from every frame of a proper ancestor of `end`, after the nested
      call that visited `end` returns, and one from the frame of `end` itself when `end` still has
      an unvisited neighbour, whose nested call returns at once. */
  ghost function SearchOversDue<V>(g: Graph<V>, vs: seq<V>, from: nat): nat
    requires DepthFirstOrder(g, vs, from) && from < |vs|
  {
    var end := vs[|vs| - 1];
    TreeDepth(g, vs, from, |vs| - 1) + if end in g && exists n | n in g[end] :: n !in vs then 1 else 0
  }

  /** Seen from the parent frame, every visit of a nested frame lies one tree edge deeper. */
  lemma {:induction false} TreeDepthThroughChild<V>(g: Graph<V>, vs: seq<V>, p: nat, c: nat, i: nat)
    requires NoDuplicates(vs) && p < c <= i < |vs|
    requires DepthFirstOrder(g, vs, p) && DepthFirstOrder(g, vs, c)
    requires DepthFirstParent(g, vs, p, c)
    ensures TreeDepth(g, vs, p, i) == TreeDepth(g, vs, c, i) + 1
    decreases i
  {
    if i == c {
      DepthFirstParentUnique(g, vs, p, ParentIndex(g, vs, p, c), c);
    } else {
      var j := ParentIndex(g, vs, c, i);
      DepthFirstParentUnique(g, vs, j, ParentIndex(g, vs, p, i), i);
      TreeDepthThroughChild(g, vs, p, c, j);
    }
  }

  /** On the graph 1 -> 2, a search from 1 that visits 2 is told once that it is over: the
      frame of 1 sends it, and the frame of 2 has no neighbour to try. */
  lemma OneEdgeOneSearchOver()
    ensures var g: Graph<int> := map[1 := map[2 := 1], 2 := map[]];
            DepthFirstOrder(g, [1, 2], 0) && SearchOversDue(g, [1, 2], 0) == 1
  {
    var g: Graph<int> := map[1 := map[2 := 1], 2 := map[]];
    var vs := [1, 2];
    assert vs[1..1] == [] && DepthFirstParent(g, vs, 0, 1);
    assert HasDepthFirstParent(g, vs, 0, 1);
    DepthFirstParentUnique(g, vs, 0, ParentIndex(g, vs, 0, 1), 1);
    assert TreeDepth(g, vs, 0, 1) == 1;
  }

  /** Depth-first order is stronger than a search order: on the graph 1 -> 2, 1 -> 3, 2 -> 4
      (with 5 isolated), the level order 1, 2, 3, 4 is not depth-first, because 3 is visited
      while 2 still has the unvisited neighbour 4. */
  lemma LevelOrderIsNotDepthFirst()
    ensures var g: Graph<int> := map[1 := map[2 := 1, 3 := 1], 2 := map[4 := 1], 3 := map[], 4 := map[], 5 := map[]];
            !DepthFirstOrder(g, [1, 2, 3, 4], 0)
  {
    var g: Graph<int> := map[1 := map[2 := 1, 3 := 1], 2 := map[4 := 1], 3 := map[], 4 := map[], 5 := map[]];
    var vs := [1, 2, 3, 4];
    forall j | 0 <= j < 2
      ensures !DepthFirstParent(g, vs, j, 2)
    {
      if j == 0 {
        assert vs[1..2] == [2] && vs[..2] == [1, 2];
        assert 4 in g[2] && 4 !in vs[..2];
      } else {
        assert 3 !in g[2];
      }
    }
    assert !HasDepthFirstParent(g, vs, 0, 2);
  }

  lemma TailOfAppend<V>(a: seq<V>, b: seq<V>)
    requires |a| > 0
    ensures (a + b)[0] == a[0] && (a + b)[1..] == a[1..] + b
  {
  }

  /** What one depth-first frame started at `start`, with `visitedSet` visited before it,
      leaves behind: it visited `newly` (reachable from `root`, without repeats, `start`
      first and `end` last when found), closed under edges when `end` was not found, and
      notified the visits of `newly` followed by one `SearchOver` per frame that saw `end`
      visited after a nested call: exactly `SearchOversDue`, at most one per visited vertex,
      none unless `end` was found here, and, when `start` is `end`, only if `start` has a
      neighbour still unvisited. The visits of `newly` are in depth-first order. */
  ghost predicate Explored<V(!new)>(g: Graph<V>, root: V, start: V, end: V, visitedSet: seq<V>,
                                    events: seq<Event<V>>, newly: seq<V>)
    requires start in g
  {
    && NoDuplicates(visitedSet + newly)
    && (forall v | v in newly :: v in g && Reachable(g, root, v))
    && (end in visitedSet ==> newly == [] && events == [])
    && (end !in visitedSet ==> |newly| > 0 && newly[0] == start)
    && (end in newly ==> newly[|newly| - 1] == end)
    && (end !in visitedSet + newly ==> ClosedOver(g, newly, visitedSet + newly))
    && DepthFirstOrder(g, visitedSet + newly, |visitedSet|)
    && VisitsThenOvers(events, newly)
    && |events| - |newly| <= |newly|
    && (|events| > |newly| <==>
          end in newly && (start != end || exists n | n in g[start] :: n !in visitedSet && n != start))
    && (end in newly ==> |events| - |newly| == SearchOversDue(g, visitedSet + newly, |visitedSet|))
  }

  /** The state of a depth-first frame inside its neighbour loop: `start` is visited first,
      the neighbours of `start` outside `rest` are visited, the nested frames closed everything
      they visited, and the frame's visits are in depth-first order. `end` is only visited
      here when it is `start` and no nested frame ran. */
  ghost predicate Exploring<V(!new)>(g: Graph<V>, root: V, start: V, end: V, visitedSet: seq<V>,
                                     newly: seq<V>, rest: set<V>)
    requires start in g
  {
    && rest <= g[start].Keys && end !in visitedSet
    && |newly| > 0 && newly[0] == start
    && NoDuplicates(visitedSet + newly)
    && (forall v | v in newly :: v in g && Reachable(g, root, v))
    && (end in visitedSet + newly ==> end == start && newly == [start])
    && (forall n | n in g[start] && n !in rest :: n in visitedSet + newly)
    && ClosedOver(g, newly[1..], visitedSet + newly)
    && DepthFirstOrder(g, visitedSet + newly, |visitedSet|)
  }

  /** A frame that finds `end` already visited does nothing. */
  lemma ExploredSkip<V(!new)>(g: Graph<V>, root: V, start: V, end: V, visitedSet: seq<V>)
    requires start in g && NoDuplicates(visitedSet) && end in visitedSet
    ensures Explored(g, root, start, end, visitedSet, [], [])
  {
    VisitsOnly<V>([]);
    assert visitedSet + [] == visitedSet;
  }

  /** Visiting `start` opens the neighbour loop. */
  lemma StartExploring<V(!new)>(g: Graph<V>, root: V, start: V, end: V, visitedSet: seq<V>)
    requires start in g && start !in visitedSet && end !in visitedSet
    requires NoDuplicates(visitedSet) && Reachable(g, root, start)
    ensures Exploring(g, root, start, end, visitedSet, [start], g[start].Keys)
  {
    NoDuplicatesAppend(visitedSet, start);
    DepthFirstStart(g, visitedSet, start);
  }

  /** Skipping a neighbour that is already visited keeps the loop state. */
  lemma ExploringSkipNeighbour<V(!new)>(g: Graph<V>, root: V, start: V, end: V, visitedSet: seq<V>,
                                        newly: seq<V>, rest: set<V>, adjacency: V)
    requires start in g && Exploring(g, root, start, end, visitedSet, newly, rest)
    requires adjacency in rest && adjacency in visitedSet + newly
    ensures Exploring(g, root, start, end, visitedSet, newly, rest - {adjacency})
  {
  }

  /** A nested frame that did not find `end` extends the loop state with what it visited. */
  lemma ExploringAfterChild<V(!new)>(g: Graph<V>, root: V, start: V, end: V, visitedSet: seq<V>,
                                     newly: seq<V>, rest: set<V>, adjacency: V,
                                     notified: seq<Event<V>>, childNew: seq<V>)
    requires start in g && Exploring(g, root, start, end, visitedSet, newly, rest)
    requires adjacency in rest && adjacency in g
    requires Explored(g, root, adjacency, end, visitedSet + newly, notified, childNew)
    requires end !in visitedSet + newly + childNew
    ensures Exploring(g, root, start, end, visitedSet, newly + childNew, rest - {adjacency})
    ensures Visits(newly) + notified == Visits(newly + childNew)
  {
    var all := visitedSet + (newly + childNew);
    assert visitedSet + newly + childNew == all;
    ChildRunNoOver(newly, childNew, notified);
    TailOfAppend(newly, childNew);
    ClosedOverJoin(g, newly[1..], childNew, visitedSet + newly, all);
    DepthFirstAfterChild(g, visitedSet, newly, childNew);
  }

  /** A nested frame that left `end` visited ends the loop with one more `SearchOver`. */
  lemma ExploredAfterBreak<V(!new)>(g: Graph<V>, root: V, start: V, end: V, visitedSet: seq<V>,
                                    newly: seq<V>, rest: set<V>, adjacency: V,
                                    notified: seq<Event<V>>, childNew: seq<V>)
    requires start in g && Exploring(g, root, start, end, visitedSet, newly, rest)
    requires adjacency in rest && adjacency in g && adjacency !in visitedSet + newly
    requires Explored(g, root, adjacency, end, visitedSet + newly, notified, childNew)
    requires end in visitedSet + newly + childNew
    ensures Explored(g, root, start, end, visitedSet, Visits(newly) + notified + [SearchOver],
                     newly + childNew)
  {
    var all := visitedSet + (newly + childNew);
    assert visitedSet + newly + childNew == all;
    ChildRunThenOver(newly, childNew, notified);
    TailOfAppend(newly, childNew);
    DepthFirstAfterChild(g, visitedSet, newly, childNew);
    if start == end {
      assert adjacency in g[start] && adjacency !in visitedSet && adjacency != start;
    }
    if end in childNew {
      SearchOversAfterChild(g, visitedSet, newly, childNew);
    } else {
      assert childNew == [] && notified == [] && all == visitedSet + newly;
      assert adjacency in g[end] && adjacency !in all;
    }
  }

  /** The frame that called the nested frame which visited `end` sends one `SearchOver` more
      than that nested frame: `end` lies one tree edge deeper below it. */
  lemma SearchOversAfterChild<V>(g: Graph<V>, pre: seq<V>, newly: seq<V>, childNew: seq<V>)
    requires NoDuplicates(pre + newly + childNew) && |newly| > 0 && childNew != []
    requires DepthFirstOrder(g, pre + newly + childNew, |pre|)
    requires DepthFirstOrder(g, pre + newly + childNew, |pre + newly|)
    requires DepthFirstParent(g, pre + newly + childNew, |pre|, |pre + newly|)
    ensures SearchOversDue(g, pre + newly + childNew, |pre|)
            == SearchOversDue(g, pre + newly + childNew, |pre + newly|) + 1
  {
    var all := pre + newly + childNew;
    TreeDepthThroughChild(g, all, |pre|, |pre + newly|, |all| - 1);
  }

  /** A loop that ran out of neighbours ends the frame with its visits only. */
  lemma ExploredAtExit<V(!new)>(g: Graph<V>, root: V, start: V, end: V, visitedSet: seq<V>,
                                newly: seq<V>)
    requires start in g && Exploring(g, root, start, end, visitedSet, newly, {})
    ensures Explored(g, root, start, end, visitedSet, Visits(newly), newly)
  {
    VisitsOnly(newly);
    if end !in visitedSet + newly {
      ClosedOverJoin(g, [start], newly[1..], visitedSet + newly, visitedSet + newly);
      assert [start] + newly[1..] == newly;
    }
  }
}
