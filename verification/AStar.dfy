/** `AStar::findPath` of water/componet/astar.h: best-first search with a fallback to the nearest
    position found. Neighbours, obstacles, step costs and the heuristic belong to the caller. */
module AStar {
  const INVALID_COST: int := -1

  datatype Grid<!P(==, !new)> = Grid(neighbours: P -> seq<P>, enterable: P -> bool, stepCost: (P, P) -> int, heuristic: (P, P) -> int)
  {
    predicate Steps(a: P, b: P) {
      exists i :: 0 <= i < |neighbours(a)| && neighbours(a)[i] == b && enterable(b)
    }

    // A walk that begins at `from`, which is not listed.
    predicate Walk(from: P, path: seq<P>) {
      path == [] || (Steps(from, path[0]) && Walk(path[0], path[1..]))
    }

    function End(from: P, path: seq<P>): P {
      if path == [] then from else path[|path| - 1]
    }

    function Cost(from: P, path: seq<P>): int {
      if path == [] then 0 else stepCost(from, path[0]) + Cost(path[0], path[1..])
    }

    ghost predicate Reaches(a: P, b: P) {
      exists path :: Walk(a, path) && End(a, path) == b
    }

    // A finite set that no step leaves, with no negative step cost in it.
    ghost predicate Bounds(universe: set<P>) {
      && (forall a, b :: a in universe && Steps(a, b) ==> b in universe)
      && (forall a, b :: a in universe && Steps(a, b) ==> stepCost(a, b) >= 0)
    }

    // Whatever contains a and is closed under steps contains all that a reaches.
    lemma {:induction false} ClosedHoldsWalk(s: set<P>, a: P, path: seq<P>)
      requires a in s && Walk(a, path) && forall p, q :: p in s && Steps(p, q) ==> q in s
      ensures End(a, path) in s
      decreases |path|
    {
      if path != [] {
        ClosedHoldsWalk(s, path[0], path[1..]);
      }
    }

    lemma {:induction false} WalkExtends(a: P, path: seq<P>, b: P)
      requires Walk(a, path) && Steps(End(a, path), b)
      ensures Walk(a, path + [b]) && End(a, path + [b]) == b
      ensures Cost(a, path + [b]) == Cost(a, path) + stepCost(End(a, path), b)
      decreases |path|
    {
      if path == [] {
        assert Walk(b, []);
      } else {
        WalkExtends(path[0], path[1..], b);
        assert (path + [b])[1..] == path[1..] + [b];
      }
    }
  }

  datatype PosAttr<P> = PosAttr(prev: P, cost: int)

  // What the search has recorded: every position found, other than the start, was entered by a
  // step from one found earlier, and its cost is that one's cost plus the step.
  ghost predicate Tree<P(!new)>(g: Grid<P>, start: P, searched: map<P, PosAttr<P>>, rank: map<P, nat>) {
    && searched.Keys == rank.Keys && start in searched && searched[start].cost == 0
    && forall p :: p in searched && p != start ==> Entered(g, searched, rank, p)
  }

  ghost predicate Entered<P(!new)>(g: Grid<P>, searched: map<P, PosAttr<P>>, rank: map<P, nat>, p: P)
    requires searched.Keys == rank.Keys && p in searched
  {
    var q := searched[p].prev;
    && q in searched && g.Steps(q, p) && rank[q] < rank[p]
    && searched[p].cost == searched[q].cost + g.stepCost(q, p)
  }

  // The way back from p along the recorded predecessors.
  ghost function Way<P(!new)>(g: Grid<P>, start: P, searched: map<P, PosAttr<P>>, rank: map<P, nat>, p: P): (path: seq<P>)
    requires Tree(g, start, searched, rank) && p in searched
    decreases rank[p]
  {
    if p == start then []
    else
      assert Entered(g, searched, rank, p);
      Way(g, start, searched, rank, searched[p].prev) + [p]
  }

  // It is a walk from the start to p without repetition, and the recorded cost is its cost.
  lemma {:induction false} WayLeads<P(!new)>(g: Grid<P>, start: P, searched: map<P, PosAttr<P>>, rank: map<P, nat>, p: P)
    requires Tree(g, start, searched, rank) && p in searched
    ensures var path := Way(g, start, searched, rank, p);
      && g.Walk(start, path) && g.End(start, path) == p && g.Cost(start, path) == searched[p].cost
      && (forall i :: 0 <= i < |path| ==> path[i] in searched && path[i] != start && rank[path[i]] <= rank[p])
      && (forall i, j :: 0 <= i < j < |path| ==> path[i] != path[j])
    decreases rank[p]
  {
    if p != start {
      assert Entered(g, searched, rank, p);
      var q := searched[p].prev;
      WayLeads(g, start, searched, rank, q);
      g.WalkExtends(start, Way(g, start, searched, rank, q), p);
    }
  }

  // ---------------------------------------------------------------- the state of a search

  // The positions found, in what order, which wait in the frontier, which are expanded, which is
  // being expanded, and the nearest one to the goal so far.
  datatype State<!P(==, !new)> = State(
    searched: map<P, PosAttr<P>>, rank: map<P, nat>, open: multiset<(int, P)>, done: set<P>, current: set<P>, nearest: (int, P))

  // The start is queued at 0, everything else at its cost plus what the heuristic still expects.
  function Key<P(==, !new)>(g: Grid<P>, start: P, goal: P, searched: map<P, PosAttr<P>>, p: P): int
    requires p in searched
  {
    if p == start then 0 else searched[p].cost + g.heuristic(p, goal)
  }

  ghost predicate Found<P(!new)>(g: Grid<P>, start: P, goal: P, universe: set<P>, s: State<P>) {
    Searching(g, start, goal, universe, s) && (Even(g, goal, universe) ==> InOrder(g, start, goal, s))
  }

  ghost predicate Searching<P(!new)>(g: Grid<P>, start: P, goal: P, universe: set<P>, s: State<P>) {
    && Tree(g, start, s.searched, s.rank) && s.searched.Keys <= universe
    && (forall p :: p in s.searched ==> s.searched[p].cost >= 0)
    && goal !in s.done && goal !in s.current
    && Queued(g, start, goal, s)
    && (forall p, q :: p in s.done && g.Steps(p, q) ==> q in s.searched)
    && Nearest(g, goal, s)
    && FromStart(g, start, s)
  }

  ghost predicate Queued<P(!new)>(g: Grid<P>, start: P, goal: P, s: State<P>) {
    && s.done <= s.searched.Keys && s.current <= s.searched.Keys
    && (forall it :: it in s.open ==> it.1 in s.searched && it.0 == Key(g, start, goal, s.searched, it.1))
    && (forall p :: p in s.searched ==>
          p in s.done || p in s.current || (Key(g, start, goal, s.searched, p), p) in s.open)
  }

  ghost predicate Nearest<P(!new)>(g: Grid<P>, goal: P, s: State<P>) {
    && s.nearest.1 in s.searched && s.nearest.0 == g.heuristic(s.nearest.1, goal)
    && forall p :: p in s.searched ==> s.nearest.0 <= g.heuristic(p, goal)
  }

  // The start is expanded first, so its own neighbours keep it as their predecessor.
  ghost predicate FromStart<P(!new)>(g: Grid<P>, start: P, s: State<P>) {
    && (start in s.done || start in s.current || s.searched.Keys == {start})
    && forall p :: p in s.searched && p != start && g.Steps(start, p) ==> s.searched[p].prev == start
  }

  // A caller can see to this beforehand: a step never costs less than the heuristic gains by it, and how
  // much more depends only on the position entered. A constant heuristic and costs that depend on the
  // position entered are a special case.
  ghost predicate Even<P(!new)>(g: Grid<P>, goal: P, universe: set<P>) {
    && (forall a, b, c :: a in universe && b in universe && g.Steps(a, c) && g.Steps(b, c) ==>
          g.stepCost(a, c) - g.heuristic(a, goal) == g.stepCost(b, c) - g.heuristic(b, goal))
    && (forall a, b :: a in universe && g.Steps(a, b) ==> g.heuristic(a, goal) <= g.stepCost(a, b) + g.heuristic(b, goal))
  }

  // What a walk over p is expected to cost.
  function Expected<P(==, !new)>(g: Grid<P>, goal: P, searched: map<P, PosAttr<P>>, p: P): int
    requires p in searched
  {
    searched[p].cost + g.heuristic(p, goal)
  }

  // Then positions are expanded in the order of what they are expected to cost, and the first way to one
  // is its cheapest.
  ghost predicate InOrder<P(!new)>(g: Grid<P>, start: P, goal: P, s: State<P>)
    requires s.done <= s.searched.Keys && s.current <= s.searched.Keys
  {
    ByCost(g, goal, s) && Relaxed(g, start, s) && OpenOnce(s)
  }

  ghost predicate ByCost<P(!new)>(g: Grid<P>, goal: P, s: State<P>)
    requires s.done <= s.searched.Keys && s.current <= s.searched.Keys
  {
    && (forall p, q :: p in s.done + s.current && q in s.searched && q !in s.done + s.current ==>
          Expected(g, goal, s.searched, p) <= Expected(g, goal, s.searched, q))
    && (forall p, q :: p in s.done && q in s.current ==>
          Expected(g, goal, s.searched, p) <= Expected(g, goal, s.searched, q))
  }

  ghost predicate Relaxed<P(!new)>(g: Grid<P>, start: P, s: State<P>)
    requires s.done <= s.searched.Keys
  {
    && (forall p, q :: p in s.done && g.Steps(p, q) ==>
          q in s.searched && s.searched[q].cost <= s.searched[p].cost + g.stepCost(p, q))
    && (forall q :: q in s.searched && q != start ==> s.searched[q].prev in s.done + s.current)
  }

  ghost predicate OpenOnce<P(!new)>(s: State<P>) {
    forall it :: it in s.open ==> s.open[it] == 1 && it.1 !in s.done + s.current
  }

  function Discovered<P(==, !new)>(g: Grid<P>, goal: P, s: State<P>, cur: P, next: P): State<P>
    requires cur in s.searched && cur in s.rank
  {
    var cost := s.searched[cur].cost + g.stepCost(cur, next);
    var h := g.heuristic(next, goal);
    s.(searched := s.searched[next := PosAttr(cur, cost)], rank := s.rank[next := s.rank[cur] + 1],
       open := s.open + multiset{(cost + h, next)}, nearest := if h < s.nearest.0 then (h, next) else s.nearest)
  }

  lemma DiscoveredFound<P(!new)>(g: Grid<P>, start: P, goal: P, universe: set<P>, s: State<P>, cur: P, next: P)
    requires g.Bounds(universe) && Found(g, start, goal, universe, s)
    requires s.current == {cur} && g.Steps(cur, next) && next !in s.searched
    ensures cur in s.searched && cur in s.rank
    ensures Found(g, start, goal, universe, Discovered(g, goal, s, cur, next))
  {
    DiscoveredSearching(g, start, goal, universe, s, cur, next);
    if Even(g, goal, universe) { DiscoveredInOrder(g, start, goal, universe, s, cur, next); }
    hide Searching, InOrder, Even, Discovered, Grid.Steps, Grid.Bounds;
  }

  lemma DiscoveredSearching<P(!new)>(g: Grid<P>, start: P, goal: P, universe: set<P>, s: State<P>, cur: P, next: P)
    requires g.Bounds(universe) && Found(g, start, goal, universe, s)
    requires s.current == {cur} && g.Steps(cur, next) && next !in s.searched
    ensures cur in s.searched && cur in s.rank
    ensures Searching(g, start, goal, universe, Discovered(g, goal, s, cur, next))
  {
    Known(g, start, goal, universe, s, cur, next);
    DiscoveredTree(g, start, goal, s, cur, next);
    DiscoveredQueued(g, start, goal, s, cur, next);
    DiscoveredNearest(g, start, goal, s, cur, next);
    hide Tree, Queued, Nearest, FromStart, InOrder, Even, Grid.Steps;
  }

  lemma DiscoveredInOrder<P(!new)>(g: Grid<P>, start: P, goal: P, universe: set<P>, s: State<P>, cur: P, next: P)
    requires g.Bounds(universe) && Found(g, start, goal, universe, s) && Even(g, goal, universe)
    requires s.current == {cur} && g.Steps(cur, next) && next !in s.searched
    requires cur in s.searched && cur in s.rank
    ensures Queued(g, start, goal, Discovered(g, goal, s, cur, next))
    ensures InOrder(g, start, goal, Discovered(g, goal, s, cur, next))
  {
    DiscoveredQueued(g, start, goal, s, cur, next);
    assert cur in universe && next in universe;
    assert g.heuristic(cur, goal) <= g.stepCost(cur, next) + g.heuristic(next, goal);
    DiscoveredByCost(g, goal, s, cur, next);
    DiscoveredRelaxed(g, start, goal, s, cur, next);
    DiscoveredOnce(g, start, goal, s, cur, next);
    hide Searching, ByCost, Relaxed, OpenOnce, Even, Grid.Steps, Grid.Bounds;
  }

  lemma DiscoveredByCost<P(!new)>(g: Grid<P>, goal: P, s: State<P>, cur: P, next: P)
    requires s.done <= s.searched.Keys && s.current == {cur} && cur in s.searched && cur in s.rank && next !in s.searched
    requires ByCost(g, goal, s) && g.heuristic(cur, goal) <= g.stepCost(cur, next) + g.heuristic(next, goal)
    ensures ByCost(g, goal, Discovered(g, goal, s, cur, next))
  {
  }

  lemma DiscoveredRelaxed<P(!new)>(g: Grid<P>, start: P, goal: P, s: State<P>, cur: P, next: P)
    requires s.done <= s.searched.Keys && s.current == {cur} && cur in s.searched && cur in s.rank && next !in s.searched
    requires Relaxed(g, start, s)
    ensures Relaxed(g, start, Discovered(g, goal, s, cur, next))
  {
    hide Grid.Steps;
  }

  lemma DiscoveredOnce<P(!new)>(g: Grid<P>, start: P, goal: P, s: State<P>, cur: P, next: P)
    requires Queued(g, start, goal, s) && s.current == {cur} && cur in s.searched && cur in s.rank && next !in s.searched
    requires OpenOnce(s)
    ensures OpenOnce(Discovered(g, goal, s, cur, next))
  {
    var t := Discovered(g, goal, s, cur, next);
    forall it | it in t.open ensures t.open[it] == 1 && it.1 !in t.done + t.current {
      if it.1 == next { assert it !in s.open; } else { assert it in s.open; }
    }
  }

  lemma DiscoveredNearest<P(!new)>(g: Grid<P>, start: P, goal: P, s: State<P>, cur: P, next: P)
    requires cur in s.searched && cur in s.rank && next !in s.searched && s.current == {cur} && g.Steps(cur, next)
    requires Nearest(g, goal, s) && FromStart(g, start, s)
    requires forall p, q :: p in s.done && g.Steps(p, q) ==> q in s.searched
    ensures Nearest(g, goal, Discovered(g, goal, s, cur, next)) && FromStart(g, start, Discovered(g, goal, s, cur, next))
  {
    hide Grid.Steps;
  }

  lemma DiscoveredTree<P(!new)>(g: Grid<P>, start: P, goal: P, s: State<P>, cur: P, next: P)
    requires Tree(g, start, s.searched, s.rank) && cur in s.searched && next !in s.searched && g.Steps(cur, next)
    ensures var t := Discovered(g, goal, s, cur, next); Tree(g, start, t.searched, t.rank)
  {
    var t := Discovered(g, goal, s, cur, next);
    hide Grid.Steps;
    forall p | p in t.searched && p != start ensures Entered(g, t.searched, t.rank, p) {
      if p != next { assert Entered(g, s.searched, s.rank, p); }
    }
  }

  lemma DiscoveredQueued<P(!new)>(g: Grid<P>, start: P, goal: P, s: State<P>, cur: P, next: P)
    requires Queued(g, start, goal, s) && start in s.searched && cur in s.searched && cur in s.rank && next !in s.searched
    ensures Queued(g, start, goal, Discovered(g, goal, s, cur, next))
  {
    var t := Discovered(g, goal, s, cur, next);
    forall p | p in s.searched
      ensures p in t.searched && Key(g, start, goal, t.searched, p) == Key(g, start, goal, s.searched, p) {
    }
  }

  // No recorded cost is the marker for none, and no step is a gain.
  lemma Known<P(!new)>(g: Grid<P>, start: P, goal: P, universe: set<P>, s: State<P>, cur: P, next: P)
    requires g.Bounds(universe) && Found(g, start, goal, universe, s) && s.current == {cur}
    ensures cur in s.searched && cur in s.rank
    ensures next in s.searched ==> s.searched[next].cost >= 0
    ensures g.Steps(cur, next) ==> g.stepCost(cur, next) >= 0
  {
  }

  lemma ANeighbour<P(!new)>(g: Grid<P>, cur: P, i: nat)
    requires i < |g.neighbours(cur)| && g.enterable(g.neighbours(cur)[i])
    ensures g.Steps(cur, g.neighbours(cur)[i])
  {
  }

  lemma AllNeighbours<P(!new)>(g: Grid<P>, cur: P, s: set<P>)
    requires forall j :: 0 <= j < |g.neighbours(cur)| && g.enterable(g.neighbours(cur)[j]) ==> g.neighbours(cur)[j] in s
    ensures forall q :: g.Steps(cur, q) ==> q in s
  {
  }

  // Taking a position off the frontier to expand it.
  lemma PoppedFound<P(!new)>(g: Grid<P>, start: P, goal: P, universe: set<P>, s: State<P>, it: (int, P))
    requires Found(g, start, goal, universe, s) && s.current == {} && Least(s.open, it) && it.1 != goal
    ensures Found(g, start, goal, universe, s.(open := s.open - multiset{it}, current := {it.1}))
  {
    PoppedSearching(g, start, goal, universe, s, it);
    if Even(g, goal, universe) { PoppedInOrder(g, start, goal, universe, s, it); }
    hide Searching, Even, InOrder, Least;
  }

  lemma PoppedSearching<P(!new)>(g: Grid<P>, start: P, goal: P, universe: set<P>, s: State<P>, it: (int, P))
    requires Found(g, start, goal, universe, s) && s.current == {} && it in s.open && it.1 != goal
    ensures Searching(g, start, goal, universe, s.(open := s.open - multiset{it}, current := {it.1}))
  {
    hide InOrder, Even;
  }

  // In the frontier the keys are what the positions are expected to cost.
  lemma CheaperFirst<P(!new)>(g: Grid<P>, start: P, goal: P, universe: set<P>, s: State<P>, it: (int, P), q: P)
    requires Found(g, start, goal, universe, s) && s.current == {} && Least(s.open, it)
    requires it.1 !in s.done && q in s.searched && q !in s.done
    ensures it.1 in s.searched && Expected(g, goal, s.searched, it.1) <= Expected(g, goal, s.searched, q)
  {
    assert (Key(g, start, goal, s.searched, q), q) in s.open;
    hide Tree, Nearest, InOrder, Even;
    assert it.1 in s.searched;
    if it.1 == start || q == start { assert s.searched.Keys == {start}; }
  }

  lemma PoppedInOrder<P(!new)>(g: Grid<P>, start: P, goal: P, universe: set<P>, s: State<P>, it: (int, P))
    requires Found(g, start, goal, universe, s) && Even(g, goal, universe) && s.current == {} && Least(s.open, it)
    ensures it.1 in s.searched && s.done <= s.searched.Keys
    ensures InOrder(g, start, goal, s.(open := s.open - multiset{it}, current := {it.1}))
  {
    OneEntryEach(g, start, goal, universe, s, it);
    forall q | q in s.searched && q !in s.done
      ensures Expected(g, goal, s.searched, it.1) <= Expected(g, goal, s.searched, q)
    {
      CheaperFirst(g, start, goal, universe, s, it, q);
    }
    PoppedOnce(s, it);
    PoppedByCost(g, start, goal, s, it);
    hide Searching, Even, OpenOnce, ByCost, Relaxed, Least;
  }

  lemma OneEntryEach<P(!new)>(g: Grid<P>, start: P, goal: P, universe: set<P>, s: State<P>, it: (int, P))
    requires Searching(g, start, goal, universe, s) && OpenOnce(s) && it in s.open
    ensures it.1 in s.searched && it.1 !in s.done && s.done <= s.searched.Keys
    ensures forall x, y :: x in s.open && y in s.open && x.1 == y.1 ==> x == y
  {
    hide Tree, Nearest, FromStart, Key;
  }

  lemma PoppedByCost<P(!new)>(g: Grid<P>, start: P, goal: P, s: State<P>, it: (int, P))
    requires s.current == {} && it.1 in s.searched && it.1 !in s.done && s.done <= s.searched.Keys
    requires ByCost(g, goal, s) && Relaxed(g, start, s)
    requires forall q :: q in s.searched && q !in s.done ==>
      Expected(g, goal, s.searched, it.1) <= Expected(g, goal, s.searched, q)
    ensures ByCost(g, goal, s.(open := s.open - multiset{it}, current := {it.1}))
    ensures Relaxed(g, start, s.(open := s.open - multiset{it}, current := {it.1}))
  {
    hide Grid.Steps;
  }

  lemma PoppedOnce<P(!new)>(s: State<P>, it: (int, P))
    requires OpenOnce(s) && it in s.open && s.current == {}
    requires forall x, y :: x in s.open && y in s.open && x.1 == y.1 ==> x == y
    ensures OpenOnce(s.(open := s.open - multiset{it}, current := {it.1}))
  {
    var t := s.(open := s.open - multiset{it}, current := {it.1});
    forall x | x in t.open ensures t.open[x] == 1 && x.1 !in t.done + t.current {
      assert x in s.open && x != it;
    }
  }

  lemma ExpandedFound<P(!new)>(g: Grid<P>, start: P, goal: P, universe: set<P>, s: State<P>, cur: P)
    requires g.Bounds(universe) && Found(g, start, goal, universe, s) && s.current == {cur}
    requires forall q :: g.Steps(cur, q) ==> q in s.searched
    ensures Found(g, start, goal, universe, s.(done := s.done + {cur}, current := {}))
  {
    ExpandedSearching(g, start, goal, universe, s, cur);
    if Even(g, goal, universe) { ExpandedInOrder(g, start, goal, universe, s, cur); }
    hide Searching, Even, InOrder, Grid.Steps, Grid.Bounds;
  }

  lemma ExpandedSearching<P(!new)>(g: Grid<P>, start: P, goal: P, universe: set<P>, s: State<P>, cur: P)
    requires Found(g, start, goal, universe, s) && s.current == {cur}
    requires forall q :: g.Steps(cur, q) ==> q in s.searched
    ensures Searching(g, start, goal, universe, s.(done := s.done + {cur}, current := {}))
  {
    hide InOrder, Even, Tree, Key, Grid.Steps;
  }

  lemma ExpandedInOrder<P(!new)>(g: Grid<P>, start: P, goal: P, universe: set<P>, s: State<P>, cur: P)
    requires g.Bounds(universe) && Found(g, start, goal, universe, s) && Even(g, goal, universe) && s.current == {cur}
    requires forall q :: g.Steps(cur, q) ==> q in s.searched
    ensures cur in s.searched && s.done + {cur} <= s.searched.Keys
    ensures InOrder(g, start, goal, s.(done := s.done + {cur}, current := {}))
  {
    assert cur in s.searched && s.done <= s.searched.Keys;
    forall q | g.Steps(cur, q) ensures s.searched[q].cost <= s.searched[cur].cost + g.stepCost(cur, q) {
      FirstWayCheapest(g, start, goal, universe, s, cur, q);
    }
    ExpandedByCost(g, goal, s, cur);
    ExpandedRelaxed(g, start, s, cur);
    hide Searching, ByCost, Relaxed, Even, Grid.Steps, Grid.Bounds;
    assert s.done + {cur} + {} == s.done + s.current;
  }

  lemma FirstWayCheapest<P(!new)>(g: Grid<P>, start: P, goal: P, universe: set<P>, s: State<P>, cur: P, q: P)
    requires g.Bounds(universe) && Found(g, start, goal, universe, s) && Even(g, goal, universe) && s.current == {cur}
    requires g.Steps(cur, q) && q in s.searched
    ensures cur in s.searched && s.searched[q].cost <= s.searched[cur].cost + g.stepCost(cur, q)
  {
    assert cur in s.searched && cur in universe;
    if q != start {
      assert Entered(g, s.searched, s.rank, q);
      var p := s.searched[q].prev;
      assert g.stepCost(p, q) - g.heuristic(p, goal) == g.stepCost(cur, q) - g.heuristic(cur, goal);
      assert Expected(g, goal, s.searched, p) <= Expected(g, goal, s.searched, cur);
      hide Even, Queued, Nearest, FromStart, OpenOnce, Grid.Steps;
    }
  }

  lemma ExpandedByCost<P(!new)>(g: Grid<P>, goal: P, s: State<P>, cur: P)
    requires s.current == {cur} && cur in s.searched && s.done <= s.searched.Keys && ByCost(g, goal, s) && OpenOnce(s)
    ensures ByCost(g, goal, s.(done := s.done + {cur}, current := {})) && OpenOnce(s.(done := s.done + {cur}, current := {}))
  {
  }

  lemma ExpandedRelaxed<P(!new)>(g: Grid<P>, start: P, s: State<P>, cur: P)
    requires s.current == {cur} && cur in s.searched && s.done <= s.searched.Keys && Relaxed(g, start, s)
    requires forall q :: g.Steps(cur, q) ==> q in s.searched && s.searched[q].cost <= s.searched[cur].cost + g.stepCost(cur, q)
    ensures Relaxed(g, start, s.(done := s.done + {cur}, current := {}))
  {
    hide Grid.Steps;
  }

  // ---------------------------------------------------------------- the promise

  // A walk from the start without repetition, to the goal if that can be reached, and otherwise to
  // a position that is nearest to it among all that can.
  ghost predicate Leads<P(!new)>(g: Grid<P>, start: P, goal: P, path: seq<P>) {
    var end := g.End(start, path);
    && g.Walk(start, path) && start !in path && (forall i, j :: 0 <= i < j < |path| ==> path[i] != path[j])
    && (if g.Reaches(start, goal) then end == goal
        else forall p :: g.Reaches(start, p) ==> g.heuristic(end, goal) <= g.heuristic(p, goal))
  }

  lemma Complete<P(!new)>(g: Grid<P>, start: P, goal: P, universe: set<P>, s: State<P>)
    requires Found(g, start, goal, universe, s) && s.open == multiset{} && s.current == {}
    ensures forall p :: g.Reaches(start, p) ==> p in s.searched && p != goal
  {
    forall p | g.Reaches(start, p) ensures p in s.searched && p != goal {
      var path :| g.Walk(start, path) && g.End(start, path) == p;
      g.ClosedHoldsWalk(s.done, start, path);
    }
  }

  // ---------------------------------------------------------------- cheapest walks

  ghost predicate Cheapest<P(!new)>(g: Grid<P>, start: P, path: seq<P>) {
    forall walk :: g.Walk(start, walk) && g.End(start, walk) == g.End(start, path) ==> g.Cost(start, path) <= g.Cost(start, walk)
  }

  ghost predicate NoneCheaper<P(!new)>(g: Grid<P>, start: P, goal: P, cost: int) {
    forall walk :: g.Walk(start, walk) && g.End(start, walk) == goal ==> cost <= g.Cost(start, walk)
  }

  // A single step is the cheapest way if and only if no walk costs less.
  lemma StepIsCheapest<P(!new)>(g: Grid<P>, start: P, goal: P)
    ensures Cheapest(g, start, [goal]) <==> NoneCheaper(g, start, goal, g.stepCost(start, goal))
  {
    assert [goal][1..] == [] && g.Cost(goal, []) == 0;
    assert g.Cost(start, [goal]) == g.stepCost(start, goal) && g.End(start, [goal]) == goal;
  }

  lemma {:induction false} NoGain<P(!new)>(g: Grid<P>, universe: set<P>, p: P, path: seq<P>)
    requires g.Bounds(universe) && p in universe && g.Walk(p, path)
    ensures g.Cost(p, path) >= 0
    decreases |path|
  {
    if path != [] {
      assert g.Steps(p, path[0]);
      NoGain(g, universe, path[0], path[1..]);
    }
  }

  // A walk costs at least what the heuristic gains on it.
  lemma {:induction false} NoGainOver<P(!new)>(g: Grid<P>, goal: P, universe: set<P>, p: P, path: seq<P>)
    requires g.Bounds(universe) && Even(g, goal, universe) && p in universe && g.Walk(p, path)
    ensures g.heuristic(p, goal) <= g.Cost(p, path) + g.heuristic(g.End(p, path), goal)
    decreases |path|
  {
    if path != [] {
      assert g.Steps(p, path[0]);
      NoGainOver(g, goal, universe, path[0], path[1..]);
    }
  }

  // When all that was found is expanded, no walk on from there is cheaper than recorded.
  lemma {:induction false} AllRelaxed<P(!new)>(g: Grid<P>, start: P, s: State<P>, p: P, path: seq<P>)
    requires s.done <= s.searched.Keys && Relaxed(g, start, s) && s.searched.Keys <= s.done
    requires p in s.done && g.Walk(p, path)
    ensures g.End(p, path) in s.searched && s.searched[g.End(p, path)].cost <= s.searched[p].cost + g.Cost(p, path)
    decreases |path|
  {
    if path != [] {
      assert g.Steps(p, path[0]);
      AllRelaxed(g, start, s, path[0], path[1..]);
    }
  }

  // The goal heads the frontier: no walk on from an expanded position reaches it more cheaply.
  lemma {:induction false} NoCheaperOn<P(!new)>(g: Grid<P>, start: P, goal: P, universe: set<P>, s: State<P>, key: int, p: P, path: seq<P>)
    requires g.Bounds(universe) && Found(g, start, goal, universe, s) && Even(g, goal, universe) && s.current == {}
    requires Least(s.open, (key, goal)) && p in s.done && g.Walk(p, path) && g.End(p, path) == goal
    ensures goal in s.searched && p in s.searched && s.searched[goal].cost <= s.searched[p].cost + g.Cost(p, path)
    decreases |path|
  {
    assert path != [];
    var q, rest := path[0], path[1..];
    assert g.Steps(p, q) && g.Walk(q, rest) && g.End(q, rest) == goal;
    assert q in s.searched && s.searched[q].cost <= s.searched[p].cost + g.stepCost(p, q);
    if q in s.done {
      NoCheaperOn(g, start, goal, universe, s, key, q, rest);
    } else {
      CheaperFirst(g, start, goal, universe, s, (key, goal), q);
      NoGainOver(g, goal, universe, q, rest);
    }
  }

  lemma NoCheaperWalk<P(!new)>(g: Grid<P>, start: P, goal: P, universe: set<P>, s: State<P>, key: int, walk: seq<P>)
    requires g.Bounds(universe) && Found(g, start, goal, universe, s) && Even(g, goal, universe) && s.current == {}
    requires Least(s.open, (key, goal)) && g.Walk(start, walk) && g.End(start, walk) == goal
    ensures goal in s.searched && s.searched[goal].cost <= g.Cost(start, walk)
  {
    if start in s.done {
      NoCheaperOn(g, start, goal, universe, s, key, start, walk);
    } else {
      NoGain(g, universe, start, walk);
    }
  }

  lemma WayReaches<P(!new)>(g: Grid<P>, start: P, searched: map<P, PosAttr<P>>, rank: map<P, nat>, p: P)
    requires Tree(g, start, searched, rank) && p in searched
    ensures g.Reaches(start, p)
  {
    WayLeads(g, start, searched, rank, p);
  }

  class Search<!P(==, !new)> {
    const grid: Grid<P>
    var searched: map<P, PosAttr<P>>
    var frontier: multiset<(int, P)>
    ghost var rank: map<P, nat>
    ghost var done: set<P>

    constructor (grid: Grid<P>)
      ensures this.grid == grid
    {
      this.grid := grid;
      searched, frontier, rank, done := map[], multiset{}, map[], {};
    }

    ghost function Now(current: set<P>, nearest: (int, P)): State<P>
      reads this
    {
      State(searched, rank, frontier, done, current, nearest)
    }

    // Takes an entry of least key; between equal keys any may come first.
    method Pop() returns (p: P)
      requires frontier != multiset{}
      modifies this`frontier
      ensures exists key :: Least(old(frontier), (key, p)) && frontier == old(frontier) - multiset{(key, p)}
    {
      LeastExists(frontier);
      assert exists it :: it in frontier && forall other :: other in frontier ==> it.0 <= other.0 by {
        var least :| Least(frontier, least);
      }
      var it :| it in frontier && forall other :: other in frontier ==> it.0 <= other.0;
      assert Least(frontier, it);
      frontier := frontier - multiset{it};
      p := it.1;
      assert (it.0, p) == it;
    }

    method Discover(goal: P, cur: P, next: P, nextCost: int, was: (int, P)) returns (nearest: (int, P))
      requires cur in searched && cur in rank && nextCost == searched[cur].cost + grid.stepCost(cur, next)
      modifies this`searched, this`rank, this`frontier
      ensures Now({cur}, nearest) == Discovered(grid, goal, old(Now({cur}, was)), cur, next)
    {
      var h := grid.heuristic(next, goal);
      searched := searched[next := PosAttr(cur, nextCost)];
      rank := rank[next := rank[cur] + 1];
      frontier := frontier + multiset{(nextCost + h, next)};
      nearest := if h < was.0 then (h, next) else was;
    }

    // Looks at every neighbour of the position just taken off the frontier.
    method Expand(start: P, goal: P, cur: P, ghost universe: set<P>, was: (int, P)) returns (nearest: (int, P))
      requires grid.Bounds(universe) && Found(grid, start, goal, universe, Now({cur}, was))
      modifies this
      ensures Found(grid, start, goal, universe, Now({}, nearest))
      ensures old(searched.Keys) <= searched.Keys
      ensures searched.Keys == old(searched.Keys) ==> frontier == old(frontier)
    {
      hide Found, Grid.Steps, Grid.Bounds, Tree;
      nearest := was;
      assert cur in searched by { Known(grid, start, goal, universe, Now({cur}, was), cur, cur); }
      var ns := grid.neighbours(cur);
      var i := 0;
      while i < |ns|
        invariant 0 <= i <= |ns| && Found(grid, start, goal, universe, Now({cur}, nearest))
        invariant forall j :: 0 <= j < i && grid.enterable(ns[j]) ==> ns[j] in searched
        invariant old(searched.Keys) <= searched.Keys
        invariant searched.Keys == old(searched.Keys) ==> frontier == old(frontier)
      {
        var next := ns[i];
        if grid.enterable(next) {
          assert grid.Steps(cur, next) by { ANeighbour(grid, cur, i); }
          ghost var before := Now({cur}, nearest);
          var cost := searched[cur].cost;
          var nextCost := cost + grid.stepCost(cur, next);
          var known := if next in searched then searched[next].cost else INVALID_COST;
          Known(grid, start, goal, universe, before, cur, next);
          if known == INVALID_COST || nextCost < cost {
            DiscoveredFound(grid, start, goal, universe, before, cur, next);
            nearest := Discover(goal, cur, next, nextCost, nearest);
          }
        }
        i := i + 1;
      }
      AllNeighbours(grid, cur, searched.Keys);
      ExpandedFound(grid, start, goal, universe, Now({cur}, nearest), cur);
      done := done + {cur};
    }

    // Follows the predecessors back to the start.
    method Path(start: P, end: P) returns (path: seq<P>)
      requires Tree(grid, start, searched, rank) && end in searched
      ensures path == Way(grid, start, searched, rank, end)
    {
      path := [];
      var pos := end;
      while pos != start
        invariant pos in searched
        invariant Way(grid, start, searched, rank, end) == Way(grid, start, searched, rank, pos) + path
        decreases rank[pos]
      {
        assert Entered(grid, searched, rank, pos);
        path := [pos] + path;
        pos := searched[pos].prev;
      }
    }

    method FindPath(start: P, goal: P, ghost universe: set<P>) returns (path: seq<P>)
      requires start in universe && grid.Bounds(universe)
      modifies this
      ensures Leads(grid, start, goal, path)
      ensures grid.End(start, path) in searched && searched[grid.End(start, path)].cost == grid.Cost(start, path)
      ensures start != goal && grid.Steps(start, goal) ==> path == [goal]
      ensures start != goal && grid.Steps(start, goal) ==>
        (Cheapest(grid, start, path) <==> NoneCheaper(grid, start, goal, grid.stepCost(start, goal)))
      ensures Even(grid, goal, universe) ==> Cheapest(grid, start, path)
    {
      hide Found, Leads, Way, Tree, Even, Cheapest, NoneCheaper, Grid.Steps, Grid.Bounds, Grid.End, Grid.Cost;
      StepIsCheapest(grid, start, goal);
      frontier, searched, rank, done := multiset{(0, start)}, map[start := PosAttr(start, 0)], map[start := 0], {};
      var nearest := (grid.heuristic(start, goal), start);
      StartFound(grid, start, goal, universe, Now({}, nearest));
      while frontier != multiset{}
        invariant Found(grid, start, goal, universe, Now({}, nearest))
        decreases |universe - searched.Keys|, |frontier|
      {
        ghost var before := Now({}, nearest);
        var cur := Pop();
        ghost var key :| Least(before.open, (key, cur)) && frontier == before.open - multiset{(key, cur)};
        if cur == goal {
          GoalReached(grid, start, goal, universe, before, key);
          nearest := (nearest.0, goal);
          Promise(grid, start, goal, universe, before, goal, key);
          path := Path(start, nearest.1);
          return;
        }
        PoppedFound(grid, start, goal, universe, before, (key, cur));
        nearest := Expand(start, goal, cur, universe, nearest);
        Within(grid, start, goal, universe, Now({}, nearest));
        Shrinks(universe, before.searched.Keys, searched.Keys);
      }
      Within(grid, start, goal, universe, Now({}, nearest));
      Promise(grid, start, goal, universe, Now({}, nearest), nearest.1, 0);
      path := Path(start, nearest.1);
    }
  }

  // From 0 there is a dear step to 2, and a cheap way over 1.
  function Detour(): Grid<int> {
    Grid(p => if p == 0 then [1, 2] else if p == 1 then [2] else [], _ => true,
         (a, b) => if a == 0 && b == 2 then 10 else 1, (_, _) => 0)
  }

  lemma DetourSteps()
    ensures var g := Detour();
      && g.Bounds({0, 1, 2}) && g.Steps(0, 2)
      && g.Cost(0, [2]) == 10 && g.Walk(0, [1, 2]) && g.End(0, [1, 2]) == 2 && g.Cost(0, [1, 2]) == 2
  {
    var g := Detour();
    assert g.neighbours(0)[1] == 2 && g.neighbours(0)[0] == 1 && g.neighbours(1)[0] == 2;
    assert g.Steps(0, 2) && g.Steps(0, 1) && g.Steps(1, 2);
    assert g.Walk(2, []) && [2][1..] == [] && g.Walk(1, [2]);
    assert g.Cost(2, []) == 0 && g.Cost(1, [2]) == 1 && [1, 2][1..] == [2];
  }

  // The search takes the dear step: shortest walks are not what it finds there.
  method NotTheCheapest() returns (path: seq<int>)
    ensures path == [2] && Detour().Cost(0, path) == 10
    ensures Detour().Walk(0, [1, 2]) && Detour().End(0, [1, 2]) == 2 && Detour().Cost(0, [1, 2]) == 2
  {
    DetourSteps();
    hide Even, Cheapest, Leads, Detour, Grid.Steps, Grid.Walk, Grid.Cost, Grid.Bounds, Grid.End;
    var search := new Search(Detour());
    path := search.FindPath(0, 2, {0, 1, 2});
  }

  lemma Shrinks<P>(universe: set<P>, before: set<P>, after: set<P>)
    requires before <= after <= universe
    ensures |universe - after| < |universe - before| || after == before
  {
    if after != before {
      assert universe - after < universe - before;
      SmallerSet(universe - after, universe - before);
    }
  }

  lemma SmallerSet<P>(a: set<P>, b: set<P>)
    requires a < b
    ensures |a| < |b|
  {
    assert b == a + (b - a);
  }

  lemma StartFound<P(!new)>(g: Grid<P>, start: P, goal: P, universe: set<P>, s: State<P>)
    requires start in universe
    requires s == State(map[start := PosAttr(start, 0)], map[start := 0], multiset{(0, start)}, {}, {}, (g.heuristic(start, goal), start))
    ensures Found(g, start, goal, universe, s)
  {
  }

  lemma Within<P(!new)>(g: Grid<P>, start: P, goal: P, universe: set<P>, s: State<P>)
    requires Found(g, start, goal, universe, s)
    ensures s.searched.Keys <= universe && s.nearest.1 in s.searched
  {
  }

  lemma GoalReached<P(!new)>(g: Grid<P>, start: P, goal: P, universe: set<P>, s: State<P>, key: int)
    requires Found(g, start, goal, universe, s) && (key, goal) in s.open
    ensures goal in s.searched
  {
  }

  lemma SingleStep<P(!new)>(g: Grid<P>, start: P, goal: P)
    requires g.Steps(start, goal)
    ensures g.Reaches(start, goal)
  {
    var path := [goal];
    assert |path| == 1 && path[0] == goal && path[1..] == [] && path != [];
    assert g.Walk(goal, path[1..]);
    assert g.Walk(start, path) && g.End(start, path) == goal;
  }

  // Either the goal came off the frontier, or everything that can be reached was expanded.
  ghost predicate Ended<P(!new)>(start: P, goal: P, s: State<P>, end: P, key: int) {
    (end == goal && Least(s.open, (key, goal))) || (s.open == multiset{} && end == s.nearest.1)
  }

  lemma Promise<P(!new)>(g: Grid<P>, start: P, goal: P, universe: set<P>, s: State<P>, end: P, key: int)
    requires g.Bounds(universe) && Found(g, start, goal, universe, s) && s.current == {} && end in s.searched
    requires Ended(start, goal, s, end, key)
    ensures Tree(g, start, s.searched, s.rank)
    ensures var path := Way(g, start, s.searched, s.rank, end);
      && Leads(g, start, goal, path)
      && g.End(start, path) == end && s.searched[end].cost == g.Cost(start, path)
      && (start != goal && g.Steps(start, goal) ==> path == [goal])
      && (Even(g, goal, universe) ==> Cheapest(g, start, path))
  {
    WayLeads(g, start, s.searched, s.rank, end);
    WayReaches(g, start, s.searched, s.rank, end);
    if s.open == multiset{} { Complete(g, start, goal, universe, s); }
    if start != goal && g.Steps(start, goal) {
      SingleStep(g, start, goal);
      StraightThere(g, start, goal, universe, s);
    }
    if Even(g, goal, universe) { PromiseCheapest(g, start, goal, universe, s, end, key); }
    hide Found, Even, Cheapest, Tree, Grid.Walk, Grid.Steps;
  }

  lemma StraightThere<P(!new)>(g: Grid<P>, start: P, goal: P, universe: set<P>, s: State<P>)
    requires Found(g, start, goal, universe, s) && start != goal && g.Steps(start, goal)
    ensures Tree(g, start, s.searched, s.rank)
    ensures goal in s.searched ==> Way(g, start, s.searched, s.rank, goal) == [goal]
  {
    hide InOrder, Even, Queued, Nearest, Grid.Steps;
    if goal in s.searched {
      assert Entered(g, s.searched, s.rank, goal) && s.searched[goal].prev == start;
    }
  }

  lemma PromiseCheapest<P(!new)>(g: Grid<P>, start: P, goal: P, universe: set<P>, s: State<P>, end: P, key: int)
    requires g.Bounds(universe) && Found(g, start, goal, universe, s) && Even(g, goal, universe)
    requires s.current == {} && end in s.searched && Ended(start, goal, s, end, key)
    ensures Tree(g, start, s.searched, s.rank)
    ensures Cheapest(g, start, Way(g, start, s.searched, s.rank, end))
  {
    var path := Way(g, start, s.searched, s.rank, end);
    WayLeads(g, start, s.searched, s.rank, end);
    forall walk | g.Walk(start, walk) && g.End(start, walk) == end ensures s.searched[end].cost <= g.Cost(start, walk) {
      if end == goal && Least(s.open, (key, goal)) {
        NoCheaperWalk(g, start, goal, universe, s, key, walk);
      } else {
        AllExpanded(g, start, goal, universe, s);
        AllRelaxed(g, start, s, start, walk);
      }
    }
  }

  lemma AllExpanded<P(!new)>(g: Grid<P>, start: P, goal: P, universe: set<P>, s: State<P>)
    requires Searching(g, start, goal, universe, s) && s.open == multiset{} && s.current == {}
    ensures s.searched.Keys <= s.done <= s.searched.Keys && start in s.done && s.searched[start].cost == 0
  {
  }

  lemma {:induction false} LeastExists<P(!new)>(s: multiset<(int, P)>)
    requires s != multiset{}
    ensures exists it :: Least(s, it)
    decreases |s|
  {
    var x :| x in s;
    var rest := s - multiset{x};
    if rest == multiset{} {
      assert s == rest + multiset{x};
      assert Least(s, x);
    } else {
      LeastExists(rest);
      var y :| Least(rest, y);
      LeastOf(s, x, y);
    }
  }

  lemma LeastOf<P(!new)>(s: multiset<(int, P)>, x: (int, P), y: (int, P))
    requires x in s && Least(s - multiset{x}, y)
    ensures Least(s, if x.0 <= y.0 then x else y)
  {
    forall other | other in s ensures (if x.0 <= y.0 then x else y).0 <= other.0 {
      if other != x { assert other in s - multiset{x}; }
    }
  }

  ghost predicate Least<P(!new)>(s: multiset<(int, P)>, it: (int, P)) {
    it in s && forall other :: other in s ==> it.0 <= other.0
  }
}
