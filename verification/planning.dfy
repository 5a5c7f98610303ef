/** The planning agent (agent.rs): it keeps a queue of waypoints; when the
    queue is empty it plans with A* to the nearest chip, or to a goal once no
    chip is left, and failing that to the nearest key of a colour it lacks. */
module Planning {
  import opened Wrappers
  import opened Types
  import opened Grids
  import opened World

  /** `PlanningAgent`: its id and the waypoints still to visit, front first. */
  datatype PlanningAgent = PlanningAgent(id: EntityId, currentPlan: seq<Position>)

  // ---------------------------------------------------------------- geometry

  function AbsDiff(a: nat, b: nat): nat
  {
    if a > b then a - b else b - a
  }

  /** `manhattan_distance`: zero exactly on the same cell and one exactly
      between neighbouring cells. */
  function ManhattanDistance(a: Position, b: Position): (d: nat)
    ensures d == 0 <==> a == b
    ensures d == 1 <==> Adjacent(a, b)
  {
    AbsDiff(a.x, b.x) + AbsDiff(a.y, b.y)
  }

  /** The cells one step up, down, left or right of each other. */
  predicate Adjacent(a: Position, b: Position)
  {
    || (a.x == b.x && (a.y + 1 == b.y || b.y + 1 == a.y))
    || (a.y == b.y && (a.x + 1 == b.x || b.x + 1 == a.x))
  }

  /** The distance is a metric on cells. */
  lemma ManhattanMetric(a: Position, b: Position, c: Position)
    ensures ManhattanDistance(a, b) == ManhattanDistance(b, a)
    ensures ManhattanDistance(a, c) <= ManhattanDistance(a, b) + ManhattanDistance(b, c)
  {
  }

  /** `position_to_action`: the unit move from `src` onto a neighbouring `dst`;
      a wait for the same cell and for any cell that is not a neighbour. */
  function PositionToAction(src: Position, dst: Position): (r: Action)
    ensures r.Move? <==> Adjacent(src, dst)
    ensures r.Move? ==> src.x + r.dx == dst.x && src.y + r.dy == dst.y && (r.dx == 0 || r.dy == 0)
  {
    var dx, dy := dst.x - src.x, dst.y - src.y;
    if dx == 0 && dy == 0 then Wait
    else if dx == 0 && dy == 1 then Move(0, 1)
    else if dx == 0 && dy == -1 then Move(0, -1)
    else if dx == 1 && dy == 0 then Move(1, 0)
    else if dx == -1 && dy == 0 then Move(-1, 0)
    else Wait
  }

  /** The action chosen for a neighbouring cell takes the mover onto exactly
      that cell when the world resolves it. */
  lemma PositionToActionReaches<T>(g: Grid<T>, src: Position, dst: Position)
    requires Adjacent(src, dst) && IsValidPos(g, dst)
    ensures var a := PositionToAction(src, dst);
            a.Move? && MoveTarget(g, src, a.dx, a.dy) == Some(dst)
  {
  }

  // ------------------------------------------------------------- neighbours

  /** A cell the planner may step onto: in bounds, no agent on it, not a
      wall, and if it is a closed keyed door the key's colour is held. */
  predicate Passable(view: View, keys: set<DoorKeyType>, q: Position)
  {
    && IsValidPos(view.terrain, q)
    && !(Get(view.agentLocations, q.x, q.y).Some? && Get(view.agentLocations, q.x, q.y).value.Some?)
    && match AtPos(view.terrain, q)
       case Wall => false
       case Door(open, doorType) => open || doorType.None? || doorType.value in keys
       case Floor => true
  }

  /** The planner's filter agrees with the engine: a move onto a passable
      cell, judged with the keys the mover holds, is never refused. */
  lemma PassableIsAdmitted(env: Environment, id: EntityId, t: Position)
    requires Shaped(env) && id in env.agents && IsValidPos(env.terrain, t)
    requires Passable(ViewOf(env, id), GetKeysHeld(env.agents[id].inventory), t)
    ensures !ResolveMove(env, id, t).1.Failure?
  {
    var cell := AtPos(env.terrain, t);
    if AtPos(env.items, t) != Some(Goal) && cell.Door? && !cell.open && cell.doorType.Some? {
      var picked := PickUp(env, id, t);
      assert forall it | it in env.agents[id].inventory :: it in picked.agents[id].inventory;
      assert ResolveMove(env, id, t) == OpenDoor(picked, id, t);
    }
  }

  /** Conversely, a move onto an in-bounds cell the planner filters out is
      refused, unless the cell holds a goal (which wins before the terrain is
      looked at) or a key (which is picked up before a closed door of its
      colour is tried). */
  lemma FilteredIsRefused(env: Environment, id: EntityId, t: Position)
    requires Shaped(env) && id in env.agents && IsValidPos(env.terrain, t)
    requires !Passable(ViewOf(env, id), GetKeysHeld(env.agents[id].inventory), t)
    requires AtPos(env.items, t) == None || AtPos(env.items, t) == Some(Chip)
    ensures ResolveMove(env, id, t).1.Failure?
  {
    var cell := AtPos(env.terrain, t);
    var picked := PickUp(env, id, t);
    assert ResolveMove(env, id, t) == EnterCell(picked, id, t);
    if cell != Wall && AtPos(env.agentLocations, t).None? {
      assert cell.Door? && !cell.open && cell.doorType.Some?;
      assert forall it | it in picked.agents[id].inventory && it.Key? :: it in env.agents[id].inventory;
      assert ResolveMove(env, id, t) == OpenDoor(picked, id, t);
    }
  }

  /** `checked_add_signed` on both coordinates: no cell left of column 0 or
      above row 0. */
  function Shift(p: Position, dx: int, dy: int): (r: Option<Position>)
    ensures r.Some? <==> p.x + dx >= 0 && p.y + dy >= 0
    ensures r.Some? ==> r.value.x == p.x + dx && r.value.y == p.y + dy
  {
    if p.x + dx >= 0 && p.y + dy >= 0 then Some(Position(p.x + dx, p.y + dy)) else None
  }

  /** No element occurs twice. */
  predicate Distinct<T(==)>(s: seq<T>)
  {
    forall i, j | 0 <= i < j < |s| :: s[i] != s[j]
  }

  /** The candidate `q` when it exists and is passable, else nothing. */
  function Keep(view: View, keys: set<DoorKeyType>, q: Option<Position>): (r: seq<Position>)
    ensures |r| <= 1
    ensures forall c :: c in r <==> q == Some(c) && Passable(view, keys, c)
  {
    if q.Some? && Passable(view, keys, q.value) then [q.value] else []
  }

  /** `get_valid_neighbors`: the passable cells among down, up, right, left,
      in that order. Each appears once, and a cell is listed exactly when it
      is a passable neighbour. Nothing downstream depends on the order: the
      search breaks ties between equal priorities arbitrarily. */
  function ValidNeighbors(view: View, keys: set<DoorKeyType>, p: Position): (r: seq<Position>)
    ensures |r| <= 4
    ensures forall q: Position :: q in r <==> Adjacent(p, q) && Passable(view, keys, q)
    ensures Distinct(r)
  {
    var down, up, right, left := Shift(p, 0, 1), Shift(p, 0, -1), Shift(p, 1, 0), Shift(p, -1, 0);
    var a, b, c, d := Keep(view, keys, down), Keep(view, keys, up), Keep(view, keys, right), Keep(view, keys, left);
    DistinctJoin(a, b);
    DistinctJoin(a + b, c);
    DistinctJoin(a + b + c, d);
    forall q: Position
      ensures q in a + b + c + d <==> Adjacent(p, q) && Passable(view, keys, q)
    {
      NeighbourCases(p, q);
    }
    a + b + c + d
  }

  /** Joining two repetition-free sequences with no element in common
      repeats nothing. */
  lemma DistinctJoin<T>(a: seq<T>, b: seq<T>)
    requires Distinct(a) && Distinct(b) && forall x | x in a :: x !in b
    ensures Distinct(a + b)
  {
    forall i, j | 0 <= i < j < |a + b|
      ensures (a + b)[i] != (a + b)[j]
    {
      if i < |a| && j >= |a| {
        assert (a + b)[i] in a && (a + b)[j] == b[j - |a|];
      }
    }
  }

  /** The neighbours of a cell are its four shifts that stay at or beyond
      column and row 0. */
  lemma NeighbourCases(p: Position, q: Position)
    ensures Adjacent(p, q) <==>
              || Shift(p, 0, 1) == Some(q) || Shift(p, 0, -1) == Some(q)
              || Shift(p, 1, 0) == Some(q) || Shift(p, -1, 0) == Some(q)
  {
  }

  /** One legal planner step from `a` to `b`. */
  predicate Step(view: View, keys: set<DoorKeyType>, a: Position, b: Position)
  {
    Adjacent(a, b) && Passable(view, keys, b)
  }

  /** A sequence of cells each a legal step from the one before. */
  predicate IsPath(view: View, keys: set<DoorKeyType>, p: seq<Position>)
  {
    forall i | 0 <= i < |p| - 1 :: Step(view, keys, p[i], p[i + 1])
  }

  /** A plan as A* hands it out: from `start` to `goal` by legal steps,
      visiting no cell twice. */
  predicate ValidPlan(view: View, keys: set<DoorKeyType>, start: Position, goal: Position, p: seq<Position>)
  {
    |p| > 0 && p[0] == start && p[|p| - 1] == goal && IsPath(view, keys, p) && Distinct(p)
  }

  /** Some sequence of legal planner steps leads from `start` to `goal`. */
  ghost predicate Reachable(view: View, keys: set<DoorKeyType>, start: Position, goal: Position)
  {
    exists p: seq<Position> :: |p| > 0 && p[0] == start && p[|p| - 1] == goal && IsPath(view, keys, p)
  }

  /** A path of n steps covers a Manhattan distance of at most n. */
  lemma {:induction false} PathLength(view: View, keys: set<DoorKeyType>, p: seq<Position>)
    requires |p| > 0 && IsPath(view, keys, p)
    ensures ManhattanDistance(p[0], p[|p| - 1]) <= |p| - 1
    decreases |p|
  {
    if |p| > 1 {
      PathLength(view, keys, p[1..]);
      assert Adjacent(p[0], p[1]);
      ManhattanMetric(p[0], p[1], p[|p| - 1]);
    }
  }

  /** A region no legal step leaves cannot be left by any path: every cell of
      a path that starts inside stays inside. */
  lemma {:induction false} PathStaysInRegion(view: View, keys: set<DoorKeyType>, region: set<Position>, p: seq<Position>)
    requires |p| > 0 && IsPath(view, keys, p) && p[0] in region
    requires forall a, b | a in region && Step(view, keys, a, b) :: b in region
    ensures forall i | 0 <= i < |p| :: p[i] in region
    decreases |p|
  {
    if |p| > 1 {
      assert Step(view, keys, p[0], p[1]);
      PathStaysInRegion(view, keys, region, p[1..]);
      forall i | 0 <= i < |p|
        ensures p[i] in region
      {
        if i > 0 {
          assert p[i] == p[1..][i - 1];
        }
      }
    }
  }

  // --------------------------------------------------------------------- A*

  /** A frontier entry: cost so far plus the distance still to go, and the
      cell. The frontier is a min-priority queue on `priority`. */
  datatype Entry = Entry(priority: nat, position: Position)

  /** The cells a search can ever record: the grid's cells and the start. */
  ghost function Cells(view: View, start: Position): (u: set<Position>)
    ensures start in u
    ensures forall q: Position | IsValidPos(view.terrain, q) :: q in u
  {
    var u := (set x: nat, y: nat | x < view.terrain.width && y < view.terrain.height :: Position(x, y)) + {start};
    assert forall q: Position | IsValidPos(view.terrain, q) :: q in u by {
      forall q: Position | IsValidPos(view.terrain, q)
        ensures q in u
      {
        assert q == Position(q.x, q.y);
      }
    }
    u
  }

  /** Every (cell, cost) pair a search over `u` can push: costs stay below |u|. */
  ghost function Slots(u: set<Position>): set<(Position, nat)>
  {
    set p, c: nat | p in u && c < |u| :: (p, c)
  }

  /** A sequence of distinct members of `u` is no longer than `u` is large. */
  lemma {:induction false} DistinctWithin(s: seq<Position>, u: set<Position>)
    requires Distinct(s) && forall i | 0 <= i < |s| :: s[i] in u
    ensures |s| <= |u|
    decreases |s|
  {
    if |s| > 0 {
      forall i | 0 <= i < |s| - 1
        ensures s[1..][i] in u - {s[0]}
      {
        assert s[1..][i] == s[i + 1] != s[0];
      }
      DistinctWithin(s[1..], u - {s[0]});
    }
  }

  /** A witness walk for a recorded cost: `w` visits distinct recorded cells,
      ends at `n`, has exactly cost(n) steps, and each cell's recorded cost is
      at most its index in `w`. */
  ghost predicate WalkTo(w: seq<Position>, n: Position, cost: map<Position, nat>)
  {
    && n in cost && |w| == cost[n] + 1 && w[|w| - 1] == n && Distinct(w)
    && forall i | 0 <= i < |w| :: w[i] in cost && cost[w[i]] <= i
  }

  /** What the search loop keeps: the start costs 0; every other recorded cell
      has a predecessor of lower cost one legal step away; every queued cell
      is recorded; every cost is witnessed by a walk; and each pushed
      (cell, cost) pair is an upper bound on that cell's current cost. */
  ghost predicate SearchState(view: View, keys: set<DoorKeyType>, start: Position, u: set<Position>,
                              frontier: seq<Entry>, cameFrom: map<Position, Position>, cost: map<Position, nat>,
                              walk: map<Position, seq<Position>>, pushed: set<(Position, nat)>)
  {
    && start in cost && cost[start] == 0
    && cost.Keys <= u
    && cameFrom.Keys == cost.Keys - {start}
    && (forall n | n in cameFrom ::
          cameFrom[n] in cost && cost[cameFrom[n]] < cost[n] && Step(view, keys, cameFrom[n], n))
    && (forall i | 0 <= i < |frontier| :: frontier[i].position in cost)
    && walk.Keys == cost.Keys
    && (forall n | n in walk :: WalkTo(walk[n], n, cost))
    && pushed <= Slots(u)
    && (forall pc | pc in pushed :: pc.0 in cost && cost[pc.0] <= pc.1)
  }

  /** Relaxing the edge cur -> nb with a strictly better cost keeps the search
      state, and pushes a (cell, cost) pair never pushed before. */
  lemma Relax(view: View, keys: set<DoorKeyType>, start: Position, u: set<Position>,
              frontier: seq<Entry>, cameFrom: map<Position, Position>, cost: map<Position, nat>,
              walk: map<Position, seq<Position>>, pushed: set<(Position, nat)>,
              cur: Position, nb: Position, priority: nat)
    requires SearchState(view, keys, start, u, frontier, cameFrom, cost, walk, pushed)
    requires cur in cost && Step(view, keys, cur, nb) && nb in u
    requires nb !in cost || cost[cur] + 1 < cost[nb]
    ensures (nb, cost[cur] + 1) !in pushed
    ensures SearchState(view, keys, start, u, frontier + [Entry(priority, nb)], cameFrom[nb := cur],
                        cost[nb := cost[cur] + 1], walk[nb := walk[cur] + [nb]], pushed + {(nb, cost[cur] + 1)})
  {
    var cost' := cost[nb := cost[cur] + 1];
    ExtendWalk(cost, walk[cur], cur, nb, u);
    assert (nb, cost[cur] + 1) in Slots(u);
    assert nb != start;
    forall n | n in walk && n != nb
      ensures WalkTo(walk[n], n, cost')
    {
      assert WalkTo(walk[n], n, cost);
    }
  }

  /** A walk to `cur` extended by one step to a cell whose cost drops to
      cost(cur) + 1 is a walk to that cell, and the new cost stays below |u|. */
  lemma ExtendWalk(cost: map<Position, nat>, w: seq<Position>, cur: Position, nb: Position, u: set<Position>)
    requires WalkTo(w, cur, cost) && cost.Keys <= u && nb in u
    requires nb !in cost || cost[cur] + 1 < cost[nb]
    ensures WalkTo(w + [nb], nb, cost[nb := cost[cur] + 1])
    ensures cost[cur] + 1 < |u|
  {
    var nc := cost[cur] + 1;
    forall i | 0 <= i < |w|
      ensures w[i] != nb
    {
      assert cost[w[i]] <= i < nc;
    }
    assert Distinct(w + [nb]);
    DistinctWithin(w + [nb], u);
  }

  /** Entry `i` has the least priority in the frontier. */
  predicate Least(f: seq<Entry>, i: nat)
  {
    i < |f| && forall j | 0 <= j < |f| :: f[i].priority <= f[j].priority
  }

  /** An entry of least priority, so one always exists to pop. */
  function MinIndex(f: seq<Entry>): (i: nat)
    requires |f| > 0
    ensures Least(f, i)
  {
    if |f| == 1 then 0
    else
      var k := MinIndex(f[..|f| - 1]);
      if f[|f| - 1].priority < f[k].priority then |f| - 1 else k
  }

  /** Removing more pairs from the slots shrinks what is left of them. */
  lemma FewerSlots(all: set<(Position, nat)>, before: set<(Position, nat)>, after: set<(Position, nat)>, x: (Position, nat))
    requires before <= after <= all && x in after && x !in before
    ensures |all - after| < |all - before|
  {
    var small, large := all - after, all - before;
    assert large == small + (large - small);
    assert small * (large - small) == {};
    assert x in large - small;
  }

  /** The predecessor links a finished search leaves: the start costs 0 and
      has no predecessor; every other recorded cell has one, of lower cost and
      one legal step before it. */
  ghost predicate Links(view: View, keys: set<DoorKeyType>, start: Position,
                        cameFrom: map<Position, Position>, cost: map<Position, nat>)
  {
    && start in cost && cost[start] == 0
    && cameFrom.Keys == cost.Keys - {start}
    && forall n | n in cameFrom ::
         cameFrom[n] in cost && cost[cameFrom[n]] < cost[n] && Step(view, keys, cameFrom[n], n)
  }

  /** The cells with an entry in the frontier. */
  function Queued(f: seq<Entry>): set<Position>
  {
    set i | 0 <= i < |f| :: f[i].position
  }

  /** Pushing an entry queues its cell and keeps every other. */
  lemma QueuedPush(f: seq<Entry>, e: Entry)
    ensures Queued(f + [e]) == Queued(f) + {e.position}
  {
    var g := f + [e];
    assert g[|f|] == e;
    forall q | q in Queued(f)
      ensures q in Queued(g)
    {
      var i :| 0 <= i < |f| && f[i].position == q;
      assert g[i] == f[i];
    }
  }

  /** Every recorded cell whose entries have all been popped has all its
      legal successors recorded. */
  ghost predicate Closed(view: View, keys: set<DoorKeyType>, frontier: seq<Entry>, cost: map<Position, nat>)
  {
    forall n, nb | n in cost && n !in Queued(frontier) && Step(view, keys, n, nb) :: nb in cost
  }

  /** From one state to a later one, no queued cell loses its last entry and
      every newly recorded cell is queued. */
  ghost predicate Grows(frontier: seq<Entry>, cost: map<Position, nat>, frontier': seq<Entry>, cost': map<Position, nat>)
  {
    Queued(frontier) <= Queued(frontier') && forall n | n in cost' && n !in cost :: n in Queued(frontier')
  }

  /** The search loop of `a_star_path`: pops a least-priority cell (ties in
      any order, as the binary heap leaves them); stops when it pops the goal;
      otherwise relaxes each valid neighbour whose cost improves and pushes it
      again. There is no closed set, so a cell may be expanded more than once;
      the loop still ends, since each push lowers one cell's cost and costs are
      lengths of walks through distinct cells. The goal is reported reached
      only once recorded, and a goal that is the start is always reached.
      When the frontier runs dry without the goal, every cell recorded has
      all its legal successors recorded too, and the goal is not among them. */
  method Search(view: View, keys: set<DoorKeyType>, start: Position, goal: Position)
    returns (reached: bool, cameFrom: map<Position, Position>, cost: map<Position, nat>)
    ensures Links(view, keys, start, cameFrom, cost)
    ensures reached ==> goal in cost
    ensures start == goal ==> reached
    ensures !reached ==> goal !in cost && forall n, nb | n in cost && Step(view, keys, n, nb) :: nb in cost
  {
    ghost var u := Cells(view, start);
    var frontier := [Entry(0, start)];
    cameFrom := map[];
    cost := map[start := 0];
    ghost var walk := map[start := [start]];
    ghost var pushed: set<(Position, nat)> := {(start, 0)};
    reached := false;
    assert frontier[0].position == start;
    while |frontier| > 0
      invariant SearchState(view, keys, start, u, frontier, cameFrom, cost, walk, pushed)
      invariant start == goal ==> frontier == [Entry(0, start)]
      invariant !reached
      invariant Closed(view, keys, frontier, cost)
      invariant goal in cost ==> goal in Queued(frontier)
      decreases |Slots(u) - pushed|, |frontier|
    {
      var found;
      found, frontier, cameFrom, cost, walk, pushed := Visit(view, keys, start, goal, u, frontier, cameFrom, cost, walk, pushed);
      if found {
        reached := true;
        break;
      }
    }
    if !reached {
      QueuedEmpty(frontier);
    }
  }

  /** An empty frontier queues no cell. */
  lemma QueuedEmpty(f: seq<Entry>)
    requires |f| == 0
    ensures Queued(f) == {}
  {
  }

  /** One round of the search loop: pop an entry of least priority; if it is
      the goal, stop; otherwise expand it. The search state is kept, and
      unless the goal was found the round made progress: a new (cell, cost)
      pair was pushed, or the frontier shrank. */
  method Visit(view: View, keys: set<DoorKeyType>, start: Position, goal: Position, ghost u: set<Position>,
               frontier: seq<Entry>, cameFrom: map<Position, Position>, cost: map<Position, nat>,
               ghost walk: map<Position, seq<Position>>, ghost pushed: set<(Position, nat)>)
    returns (found: bool, frontier': seq<Entry>, cameFrom': map<Position, Position>, cost': map<Position, nat>,
             ghost walk': map<Position, seq<Position>>, ghost pushed': set<(Position, nat)>)
    requires u == Cells(view, start) && |frontier| > 0
    requires SearchState(view, keys, start, u, frontier, cameFrom, cost, walk, pushed)
    requires Closed(view, keys, frontier, cost) && (goal in cost ==> goal in Queued(frontier))
    ensures SearchState(view, keys, start, u, frontier', cameFrom', cost', walk', pushed')
    ensures found ==> goal in cost'
    ensures frontier == [Entry(0, goal)] ==> found
    ensures !found ==> Closed(view, keys, frontier', cost') && (goal in cost' ==> goal in Queued(frontier'))
    ensures !found ==> pushed <= pushed'
    ensures !found ==> |Slots(u) - pushed'| < |Slots(u) - pushed| || (pushed' == pushed && |frontier'| < |frontier|)
  {
    ghost var m := MinIndex(frontier);
    assert Least(frontier, m);
    var i :| 0 <= i < |frontier| && Least(frontier, i);
    var current := frontier[i].position;
    var popped := frontier[..i] + frontier[i + 1..];
    PopKeeps(view, keys, start, u, frontier, i, cameFrom, cost, walk, pushed);
    if current == goal {
      return true, popped, cameFrom, cost, walk, pushed;
    }
    ghost var added;
    found := false;
    frontier', cameFrom', cost', walk', pushed', added := Expand(view, keys, start, goal, u, current, popped, cameFrom, cost, walk, pushed);
    if added.Some? {
      FewerSlots(Slots(u), pushed, pushed', added.value);
    }
    StaysClosed(view, keys, goal, current, frontier, popped, cost, frontier', cost');
  }

  /** Popping `current` and expanding it keeps every popped cell closed, and
      keeps a recorded goal queued. */
  lemma StaysClosed(view: View, keys: set<DoorKeyType>, goal: Position, current: Position,
                    frontier0: seq<Entry>, popped: seq<Entry>, cost0: map<Position, nat>,
                    frontier: seq<Entry>, cost: map<Position, nat>)
    requires Closed(view, keys, frontier0, cost0) && (goal in cost0 ==> goal in Queued(frontier0))
    requires Queued(frontier0) <= Queued(popped) + {current} && current != goal
    requires Grows(popped, cost0, frontier, cost) && NoWorse(cost0, cost)
    requires forall nb | nb in ValidNeighbors(view, keys, current) :: nb in cost
    ensures Closed(view, keys, frontier, cost) && (goal in cost ==> goal in Queued(frontier))
  {
    forall n, nb | n in cost && n !in Queued(frontier) && Step(view, keys, n, nb)
      ensures nb in cost
    {
      if n == current {
        assert nb in ValidNeighbors(view, keys, current);
      } else {
        assert n in cost0 && n !in Queued(frontier0);
      }
    }
  }

  /** Taking any entry out of the frontier keeps the search state. */
  lemma PopKeeps(view: View, keys: set<DoorKeyType>, start: Position, u: set<Position>,
                 frontier: seq<Entry>, i: nat, cameFrom: map<Position, Position>, cost: map<Position, nat>,
                 walk: map<Position, seq<Position>>, pushed: set<(Position, nat)>)
    requires SearchState(view, keys, start, u, frontier, cameFrom, cost, walk, pushed) && i < |frontier|
    ensures SearchState(view, keys, start, u, frontier[..i] + frontier[i + 1..], cameFrom, cost, walk, pushed)
    ensures Queued(frontier) <= Queued(frontier[..i] + frontier[i + 1..]) + {frontier[i].position}
  {
    var f := frontier[..i] + frontier[i + 1..];
    forall k | 0 <= k < |f|
      ensures f[k].position in cost
    {
      if k < i {
        assert f[k] == frontier[k];
      } else {
        assert f[k] == frontier[k + 1];
      }
    }
    forall k | 0 <= k < |frontier| && k != i
      ensures frontier[k].position in Queued(f)
    {
      if k < i {
        assert f[k] == frontier[k];
      } else {
        assert f[k - 1] == frontier[k];
      }
    }
  }

  /** Every cell recorded in `cost` is still recorded in `cost'`, at no
      greater cost. */
  predicate NoWorse(cost: map<Position, nat>, cost': map<Position, nat>)
  {
    cost.Keys <= cost'.Keys && forall q | q in cost :: cost'[q] <= cost[q]
  }

  /** One expansion: every valid neighbour of `current` whose cost improves
      is recorded with `current` as predecessor and pushed. The search state
      is kept, and either a (cell, cost) pair never pushed before was pushed
      (`added`) or nothing changed. */
  method Expand(view: View, keys: set<DoorKeyType>, start: Position, goal: Position, ghost u: set<Position>,
                current: Position, frontier: seq<Entry>, cameFrom: map<Position, Position>, cost: map<Position, nat>,
                ghost walk: map<Position, seq<Position>>, ghost pushed: set<(Position, nat)>)
    returns (frontier': seq<Entry>, cameFrom': map<Position, Position>, cost': map<Position, nat>,
             ghost walk': map<Position, seq<Position>>, ghost pushed': set<(Position, nat)>,
             ghost added: Option<(Position, nat)>)
    requires u == Cells(view, start)
    requires SearchState(view, keys, start, u, frontier, cameFrom, cost, walk, pushed) && current in cost
    ensures SearchState(view, keys, start, u, frontier', cameFrom', cost', walk', pushed')
    ensures pushed <= pushed'
    ensures added.None? ==> frontier' == frontier && pushed' == pushed
    ensures added.Some? ==> added.value in pushed' && added.value !in pushed
    ensures NoWorse(cost, cost') && current in cost' && cost'[current] == cost[current]
    ensures forall nb | nb in ValidNeighbors(view, keys, current) :: nb in cost' && cost'[nb] <= cost[current] + 1
    ensures Grows(frontier, cost, frontier', cost')
  {
    var neighbours := ValidNeighbors(view, keys, current);
    assert forall q | q in neighbours :: Step(view, keys, current, q) && q in u;
    frontier', cameFrom', cost', walk', pushed', added :=
      ExpandFrom(view, keys, start, goal, u, current, neighbours, 0, frontier, cameFrom, cost, walk, pushed);
    assert neighbours[0..] == neighbours;
  }

  /** The neighbour loop from the `j`-th neighbour on, as a recursion over
      the rest of the list: each is considered in turn. */
  method ExpandFrom(view: View, keys: set<DoorKeyType>, start: Position, goal: Position, ghost u: set<Position>,
                    current: Position, ns: seq<Position>, j: nat,
                    frontier: seq<Entry>, cameFrom: map<Position, Position>, cost: map<Position, nat>,
                    ghost walk: map<Position, seq<Position>>, ghost pushed: set<(Position, nat)>)
    returns (frontier': seq<Entry>, cameFrom': map<Position, Position>, cost': map<Position, nat>,
             ghost walk': map<Position, seq<Position>>, ghost pushed': set<(Position, nat)>,
             ghost added: Option<(Position, nat)>)
    requires SearchState(view, keys, start, u, frontier, cameFrom, cost, walk, pushed) && current in cost
    requires j <= |ns| && forall q | q in ns :: Step(view, keys, current, q) && q in u
    ensures SearchState(view, keys, start, u, frontier', cameFrom', cost', walk', pushed')
    ensures pushed <= pushed'
    ensures added.None? ==> frontier' == frontier && pushed' == pushed
    ensures added.Some? ==> added.value in pushed' && added.value !in pushed
    ensures NoWorse(cost, cost') && current in cost' && cost'[current] == cost[current]
    ensures forall q | q in ns[j..] :: q in cost' && cost'[q] <= cost[current] + 1
    ensures Grows(frontier, cost, frontier', cost')
    decreases |ns| - j
  {
    if j == |ns| {
      return frontier, cameFrom, cost, walk, pushed, None;
    }
    assert ns[j] in ns;
    var f1, c1, k1;
    ghost var w1, p1, a1;
    f1, c1, k1, w1, p1, a1 := Consider(view, keys, start, goal, u, current, ns[j], frontier, cameFrom, cost, walk, pushed);
    ghost var a2;
    frontier', cameFrom', cost', walk', pushed', a2 := ExpandFrom(view, keys, start, goal, u, current, ns, j + 1, f1, c1, k1, w1, p1);
    added := if a2.Some? then a2 else a1;
    StillNoWorse(cost, k1, cost', ns, j, cost[current] + 1);
  }

  /** Lowering costs again keeps them no worse than at the start; a cell
      within `bound` after the first lowering, and every cell after it within
      `bound` after the second, are all within `bound` at the end. */
  lemma StillNoWorse(cost: map<Position, nat>, mid: map<Position, nat>, cost': map<Position, nat>,
                     ns: seq<Position>, j: nat, bound: nat)
    requires NoWorse(cost, mid) && NoWorse(mid, cost') && j < |ns|
    requires ns[j] in mid && mid[ns[j]] <= bound
    requires forall q | q in ns[j + 1..] :: q in cost' && cost'[q] <= bound
    ensures NoWorse(cost, cost')
    ensures forall q | q in ns[j..] :: q in cost' && cost'[q] <= bound
  {
    assert ns[j..] == [ns[j]] + ns[j + 1..];
  }

  /** The body of the neighbour loop: when going through `current` improves
      the neighbour's cost, record the cost and the predecessor and push the
      neighbour with priority cost plus Manhattan distance to the goal. The
      search state is kept, and either a (cell, cost) pair never pushed
      before was pushed (`added`) or nothing changed. */
  method Consider(view: View, keys: set<DoorKeyType>, start: Position, goal: Position, ghost u: set<Position>,
                  current: Position, neighbour: Position,
                  frontier: seq<Entry>, cameFrom: map<Position, Position>, cost: map<Position, nat>,
                  ghost walk: map<Position, seq<Position>>, ghost pushed: set<(Position, nat)>)
    returns (frontier': seq<Entry>, cameFrom': map<Position, Position>, cost': map<Position, nat>,
             ghost walk': map<Position, seq<Position>>, ghost pushed': set<(Position, nat)>,
             ghost added: Option<(Position, nat)>)
    requires SearchState(view, keys, start, u, frontier, cameFrom, cost, walk, pushed) && current in cost
    requires Step(view, keys, current, neighbour) && neighbour in u
    ensures SearchState(view, keys, start, u, frontier', cameFrom', cost', walk', pushed') && current in cost'
    ensures pushed <= pushed'
    ensures added.None? ==> frontier' == frontier && pushed' == pushed
    ensures added.Some? ==> added.value in pushed' && added.value !in pushed
    ensures NoWorse(cost, cost') && cost'[current] == cost[current]
    ensures neighbour in cost' && cost'[neighbour] <= cost[current] + 1
    ensures Grows(frontier, cost, frontier', cost')
  {
    if neighbour !in cost || cost[current] + 1 < cost[neighbour] {
      var priority := cost[current] + 1 + ManhattanDistance(neighbour, goal);
      Relax(view, keys, start, u, frontier, cameFrom, cost, walk, pushed, current, neighbour, priority);
      QueuedPush(frontier, Entry(priority, neighbour));
      return frontier + [Entry(priority, neighbour)], cameFrom[neighbour := current], cost[neighbour := cost[current] + 1],
             walk[neighbour := walk[current] + [neighbour]], pushed + {(neighbour, cost[current] + 1)},
             Some((neighbour, cost[current] + 1));
    }
    return frontier, cameFrom, cost, walk, pushed, None;
  }

  /** The path rebuilding of `a_star_path`: from the goal back along the
      predecessor links to the start (the source pushes and then reverses;
      prepending gives the same order). Costs strictly rise along the result,
      so it is a valid plan. */
  method Reconstruct(view: View, keys: set<DoorKeyType>, start: Position, goal: Position,
                     cameFrom: map<Position, Position>, cost: map<Position, nat>)
    returns (path: seq<Position>)
    requires Links(view, keys, start, cameFrom, cost) && goal in cost
    ensures ValidPlan(view, keys, start, goal, path)
    ensures start == goal ==> path == [start]
  {
    var current := goal;
    path := [goal];
    while current != start
      invariant current in cost && |path| > 0 && path[0] == current && path[|path| - 1] == goal
      invariant forall k | 0 <= k < |path| :: path[k] in cost
      invariant IsPath(view, keys, path)
      invariant forall k, l | 0 <= k < l < |path| :: cost[path[k]] < cost[path[l]]
      invariant start == goal ==> path == [start]
      decreases cost[current]
    {
      current := cameFrom[current];
      path := [current] + path;
    }
  }

  /** `a_star_path`. A path found runs from start to goal by legal steps
      through distinct cells, at least as many as the Manhattan distance; a
      goal that is the start yields the one-cell path; a goal the planner may
      not step onto is never reached from elsewhere. A path is found exactly
      when some sequence of legal steps leads to the goal. */
  method AStarPath(view: View, keys: set<DoorKeyType>, start: Position, goal: Position)
    returns (r: Option<seq<Position>>)
    ensures r.Some? ==> ValidPlan(view, keys, start, goal, r.value)
    ensures r.Some? ==> ManhattanDistance(start, goal) <= |r.value| - 1
    ensures start == goal ==> r == Some([start])
    ensures start != goal && !Passable(view, keys, goal) ==> r.None?
    ensures r.Some? <==> Reachable(view, keys, start, goal)
  {
    var reached, cameFrom, cost := Search(view, keys, start, goal);
    if !reached {
      Unreachable(view, keys, start, goal, cost);
      return None;
    }
    var path := Reconstruct(view, keys, start, goal, cameFrom, cost);
    PathLength(view, keys, path);
    if start != goal {
      assert Step(view, keys, path[|path| - 2], path[|path| - 1]);
    }
    assert IsPath(view, keys, path);
    return Some(path);
  }

  /** A closed region around the start that misses the goal rules out every
      path to it. */
  lemma Unreachable(view: View, keys: set<DoorKeyType>, start: Position, goal: Position, cost: map<Position, nat>)
    requires start in cost && goal !in cost
    requires forall n, nb | n in cost && Step(view, keys, n, nb) :: nb in cost
    ensures !Reachable(view, keys, start, goal)
  {
    if Reachable(view, keys, start, goal) {
      var p :| |p| > 0 && p[0] == start && p[|p| - 1] == goal && IsPath(view, keys, p);
      PathStaysInRegion(view, keys, cost.Keys, p);
    }
  }

  // ---------------------------------------------------------------- targets

  /** `get_keys_held`: the colours of the keys in the inventory. */
  function GetKeysHeld(inventory: seq<Item>): (r: set<DoorKeyType>)
    ensures forall k :: k in r <==> Key(k) in inventory
  {
    var r := set i | 0 <= i < |inventory| && inventory[i].Key? :: inventory[i].keyType;
    assert forall k | Key(k) in inventory :: k in r by {
      forall k | Key(k) in inventory
        ensures k in r
      {
        var i :| 0 <= i < |inventory| && inventory[i] == Key(k);
      }
    }
    r
  }

  /** `find_chips`: every chip cell, once each, in row-major order. */
  function FindChips(view: View): (r: seq<Position>)
    ensures forall p: Position :: p in r <==> IsValidPos(view.items, p) && AtPos(view.items, p) == Some(Chip)
    ensures forall k, l | 0 <= k < l < |r| :: Rank(view.items, r[k]) < Rank(view.items, r[l])
  {
    Positions(view.items, (c: Option<Item>) => c == Some(Chip))
  }

  /** `find_goals`: every goal cell, once each, in row-major order. */
  function FindGoals(view: View): (r: seq<Position>)
    ensures forall p: Position :: p in r <==> IsValidPos(view.items, p) && AtPos(view.items, p) == Some(Goal)
    ensures forall k, l | 0 <= k < l < |r| :: Rank(view.items, r[k]) < Rank(view.items, r[l])
  {
    Positions(view.items, (c: Option<Item>) => c == Some(Goal))
  }

  /** The colour of the key lying on `p`, if a key lies there. */
  function KeyColour(view: View, p: Position): (r: Option<DoorKeyType>)
    ensures r.Some? <==> IsValidPos(view.items, p) && AtPos(view.items, p).Some? && AtPos(view.items, p).value.Key?
    ensures r.Some? ==> AtPos(view.items, p) == Some(Key(r.value))
  {
    if IsValidPos(view.items, p) && AtPos(view.items, p).Some? && AtPos(view.items, p).value.Key?
    then Some(AtPos(view.items, p).value.keyType)
    else None
  }

  /** The cells holding a key of colour `k`, in row-major order. */
  function KeyCells(view: View, k: DoorKeyType): (r: seq<Position>)
    ensures forall p: Position :: p in r <==> KeyColour(view, p) == Some(k)
    ensures forall a, b | 0 <= a < b < |r| :: Rank(view.items, r[a]) < Rank(view.items, r[b])
  {
    Positions(view.items, (c: Option<Item>) => c == Some(Key(k)))
  }

  /** `find_keys`: for each colour lying on the ground, its key cells in
      row-major order; colours with no key on the ground have no entry. */
  function FindKeys(view: View): (r: map<DoorKeyType, seq<Position>>)
    ensures forall k | k in r :: |r[k]| > 0
    ensures forall k, p: Position :: (k in r && p in r[k]) <==> KeyColour(view, p) == Some(k)
    ensures forall k, a, b | k in r && 0 <= a < b < |r[k]| :: Rank(view.items, r[k][a]) < Rank(view.items, r[k][b])
  {
    var r := map k | k in {Red, Green, Blue, Yellow} && |KeyCells(view, k)| > 0 :: KeyCells(view, k);
    forall k, p: Position
      ensures (k in r && p in r[k]) <==> KeyColour(view, p) == Some(k)
    {
      if KeyColour(view, p) == Some(k) {
        assert p in KeyCells(view, k);
        assert k.Red? || k.Green? || k.Blue? || k.Yellow?;
      }
    }
    r
  }

  /** A cell holding a key whose colour is not held. */
  predicate UnheldKeyAt(view: View, keys: set<DoorKeyType>, p: Position)
  {
    KeyColour(view, p).Some? && KeyColour(view, p).value !in keys
  }

  /** An iteration order of the key map: every colour, each once. */
  predicate ColourOrder(order: seq<DoorKeyType>)
  {
    Distinct(order) && forall k: DoorKeyType :: k in order
  }

  /** The place of the first `k` in `order`; |order| when it is absent. */
  function Slot(order: seq<DoorKeyType>, k: DoorKeyType): (i: nat)
    ensures i <= |order| && (i < |order| <==> k in order)
    ensures i < |order| ==> order[i] == k
    ensures forall j | 0 <= j < i :: order[j] != k
  {
    if |order| == 0 then 0
    else if order[0] == k then 0
    else
      var i := Slot(order[1..], k);
      assert forall j | 1 <= j < i + 1 :: order[j] == order[1..][j - 1];
      i + 1
  }

  /** In an order without repeats, each colour's place is where it stands. */
  lemma SlotOf(order: seq<DoorKeyType>, j: nat)
    requires Distinct(order) && j < |order|
    ensures Slot(order, order[j]) == j
  {
  }

  /** Key cell `p` is tried before key cell `q`: its colour comes earlier in
      `order`, or the colour is the same and `p` comes first in row-major
      order. */
  predicate KeyBefore(view: View, order: seq<DoorKeyType>, p: Position, q: Position)
  {
    && KeyColour(view, p).Some? && KeyColour(view, q).Some?
    && (|| Slot(order, KeyColour(view, p).value) < Slot(order, KeyColour(view, q).value)
        || (KeyColour(view, p) == KeyColour(view, q) && Rank(view.items, p) < Rank(view.items, q)))
  }

  /** The loop of `plan_to_nearest_reachable_key` over the key map from the
      `n`-th colour of its iteration order `order` on: the cells of each
      colour not held, a colour at a time. */
  function KeyTargetsFrom(view: View, keyCells: map<DoorKeyType, seq<Position>>, keys: set<DoorKeyType>,
                          order: seq<DoorKeyType>, n: nat): (r: seq<Position>)
    requires keyCells == FindKeys(view) && n <= |order|
    ensures forall p :: p in r <==> exists j :: n <= j < |order| && order[j] !in keys && KeyColour(view, p) == Some(order[j])
    ensures Distinct(order) ==> forall a, b | 0 <= a < b < |r| :: KeyBefore(view, order, r[a], r[b])
    decreases |order| - n
  {
    if n == |order| then []
    else
      var k := order[n];
      var block := if k in keyCells && k !in keys then keyCells[k] else [];
      var rest := KeyTargetsFrom(view, keyCells, keys, order, n + 1);
      TargetsJoin(view, keys, order, n, block, rest);
      block + rest
  }

  /** The cells of the `n`-th colour followed by those of the later colours
      keep the membership and the order `KeyTargetsFrom` promises. */
  lemma TargetsJoin(view: View, keys: set<DoorKeyType>, order: seq<DoorKeyType>, n: nat,
                    block: seq<Position>, rest: seq<Position>)
    requires n < |order|
    requires forall p :: p in block <==> order[n] !in keys && KeyColour(view, p) == Some(order[n])
    requires forall a, b | 0 <= a < b < |block| :: Rank(view.items, block[a]) < Rank(view.items, block[b])
    requires forall p :: p in rest <==> exists j :: n + 1 <= j < |order| && order[j] !in keys && KeyColour(view, p) == Some(order[j])
    requires Distinct(order) ==> forall a, b | 0 <= a < b < |rest| :: KeyBefore(view, order, rest[a], rest[b])
    ensures forall p :: p in block + rest <==>
              exists j :: n <= j < |order| && order[j] !in keys && KeyColour(view, p) == Some(order[j])
    ensures Distinct(order) ==> forall a, b | 0 <= a < b < |block + rest| :: KeyBefore(view, order, (block + rest)[a], (block + rest)[b])
  {
    forall p
      ensures p in block + rest <==> exists j :: n <= j < |order| && order[j] !in keys && KeyColour(view, p) == Some(order[j])
    {
      if exists j :: n <= j < |order| && order[j] !in keys && KeyColour(view, p) == Some(order[j]) {
        var j :| n <= j < |order| && order[j] !in keys && KeyColour(view, p) == Some(order[j]);
        if j == n {
          assert p in block;
        } else {
          assert p in rest;
        }
      }
    }
    if Distinct(order) {
      var s := block + rest;
      forall a, b | 0 <= a < b < |s|
        ensures KeyBefore(view, order, s[a], s[b])
      {
        if b < |block| {
          assert s[a] == block[a] && s[b] == block[b];
          assert s[a] in block && s[b] in block;
        } else if a >= |block| {
          assert s[a] == rest[a - |block|] && s[b] == rest[b - |block|];
        } else {
          assert s[a] == block[a] && s[b] == rest[b - |block|];
          assert s[a] in block && s[b] in rest;
          var j :| n + 1 <= j < |order| && order[j] !in keys && KeyColour(view, s[b]) == Some(order[j]);
          SlotOf(order, n);
          SlotOf(order, j);
        }
      }
    }
  }

  /** The key cells `plan_to_nearest_reachable_key` tries, in the order it
      tries them: colour by colour in the key map's iteration order `order`,
      passing over colours held, each colour's cells in row-major order, no
      cell twice. */
  function KeyTargets(view: View, keys: set<DoorKeyType>, order: seq<DoorKeyType>): (r: seq<Position>)
    ensures forall p :: p in r <==> UnheldKeyAt(view, keys, p) && KeyColour(view, p).value in order
    ensures Distinct(order) ==> forall a, b | 0 <= a < b < |r| :: KeyBefore(view, order, r[a], r[b])
    ensures Distinct(order) ==> Distinct(r)
  {
    var r := KeyTargetsFrom(view, FindKeys(view), keys, order, 0);
    assert forall p :: p in r <==> UnheldKeyAt(view, keys, p) && KeyColour(view, p).value in order by {
      forall p
        ensures p in r <==> UnheldKeyAt(view, keys, p) && KeyColour(view, p).value in order
      {
        if UnheldKeyAt(view, keys, p) && KeyColour(view, p).value in order {
          var j :| 0 <= j < |order| && order[j] == KeyColour(view, p).value;
        }
      }
    }
    r
  }

  // --------------------------------------------------------------- planning

  /** Plan `i` is present, no present plan is shorter, and no earlier one is
      as short. */
  ghost predicate FirstShortest(plans: seq<Option<seq<Position>>>, i: nat)
  {
    && i < |plans| && plans[i].Some?
    && (forall j | 0 <= j < |plans| && plans[j].Some? :: |plans[i].value| <= |plans[j].value|)
    && (forall j | 0 <= j < i && plans[j].Some? :: |plans[i].value| < |plans[j].value|)
  }

  /** `r` is what `plan_to_nearest_target` answers for `targets` when the
      searches answered `plans`: a search succeeds exactly for a reachable
      target and then gives a valid plan (the one-cell plan for the start
      itself); the answer is absent exactly when every search failed, and
      otherwise is the first shortest plan found. */
  ghost predicate Nearest(view: View, keys: set<DoorKeyType>, start: Position, targets: seq<Position>,
                          plans: seq<Option<seq<Position>>>, r: Option<seq<Position>>)
  {
    && |plans| == |targets|
    && (forall i | 0 <= i < |plans| :: plans[i].Some? <==> Reachable(view, keys, start, targets[i]))
    && (forall i | 0 <= i < |plans| && plans[i].Some? :: ValidPlan(view, keys, start, targets[i], plans[i].value))
    && (forall i | 0 <= i < |plans| :: start == targets[i] ==> plans[i] == Some([start]))
    && (r.None? <==> forall i | 0 <= i < |plans| :: plans[i].None?)
    && (r.Some? ==> exists i :: 0 <= i < |plans| && plans[i] == r && FirstShortest(plans, i))
  }

  /** `plan_to_nearest_target`: A* to each target in turn, keeping a plan
      only when strictly shorter than the best so far. No plan comes back
      exactly when no target is reachable (in particular for no targets);
      a plan that comes back leads to one of the targets; a target the agent
      stands on gives the one-cell plan. */
  method PlanToNearestTarget(view: View, keys: set<DoorKeyType>, start: Position, targets: seq<Position>)
    returns (r: Option<seq<Position>>, ghost plans: seq<Option<seq<Position>>>)
    ensures Nearest(view, keys, start, targets, plans, r)
    ensures r.None? <==> forall i | 0 <= i < |targets| :: !Reachable(view, keys, start, targets[i])
    ensures r.Some? ==> exists i :: 0 <= i < |targets| && ValidPlan(view, keys, start, targets[i], r.value)
    ensures start in targets ==> r == Some([start])
  {
    plans := [];
    if |targets| == 0 {
      return None, plans;
    }
    r := None;
    ghost var best := 0;
    var t := 0;
    while t < |targets|
      invariant 0 <= t <= |targets| && |plans| == t
      invariant forall i | 0 <= i < t :: plans[i].Some? <==> Reachable(view, keys, start, targets[i])
      invariant forall i | 0 <= i < t && plans[i].Some? :: ValidPlan(view, keys, start, targets[i], plans[i].value)
      invariant forall i | 0 <= i < t :: start == targets[i] ==> plans[i] == Some([start])
      invariant r.None? <==> forall i | 0 <= i < t :: plans[i].None?
      invariant r.Some? ==> best < t && plans[best] == r && FirstShortest(plans, best)
    {
      var plan := AStarPath(view, keys, start, targets[t]);
      if plan.Some? && (r.None? || |plan.value| < |r.value|) {
        r := plan;
        best := t;
      }
      plans := plans + [plan];
      t := t + 1;
    }
    NearestMeans(view, keys, start, targets, plans, r);
  }

  /** What a nearest-target answer tells the caller: it is absent exactly
      when no target is reachable, it is a valid plan to one of the targets,
      and it is the one-cell plan when the agent stands on a target. */
  lemma NearestMeans(view: View, keys: set<DoorKeyType>, start: Position, targets: seq<Position>,
                     plans: seq<Option<seq<Position>>>, r: Option<seq<Position>>)
    requires Nearest(view, keys, start, targets, plans, r)
    ensures r.None? <==> forall i | 0 <= i < |targets| :: !Reachable(view, keys, start, targets[i])
    ensures r.Some? ==> exists i :: 0 <= i < |targets| && ValidPlan(view, keys, start, targets[i], r.value)
    ensures start in targets ==> r == Some([start])
  {
    if start in targets {
      var i :| 0 <= i < |targets| && targets[i] == start;
      assert plans[i] == Some([start]);
      var b :| 0 <= b < |plans| && plans[b] == r && FirstShortest(plans, b);
      assert |r.value| <= 1;
      assert ValidPlan(view, keys, start, targets[b], r.value);
    }
  }

  /** Some chip lies on the map. */
  ghost predicate ChipsLeft(view: View)
  {
    exists q: Position :: IsValidPos(view.items, q) && AtPos(view.items, q) == Some(Chip)
  }

  /** What `get_action` heads for first: a chip while any lies on the map,
      a goal once none does. */
  ghost predicate TreasureAt(view: View, t: Position)
  {
    IsValidPos(view.items, t) && AtPos(view.items, t) == (if ChipsLeft(view) then Some(Chip) else Some(Goal))
  }

  /** The first targets of `get_action`: the chip cells when there are any,
      else the goal cells, in row-major order. */
  function TreasureTargets(view: View): (r: seq<Position>)
    ensures forall p :: p in r <==> TreasureAt(view, p)
    ensures forall a, b | 0 <= a < b < |r| :: Rank(view.items, r[a]) < Rank(view.items, r[b])
  {
    var chips := FindChips(view);
    assert |chips| > 0 <==> ChipsLeft(view) by {
      if |chips| > 0 {
        assert chips[0] in chips;
      }
      if ChipsLeft(view) {
        var q :| IsValidPos(view.items, q) && AtPos(view.items, q) == Some(Chip);
        assert q in chips;
      }
    }
    if |chips| > 0 then chips else FindGoals(view)
  }

  /** The first choice of `get_action`: the nearest-target plan to the
      chips while any remain, else to the goals. No plan comes back exactly
      when no such cell is reachable; a plan found is valid and leads to
      one. */
  method PlanToTreasure(view: View, keys: set<DoorKeyType>)
    returns (plan: Option<seq<Position>>, ghost plans: seq<Option<seq<Position>>>)
    ensures Nearest(view, keys, view.location, TreasureTargets(view), plans, plan)
    ensures plan.None? <==> forall t | TreasureAt(view, t) :: !Reachable(view, keys, view.location, t)
    ensures plan.Some? ==> |plan.value| > 0
    ensures plan.Some? ==> var t := plan.value[|plan.value| - 1];
              ValidPlan(view, keys, view.location, t, plan.value) && TreasureAt(view, t)
  {
    var targets := TreasureTargets(view);
    plan, plans := PlanToNearestTarget(view, keys, view.location, targets);
    if plan.Some? {
      ghost var i :| 0 <= i < |targets| && ValidPlan(view, keys, view.location, targets[i], plan.value);
      assert plan.value[|plan.value| - 1] == targets[i] && targets[i] in targets;
    } else {
      forall t | TreasureAt(view, t)
        ensures !Reachable(view, keys, view.location, t)
      {
        var i :| 0 <= i < |targets| && targets[i] == t;
      }
    }
  }

  /** `plan_to_nearest_reachable_key`: the nearest-target plan over the cells
      of keys whose colour is not held, taken colour by colour in the key
      map's iteration order `order`. No plan comes back exactly when no such
      key is reachable; a plan found is valid and leads to one. */
  method PlanToNearestReachableKey(view: View, keys: set<DoorKeyType>, start: Position, order: seq<DoorKeyType>)
    returns (r: Option<seq<Position>>, ghost plans: seq<Option<seq<Position>>>)
    requires ColourOrder(order)
    ensures Nearest(view, keys, start, KeyTargets(view, keys, order), plans, r)
    ensures r.None? <==> forall t | UnheldKeyAt(view, keys, t) :: !Reachable(view, keys, start, t)
    ensures r.Some? ==> |r.value| > 0
    ensures r.Some? ==> var t := r.value[|r.value| - 1];
              ValidPlan(view, keys, start, t, r.value) && UnheldKeyAt(view, keys, t)
  {
    var targets := KeyTargets(view, keys, order);
    r, plans := PlanToNearestTarget(view, keys, start, targets);
    if r.Some? {
      ghost var i :| 0 <= i < |targets| && ValidPlan(view, keys, start, targets[i], r.value);
      assert r.value[|r.value| - 1] == targets[i] && targets[i] in targets;
    } else {
      forall t | UnheldKeyAt(view, keys, t)
        ensures !Reachable(view, keys, start, t)
      {
        assert KeyColour(view, t).value in order;
        var i :| 0 <= i < |targets| && targets[i] == t;
      }
    }
  }

  // ------------------------------------------------------------------ acting

  /** A plan `get_action` adopts: more than the agent's own cell. */
  predicate Long(plan: Option<seq<Position>>)
  {
    plan.Some? && |plan.value| > 1
  }

  /** Adopting `plan`: the queue becomes the plan without its first cell
      (where the agent stands), and its next cell is popped at once and
      turned into the action. */
  predicate Adopted(current: Position, plan: seq<Position>, action: Action, queue: seq<Position>)
  {
    |plan| > 1 && action == PositionToAction(current, plan[1]) && queue == plan[2..]
  }

  /** The decision of `get_action` for an agent whose queue is
      `agent.currentPlan`, given the answers of its searches: the chip or
      goal search `treasure` and the key search `keyPlan`. A non-empty queue
      is followed: its front cell is popped and stepped towards. Otherwise
      a treasure plan of more than one cell is adopted; failing that a key
      plan of more than one cell; failing both the agent waits with an
      empty queue. The key search is made only when the treasure plan is
      not adopted. */
  ghost predicate Decision(agent: PlanningAgent, view: View, order: seq<DoorKeyType>, action: Action,
                           agent': PlanningAgent, treasure: Option<seq<Position>>, keyPlan: Option<seq<Position>>)
  {
    var keys := GetKeysHeld(view.agentState.inventory);
    && agent'.id == agent.id
    && if |agent.currentPlan| > 0 then
         action == PositionToAction(view.location, agent.currentPlan[0]) && agent'.currentPlan == agent.currentPlan[1..]
       else
         && (exists plans :: Nearest(view, keys, view.location, TreasureTargets(view), plans, treasure))
         && (!Long(treasure) ==> exists plans :: Nearest(view, keys, view.location, KeyTargets(view, keys, order), plans, keyPlan))
         && if Long(treasure) then Adopted(view.location, treasure.value, action, agent'.currentPlan)
            else if Long(keyPlan) then Adopted(view.location, keyPlan.value, action, agent'.currentPlan)
            else action == Wait && agent'.currentPlan == []
  }

  /** `action` and the updated agent are a decision `get_action` can make. */
  ghost predicate Chooses(agent: PlanningAgent, view: View, order: seq<DoorKeyType>, action: Action, agent': PlanningAgent)
  {
    exists treasure, keyPlan :: Decision(agent, view, order, action, agent', treasure, keyPlan)
  }

  /** Adopting a plan of more than one cell. */
  function Adopt(agent: PlanningAgent, current: Position, plan: seq<Position>): (r: (Action, PlanningAgent))
    requires |plan| > 1
    ensures r.1.id == agent.id && Adopted(current, plan, r.0, r.1.currentPlan)
  {
    var queue := plan[1..];
    (PositionToAction(current, queue[0]), agent.(currentPlan := queue[1..]))
  }

  /** `get_action` (`order` is the key map's iteration order). It decides as
      `Decision` says, with `treasure` and `keyPlan` the searches' answers.
      The plan adopted (`chosen`, empty when none is) runs from the agent's
      cell to a chip, goal or unheld key, and the action returned moves the
      agent onto its second cell. */
  method GetAction(agent: PlanningAgent, view: View, order: seq<DoorKeyType>)
    returns (action: Action, agent': PlanningAgent,
             ghost treasure: Option<seq<Position>>, ghost keyPlan: Option<seq<Position>>, ghost chosen: seq<Position>)
    requires ColourOrder(order)
    ensures Decision(agent, view, order, action, agent', treasure, keyPlan)
    ensures action.Move? ==> action.dx == 0 || action.dy == 0
    ensures chosen == if |agent.currentPlan| > 0 then []
                      else if Long(treasure) then treasure.value
                      else if Long(keyPlan) then keyPlan.value
                      else []
    ensures chosen != [] ==>
              var keys := GetKeysHeld(view.agentState.inventory);
              var t := chosen[|chosen| - 1];
              && ValidPlan(view, keys, view.location, t, chosen)
              && (TreasureAt(view, t) || UnheldKeyAt(view, keys, t))
              && action.Move? && MoveTarget(view.terrain, view.location, action.dx, action.dy) == Some(chosen[1])
  {
    var current := view.location;
    var keys := GetKeysHeld(view.agentState.inventory);
    chosen, treasure, keyPlan := [], None, None;
    if |agent.currentPlan| > 0 {
      return PositionToAction(current, agent.currentPlan[0]), agent.(currentPlan := agent.currentPlan[1..]), treasure, keyPlan, chosen;
    }
    var plan;
    ghost var plans;
    plan, plans := PlanToTreasure(view, keys);
    treasure := plan;
    if plan.Some? && |plan.value| > 1 {
      chosen := plan.value;
      Moves(view, keys, chosen);
      action, agent' := Adopt(agent, current, plan.value).0, Adopt(agent, current, plan.value).1;
      return;
    }
    plan, plans := PlanToNearestReachableKey(view, keys, current, order);
    keyPlan := plan;
    if plan.Some? && |plan.value| > 1 {
      chosen := plan.value;
      Moves(view, keys, chosen);
      action, agent' := Adopt(agent, current, plan.value).0, Adopt(agent, current, plan.value).1;
      return;
    }
    return Wait, agent.(currentPlan := []), treasure, keyPlan, chosen;
  }

  /** The first step of a plan of more than one cell is a move onto its
      second cell. */
  lemma Moves(view: View, keys: set<DoorKeyType>, plan: seq<Position>)
    requires |plan| > 1 && IsPath(view, keys, plan)
    ensures var a := PositionToAction(plan[0], plan[1]);
            a.Move? && MoveTarget(view.terrain, plan[0], a.dx, a.dy) == Some(plan[1])
  {
    assert Step(view, keys, plan[0], plan[1]);
    PositionToActionReaches(view.terrain, plan[0], plan[1]);
  }

  /** The ids a turn visits that act: those of `order` in `ids`, in order. */
  function Actors(ids: set<EntityId>, order: seq<EntityId>): (r: seq<EntityId>)
    ensures |r| <= |order|
    ensures forall i | 0 <= i < |r| :: r[i] in ids && r[i] in order
    ensures forall id | id in ids && id in order :: id in r
    ensures Distinct(order) ==> Distinct(r)
  {
    if |order| == 0 then []
    else
      var rest := Actors(ids, order[1..]);
      assert forall i | 0 <= i < |rest| :: rest[i] in order[1..];
      (if order[0] in ids then [order[0]] else []) + rest
  }

  /** The steps were taken by `actors`, one each, in that order, from the
      first on (possibly fewer steps than actors). */
  ghost predicate Follows(steps: seq<(EntityId, Action)>, actors: seq<EntityId>)
  {
    |steps| <= |actors| && forall i | 0 <= i < |steps| :: steps[i].0 == actors[i]
  }

  /** Steps taken by `a1`, one each, followed by steps taken by `a2`. */
  lemma FollowsJoin(s1: seq<(EntityId, Action)>, s2: seq<(EntityId, Action)>, a1: seq<EntityId>, a2: seq<EntityId>)
    requires Follows(s1, a1) && |s1| == |a1| && Follows(s2, a2)
    ensures Follows(s1 + s2, a1 + a2)
  {
    forall i | 0 <= i < |s1 + s2|
      ensures (s1 + s2)[i].0 == (a1 + a2)[i]
    {
      if i >= |s1| {
        assert (s1 + s2)[i] == s2[i - |s1|] && (a1 + a2)[i] == a2[i - |a1|];
      }
    }
  }

  /** Each step was chosen by its agent's planner: step i's agent, planner
      `before[i]`, looked at the world the earlier steps left, chose that
      step's action and became `after[i]`. */
  ghost predicate Driven(env: Environment, steps: seq<(EntityId, Action)>, before: seq<PlanningAgent>,
                         after: seq<PlanningAgent>, keyOrder: seq<DoorKeyType>)
    requires Shaped(env)
    decreases |steps|
  {
    && |before| == |steps| && |after| == |steps|
    && (|steps| > 0 ==>
          && steps[0].0 in env.agents
          && Chooses(before[0], ViewOf(env, steps[0].0), keyOrder, steps[0].1, after[0])
          && Driven(ProcessAction(env, steps[0].0, steps[0].1).0, steps[1..], before[1..], after[1..], keyOrder))
  }

  /** One agent's go: its planner chooses from its view of the world, and
      the world resolves that action. */
  method Act(env: Environment, id: EntityId, planner: PlanningAgent, keyOrder: seq<DoorKeyType>)
    returns (env': Environment, result: ActionResult, planner': PlanningAgent, action: Action)
    requires Shaped(env) && id in env.agents && ColourOrder(keyOrder)
    ensures Chooses(planner, ViewOf(env, id), keyOrder, action, planner')
    ensures (env', result) == ProcessAction(env, id, action)
    ensures action.Move? ==> action.dx == 0 || action.dy == 0
  {
    ghost var treasure, keyPlan, chosen;
    action, planner', treasure, keyPlan, chosen := GetAction(planner, ViewOf(env, id), keyOrder);
    var outcome := ProcessAction(env, id, action);
    env', result := outcome.0, outcome.1;
  }

  /** The ids that took a step. */
  function StepIds(steps: seq<(EntityId, Action)>): set<EntityId>
  {
    set i | 0 <= i < |steps| :: steps[i].0
  }

  /** The agents of two runs of steps, one after the other, are those of
      either run. */
  lemma StepIdsJoin(s1: seq<(EntityId, Action)>, s2: seq<(EntityId, Action)>)
    ensures StepIds(s1 + s2) == StepIds(s1) + StepIds(s2)
  {
    var s := s1 + s2;
    forall id | id in StepIds(s1) + StepIds(s2)
      ensures id in StepIds(s)
    {
      if id in StepIds(s1) {
        var i :| 0 <= i < |s1| && s1[i].0 == id;
        assert s[i] == s1[i];
      } else {
        var j :| 0 <= j < |s2| && s2[j].0 == id;
        assert s[|s1| + j] == s2[j];
      }
    }
    forall id | id in StepIds(s)
      ensures id in StepIds(s1) + StepIds(s2)
    {
      var i :| 0 <= i < |s| && s[i].0 == id;
      if i < |s1| {
        assert s[i] == s1[i];
      } else {
        assert s[i] == s2[i - |s1|];
      }
    }
  }

  /** The planners before and after some steps: step i's agent had planner
      `before[i]` at the start and `after[i]` at the end, and every planner
      whose agent took no step is left alone. */
  ghost predicate Kept(planners: map<EntityId, PlanningAgent>, steps: seq<(EntityId, Action)>,
                       before: seq<PlanningAgent>, after: seq<PlanningAgent>, planners': map<EntityId, PlanningAgent>)
  {
    && |before| == |steps| && |after| == |steps|
    && planners'.Keys == planners.Keys
    && (forall i | 0 <= i < |steps| ::
          steps[i].0 in planners && before[i] == planners[steps[i].0] && planners'[steps[i].0] == after[i])
    && (forall id | id in planners && id !in StepIds(steps) :: planners'[id] == planners[id])
  }

  /** Two runs of steps by different agents, one after the other, keep the
      planners as each run does. */
  lemma KeptJoin(p0: map<EntityId, PlanningAgent>, s1: seq<(EntityId, Action)>, b1: seq<PlanningAgent>, a1: seq<PlanningAgent>,
                 p1: map<EntityId, PlanningAgent>, s2: seq<(EntityId, Action)>, b2: seq<PlanningAgent>, a2: seq<PlanningAgent>,
                 p2: map<EntityId, PlanningAgent>)
    requires Kept(p0, s1, b1, a1, p1) && Kept(p1, s2, b2, a2, p2) && StepIds(s1) !! StepIds(s2)
    ensures Kept(p0, s1 + s2, b1 + b2, a1 + a2, p2)
  {
    var s, b, a := s1 + s2, b1 + b2, a1 + a2;
    StepIdsJoin(s1, s2);
    forall i | 0 <= i < |s|
      ensures s[i].0 in p0 && b[i] == p0[s[i].0] && p2[s[i].0] == a[i]
    {
      if i < |s1| {
        assert s[i] == s1[i] && b[i] == b1[i] && a[i] == a1[i];
        assert s1[i].0 in StepIds(s1);
      } else {
        var j := i - |s1|;
        assert s[i] == s2[j] && b[i] == b2[j] && a[i] == a2[j];
        assert s2[j].0 in StepIds(s2);
      }
    }
  }

  /** The turn as the loop of `process_turn` runs it over `order`, the
      agent map's iteration order, with planners `planners` and key map
      order `keyOrder`: an id with no registered agent or no planner is
      passed over; otherwise its planner `before[0]` sees the id's view of
      the world, chooses the step's action and becomes `after[0]`, and the
      action is resolved at once; a win ends the turn, anything else goes
      on to the next id with the world and planners as left. `steps`,
      `before` and `after` list the steps taken and the planners around
      each; `planners'`, `env'` and `res` are what the turn leaves. */
  ghost predicate TurnRun(env: Environment, order: seq<EntityId>, planners: map<EntityId, PlanningAgent>,
                          keyOrder: seq<DoorKeyType>, steps: seq<(EntityId, Action)>, before: seq<PlanningAgent>,
                          after: seq<PlanningAgent>, planners': map<EntityId, PlanningAgent>, env': Environment,
                          res: ActionResult)
    requires Shaped(env)
    decreases |order|
  {
    if |order| == 0 then
      steps == [] && before == [] && after == [] && planners' == planners && env' == env && res == Success
    else
      var id := order[0];
      if id !in env.agents || id !in planners then
        TurnRun(env, order[1..], planners, keyOrder, steps, before, after, planners', env', res)
      else
        && |steps| > 0 && |before| > 0 && |after| > 0
        && steps[0].0 == id && before[0] == planners[id]
        && Chooses(before[0], ViewOf(env, id), keyOrder, steps[0].1, after[0])
        && var (env1, r) := ProcessAction(env, id, steps[0].1);
           if r == Win then
             && |steps| == 1 && |before| == 1 && |after| == 1
             && planners' == planners[id := after[0]] && env' == env1 && res == Win
           else
             TurnRun(env1, order[1..], planners[id := after[0]], keyOrder, steps[1..], before[1..], after[1..],
                     planners', env', res)
  }

  /** The loop of `process_turn` over the ids still to visit, as a
      recursion: it runs the turn `TurnRun` describes. */
  method TurnFrom(env: Environment, order: seq<EntityId>, planners: map<EntityId, PlanningAgent>, keyOrder: seq<DoorKeyType>)
    returns (env': Environment, res: ActionResult, planners': map<EntityId, PlanningAgent>,
             ghost steps: seq<(EntityId, Action)>, ghost before: seq<PlanningAgent>, ghost after: seq<PlanningAgent>)
    requires Shaped(env) && ColourOrder(keyOrder)
    ensures TurnRun(env, order, planners, keyOrder, steps, before, after, planners', env', res)
    decreases |order|
  {
    if |order| == 0 {
      return env, Success, planners, [], [], [];
    }
    var id := order[0];
    if !(id in env.agents && id in planners) {
      env', res, planners', steps, before, after := TurnFrom(env, order[1..], planners, keyOrder);
      return;
    }
    var env1, outcome, planner, action := Act(env, id, planners[id], keyOrder);
    if outcome == Win {
      return env1, Win, planners[id := planner], [(id, action)], [planners[id]], [planner];
    }
    ghost var rest, b, a;
    env', res, planners', rest, b, a := TurnFrom(env1, order[1..], planners[id := planner], keyOrder);
    steps, before, after := [(id, action)] + rest, [planners[id]] + b, [planner] + a;
    assert steps[1..] == rest && before[1..] == b && after[1..] == a;
  }

  /** A turn replays: its outcome is exactly the replay of its steps. */
  lemma {:induction false} TurnReplays(env: Environment, order: seq<EntityId>, planners: map<EntityId, PlanningAgent>,
                                       keyOrder: seq<DoorKeyType>, steps: seq<(EntityId, Action)>, before: seq<PlanningAgent>,
                                       after: seq<PlanningAgent>, planners': map<EntityId, PlanningAgent>, env': Environment,
                                       res: ActionResult)
    requires Shaped(env) && TurnRun(env, order, planners, keyOrder, steps, before, after, planners', env', res)
    ensures (env', res) == RunSteps(env, steps)
    decreases |order|
  {
    if |order| > 0 {
      var id := order[0];
      if id !in env.agents || id !in planners {
        TurnReplays(env, order[1..], planners, keyOrder, steps, before, after, planners', env', res);
      } else {
        var (env1, r) := ProcessAction(env, id, steps[0].1);
        if r != Win {
          TurnReplays(env1, order[1..], planners[id := after[0]], keyOrder, steps[1..], before[1..], after[1..], planners', env', res);
        }
      }
    }
  }

  /** The steps of a turn are taken by the ids with an agent and a planner,
      in the turn's order, and a turn that stops before the last of them
      was won. */
  lemma {:induction false} TurnActors(env: Environment, order: seq<EntityId>, planners: map<EntityId, PlanningAgent>,
                                      keyOrder: seq<DoorKeyType>, steps: seq<(EntityId, Action)>, before: seq<PlanningAgent>,
                                      after: seq<PlanningAgent>, planners': map<EntityId, PlanningAgent>, env': Environment,
                                      res: ActionResult)
    requires Shaped(env) && TurnRun(env, order, planners, keyOrder, steps, before, after, planners', env', res)
    ensures Follows(steps, Actors(env.agents.Keys * planners.Keys, order))
    ensures |steps| < |Actors(env.agents.Keys * planners.Keys, order)| ==> res == Win
    decreases |order|, 1
  {
    if |order| > 0 {
      var id := order[0];
      if id !in env.agents || id !in planners {
        TurnActors(env, order[1..], planners, keyOrder, steps, before, after, planners', env', res);
      } else {
        var (env1, r) := ProcessAction(env, id, steps[0].1);
        TurnActorsAct(env.agents.Keys * planners.Keys, order, env1, planners[id := after[0]], keyOrder,
                      steps, before, after, planners', env', res, r == Win);
      }
    }
  }

  /** The case of `TurnActors` where the first id acts: its step is followed
      by a win or by the rest of the turn in a world with the same agents. */
  lemma {:induction false} TurnActorsAct(ids: set<EntityId>, order: seq<EntityId>, env1: Environment,
                                         planners1: map<EntityId, PlanningAgent>, keyOrder: seq<DoorKeyType>,
                                         steps: seq<(EntityId, Action)>, before: seq<PlanningAgent>, after: seq<PlanningAgent>,
                                         planners': map<EntityId, PlanningAgent>, env': Environment, res: ActionResult, won: bool)
    requires |order| > 0 && order[0] in ids && |steps| > 0 && steps[0].0 == order[0]
    requires won ==> |steps| == 1 && res == Win
    requires !won ==> |before| > 0 && |after| > 0 && Shaped(env1) && env1.agents.Keys * planners1.Keys == ids
    requires !won ==> TurnRun(env1, order[1..], planners1, keyOrder, steps[1..], before[1..], after[1..], planners', env', res)
    ensures Follows(steps, Actors(ids, order))
    ensures |steps| < |Actors(ids, order)| ==> res == Win
    decreases |order|, 0
  {
    if !won {
      TurnActors(env1, order[1..], planners1, keyOrder, steps[1..], before[1..], after[1..], planners', env', res);
      assert steps == [steps[0]] + steps[1..];
      FollowsJoin([steps[0]], steps[1..], [order[0]], Actors(ids, order[1..]));
    }
  }

  /** Every step of a turn is its planner's decision on the world the earlier
      steps left. */
  lemma {:induction false} TurnDriven(env: Environment, order: seq<EntityId>, planners: map<EntityId, PlanningAgent>,
                                      keyOrder: seq<DoorKeyType>, steps: seq<(EntityId, Action)>, before: seq<PlanningAgent>,
                                      after: seq<PlanningAgent>, planners': map<EntityId, PlanningAgent>, env': Environment,
                                      res: ActionResult)
    requires Shaped(env) && TurnRun(env, order, planners, keyOrder, steps, before, after, planners', env', res)
    ensures Driven(env, steps, before, after, keyOrder)
    decreases |order|
  {
    if |order| > 0 {
      var id := order[0];
      if id !in env.agents || id !in planners {
        TurnDriven(env, order[1..], planners, keyOrder, steps, before, after, planners', env', res);
      } else {
        var (env1, r) := ProcessAction(env, id, steps[0].1);
        if r != Win {
          TurnDriven(env1, order[1..], planners[id := after[0]], keyOrder, steps[1..], before[1..], after[1..], planners', env', res);
        }
      }
    }
  }

  /** With no id twice in the order, each planner that acted is found as it
      was before the turn and left as it decided, and every other planner
      is left alone; only ids of the order act. */
  lemma {:induction false} TurnKept(env: Environment, order: seq<EntityId>, planners: map<EntityId, PlanningAgent>,
                                    keyOrder: seq<DoorKeyType>, steps: seq<(EntityId, Action)>, before: seq<PlanningAgent>,
                                    after: seq<PlanningAgent>, planners': map<EntityId, PlanningAgent>, env': Environment,
                                    res: ActionResult)
    requires Shaped(env) && Distinct(order)
    requires TurnRun(env, order, planners, keyOrder, steps, before, after, planners', env', res)
    ensures Kept(planners, steps, before, after, planners')
    ensures forall i | 0 <= i < |steps| :: steps[i].0 in order
    decreases |order|, 1
  {
    if |order| > 0 {
      var id := order[0];
      if id !in env.agents || id !in planners {
        TurnKept(env, order[1..], planners, keyOrder, steps, before, after, planners', env', res);
        forall i | 0 <= i < |steps|
          ensures steps[i].0 in order
        {
          assert steps[i].0 in order[1..];
        }
      } else {
        var (env1, r) := ProcessAction(env, id, steps[0].1);
        TurnKeptAct(order, planners, env1, keyOrder, steps, before, after, planners', env', res, r == Win);
      }
    }
  }

  /** The case of `TurnKept` where the first id acts: its planner is the one
      decided on, and the rest of the turn leaves it alone. */
  lemma {:induction false} TurnKeptAct(order: seq<EntityId>, planners: map<EntityId, PlanningAgent>, env1: Environment,
                                       keyOrder: seq<DoorKeyType>, steps: seq<(EntityId, Action)>, before: seq<PlanningAgent>,
                                       after: seq<PlanningAgent>, planners': map<EntityId, PlanningAgent>, env': Environment,
                                       res: ActionResult, won: bool)
    requires |order| > 0 && Distinct(order) && order[0] in planners
    requires |steps| > 0 && |before| > 0 && |after| > 0 && steps[0].0 == order[0] && before[0] == planners[order[0]]
    requires won ==> |steps| == 1 && |before| == 1 && |after| == 1 && planners' == planners[order[0] := after[0]]
    requires !won ==> Shaped(env1)
    requires !won ==> TurnRun(env1, order[1..], planners[order[0] := after[0]], keyOrder, steps[1..], before[1..], after[1..],
                              planners', env', res)
    ensures Kept(planners, steps, before, after, planners')
    ensures forall i | 0 <= i < |steps| :: steps[i].0 in order
    decreases |order|, 0
  {
    var id := order[0];
    var planners1 := planners[id := after[0]];
    var s1, b1, a1 := [steps[0]], [before[0]], [after[0]];
    assert StepIds(s1) == {id} by {
      assert s1[0].0 == id;
    }
    if won {
      assert steps == s1 && before == b1 && after == a1;
    } else {
      TurnKept(env1, order[1..], planners1, keyOrder, steps[1..], before[1..], after[1..], planners', env', res);
      assert id !in StepIds(steps[1..]) by {
        forall i | 0 <= i < |steps[1..]|
          ensures steps[1..][i].0 != id
        {
          assert steps[1..][i].0 in order[1..];
        }
      }
      KeptJoin(planners, s1, b1, a1, planners1, steps[1..], before[1..], after[1..], planners');
      assert steps == s1 + steps[1..] && before == b1 + before[1..] && after == a1 + after[1..];
      forall i | 0 <= i < |steps|
        ensures steps[i].0 in order
      {
        if i > 0 {
          assert steps[i] == steps[1..][i - 1];
        }
      }
    }
  }

  /** Every action a planner chooses is a wait or a single horizontal or
      vertical step. */
  lemma ChoiceIsUnitStep(agent: PlanningAgent, view: View, order: seq<DoorKeyType>, action: Action, agent': PlanningAgent)
    requires Chooses(agent, view, order, action, agent')
    ensures action.Move? ==> action.dx == 0 || action.dy == 0
  {
    var t, k :| Decision(agent, view, order, action, agent', t, k);
    if |agent.currentPlan| > 0 {
      assert action == PositionToAction(view.location, agent.currentPlan[0]);
    } else if Long(t) {
      assert action == PositionToAction(view.location, t.value[1]);
    } else if Long(k) {
      assert action == PositionToAction(view.location, k.value[1]);
    }
  }

  /** Every step of a driven sequence is a wait or a unit move. */
  lemma {:induction false} DrivenMoves(env: Environment, steps: seq<(EntityId, Action)>, before: seq<PlanningAgent>,
                                       after: seq<PlanningAgent>, keyOrder: seq<DoorKeyType>)
    requires Shaped(env) && Driven(env, steps, before, after, keyOrder)
    ensures forall i | 0 <= i < |steps| :: steps[i].1.Move? ==> steps[i].1.dx == 0 || steps[i].1.dy == 0
    decreases |steps|
  {
    if |steps| > 0 {
      ChoiceIsUnitStep(before[0], ViewOf(env, steps[0].0), keyOrder, steps[0].1, after[0]);
      DrivenMoves(ProcessAction(env, steps[0].0, steps[0].1).0, steps[1..], before[1..], after[1..], keyOrder);
      forall i | 0 < i < |steps|
        ensures steps[i].1.Move? ==> steps[i].1.dx == 0 || steps[i].1.dy == 0
      {
        assert steps[i] == steps[1..][i - 1];
      }
    }
  }

  /** `process_turn` with planning agents. `order` is the agent map's
      iteration order (each id once), `planners` the behaviours by id and
      `keyOrder` the key map's iteration order. The turn runs as `TurnRun`
      describes; so its outcome is exactly the replay of the (agent,
      action) steps taken: never a failure, the acting agents in order, and
      a win whenever it stopped before the last of them. Every step is the
      decision of its agent's planner on the world the earlier steps left,
      and a wait or a unit move; each planner that acted is left as it
      decided, every other is left alone. */
  method ProcessTurn(env: Environment, order: seq<EntityId>, planners: map<EntityId, PlanningAgent>, keyOrder: seq<DoorKeyType>)
    returns (env': Environment, res: ActionResult, planners': map<EntityId, PlanningAgent>,
             ghost steps: seq<(EntityId, Action)>, ghost before: seq<PlanningAgent>, ghost after: seq<PlanningAgent>)
    requires Shaped(env) && Distinct(order) && ColourOrder(keyOrder)
    ensures TurnRun(env, order, planners, keyOrder, steps, before, after, planners', env', res)
    ensures (env', res) == RunSteps(env, steps)
    ensures res == Success || res == Win
    ensures Follows(steps, Actors(env.agents.Keys * planners.Keys, order))
    ensures |steps| < |Actors(env.agents.Keys * planners.Keys, order)| ==> res == Win
    ensures Driven(env, steps, before, after, keyOrder)
    ensures Kept(planners, steps, before, after, planners')
    ensures forall i | 0 <= i < |steps| :: steps[i].1.Move? ==> steps[i].1.dx == 0 || steps[i].1.dy == 0
  {
    env', res, planners', steps, before, after := TurnFrom(env, order, planners, keyOrder);
    TurnReplays(env, order, planners, keyOrder, steps, before, after, planners', env', res);
    TurnActors(env, order, planners, keyOrder, steps, before, after, planners', env', res);
    TurnDriven(env, order, planners, keyOrder, steps, before, after, planners', env', res);
    TurnKept(env, order, planners, keyOrder, steps, before, after, planners', env', res);
    DrivenMoves(env, steps, before, after, keyOrder);
  }
}
